/** Types and sequence facts shared by every module of the project. */
module Common {

  datatype Option<+T> = None | Some(value: T)

  datatype Result<+T, +E> = Ok(value: T) | Err(error: E)

  type byte = x: int | 0 <= x < 256

  type Bytes = seq<byte>

  /** One past the largest value of a 64-bit `usize` or `u64`. */
  const TWO_POW_64: int := 0x1_0000_0000_0000_0000

  const USIZE_MAX: int := TWO_POW_64 - 1

  function Min(a: int, b: int): int {
    if a <= b then a else b
  }

  function Max(a: int, b: int): int {
    if a >= b then a else b
  }

  /** The last `n` elements of `s`, or all of them when there are fewer. */
  function KeepLast<T>(s: seq<T>, n: nat): seq<T> {
    if |s| <= n then s else s[|s| - n..]
  }

  /** All chunks, one after the other. */
  function Flatten<T>(chunks: seq<seq<T>>): seq<T> {
    if chunks == [] then [] else chunks[0] + Flatten(chunks[1..])
  }

  lemma {:induction false} FlattenConcat<T>(a: seq<seq<T>>, b: seq<seq<T>>)
    ensures Flatten(a + b) == Flatten(a) + Flatten(b)
  {
    if a == [] {
      assert a + b == b;
    } else {
      FlattenConcat(a[1..], b);
      FlattenUnfolds(a);
      FlattenUnfolds(a + b);
      hide Flatten;
      assert (a + b)[0] == a[0] && (a + b)[1..] == a[1..] + b;
      JoinIsAssociative(a[0], Flatten(a[1..]), Flatten(b));
    }
  }

  lemma FlattenUnfolds<T>(chunks: seq<seq<T>>)
    requires chunks != []
    ensures Flatten(chunks) == chunks[0] + Flatten(chunks[1..])
  {
  }

  lemma JoinIsAssociative<T>(a: seq<T>, b: seq<T>, c: seq<T>)
    ensures a + (b + c) == (a + b) + c
  {
  }

  lemma FlattenOne<T>(a: seq<T>)
    ensures Flatten([a]) == a
  {
    assert [a][1..] == [];
  }

  /** `a` can be obtained from `b` by deleting elements and keeping the order of the rest. */
  ghost predicate Subsequence<T>(a: seq<T>, b: seq<T>)
    decreases |b|
  {
    || a == []
    || (b != [] && a[|a| - 1] == b[|b| - 1] && Subsequence(a[..|a| - 1], b[..|b| - 1]))
    || (b != [] && Subsequence(a, b[..|b| - 1]))
  }

  lemma {:induction false} SubsequenceAppend<T>(a: seq<T>, b: seq<T>, tail: seq<T>)
    requires Subsequence(a, b)
    ensures Subsequence(a + tail, b + tail)
    decreases |tail|
  {
    if tail == [] {
      assert a + tail == a && b + tail == b;
    } else {
      var front := tail[..|tail| - 1];
      SubsequenceAppend(a, b, front);
      assert (a + tail)[..|a + tail| - 1] == a + front;
      assert (b + tail)[..|b + tail| - 1] == b + front;
    }
  }

  lemma {:induction false} SubsequenceLonger<T>(a: seq<T>, b: seq<T>, tail: seq<T>)
    requires Subsequence(a, b)
    ensures Subsequence(a, b + tail)
    decreases |tail|
  {
    if tail == [] {
      assert b + tail == b;
    } else {
      SubsequenceLonger(a, b, tail[..|tail| - 1]);
      assert (b + tail)[..|b + tail| - 1] == b + tail[..|tail| - 1];
    }
  }

  lemma HasMember(ids: set<int>)
    requires |ids| > 0
    ensures exists id :: id in ids
  {
    assert (forall id :: id !in ids) ==> ids == {};
  }
}
