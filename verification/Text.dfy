/**
 * Text as Rust strings hold it: bytes that are valid UTF-8. Splitting at ASCII separators, trimming Unicode white space
 * and ignoring ASCII case are the same on the bytes as on the characters.
 */
module Text {
  import opened Common

  /** The bytes of an ASCII literal. */
  function Ascii(s: string): (r: Bytes)
    requires forall i :: 0 <= i < |s| ==> s[i] < 128 as char
    ensures |r| == |s| && forall i :: 0 <= i < |s| ==> r[i] == s[i] as int
  {
    seq(|s|, i requires 0 <= i < |s| => s[i] as int)
  }

  // ---------------------------------------------------------------------------------------------
  // UTF-8, section 4 of RFC 3629
  // ---------------------------------------------------------------------------------------------

  predicate Continuation(b: byte) {
    0x80 <= b <= 0xBF
  }

  /** The length of the character `s` starts with, or 0 if it starts with none. */
  function CharLength(s: Bytes): (n: nat)
    ensures n <= |s|
  {
    if s == [] then 0
    else if s[0] <= 0x7F then 1
    else if |s| < 2 || !Continuation(s[1]) then 0
    else if 0xC2 <= s[0] <= 0xDF then 2
    else if |s| < 3 || !Continuation(s[2]) then 0
    else if 0xE0 <= s[0] <= 0xEF then
      if (s[0] == 0xE0 && s[1] < 0xA0) || (s[0] == 0xED && s[1] > 0x9F) then 0 else 3
    else if |s| < 4 || !Continuation(s[3]) then 0
    else if 0xF0 <= s[0] <= 0xF4 then
      if (s[0] == 0xF0 && s[1] < 0x90) || (s[0] == 0xF4 && s[1] > 0x8F) then 0 else 4
    else 0
  }

  predicate ValidUtf8(s: Bytes) {
    s == [] || (CharLength(s) > 0 && ValidUtf8(s[CharLength(s)..]))
  }

  lemma FirstCharOfConcat(a: Bytes, b: Bytes)
    requires CharLength(a) > 0
    ensures CharLength(a + b) == CharLength(a)
  {
  }

  /** After valid text, more text is valid exactly if the whole is. */
  lemma {:induction false} ValidConcat(a: Bytes, b: Bytes)
    requires ValidUtf8(a)
    ensures ValidUtf8(a + b) <==> ValidUtf8(b)
  {
    hide CharLength;
    if a == [] {
      assert a + b == b;
    } else {
      var n := CharLength(a);
      FirstCharOfConcat(a, b);
      ValidConcat(a[n..], b);
      assert (a + b)[n..] == a[n..] + b;
    }
  }

  /** Text cut where a character starts is valid before the cut. */
  lemma {:induction false} ValidBefore(a: Bytes, b: byte, c: Bytes)
    requires ValidUtf8(a + [b] + c) && !Continuation(b)
    ensures ValidUtf8(a)
  {
    if a != [] {
      var s := a + [b] + c;
      var n := CharLength(s);
      FirstCharStopsBefore(a, b, c);
      assert s[n..] == a[n..] + [b] + c;
      hide CharLength;
      ValidBefore(a[n..], b, c);
    }
  }

  lemma FirstCharStopsBefore(a: Bytes, b: byte, c: Bytes)
    requires a != [] && !Continuation(b) && CharLength(a + [b] + c) > 0
    ensures CharLength(a) == CharLength(a + [b] + c) <= |a|
  {
    var s := a + [b] + c;
    assert s[|a|] == b;
    assert forall i :: 0 <= i < |a| ==> s[i] == a[i];
  }

  lemma {:induction false} AsciiIsValid(s: Bytes)
    requires forall i :: 0 <= i < |s| ==> s[i] <= 0x7F
    ensures ValidUtf8(s)
  {
    if s != [] {
      AsciiIsValid(s[1..]);
    }
  }

  // ---------------------------------------------------------------------------------------------
  // White space
  // ---------------------------------------------------------------------------------------------

  /** The three-byte characters of the Unicode property White_Space. */
  predicate WideSpace(a: byte, b: byte, c: byte) {
    || (a == 0xE1 && b == 0x9A && c == 0x80)
    || (a == 0xE2 && b == 0x80 && (c <= 0x8A || c == 0xA8 || c == 0xA9 || c == 0xAF) && c >= 0x80)
    || (a == 0xE2 && b == 0x81 && c == 0x9F)
    || (a == 0xE3 && b == 0x80 && c == 0x80)
  }

  predicate AsciiSpace(b: byte) {
    9 <= b <= 13 || b == 32
  }

  predicate LatinSpace(a: byte, b: byte) {
    a == 0xC2 && (b == 0x85 || b == 0xA0)
  }

  /** The length of the white space character `s` starts with, or 0. */
  function SpaceAtStart(s: Bytes): (n: nat)
    ensures n <= |s|
  {
    if |s| >= 1 && AsciiSpace(s[0]) then 1
    else if |s| >= 2 && LatinSpace(s[0], s[1]) then 2
    else if |s| >= 3 && WideSpace(s[0], s[1], s[2]) then 3
    else 0
  }

  function SpaceAtEnd(s: Bytes): (n: nat)
    ensures n <= |s|
  {
    var k := |s|;
    if k >= 1 && AsciiSpace(s[k - 1]) then 1
    else if k >= 2 && LatinSpace(s[k - 2], s[k - 1]) then 2
    else if k >= 3 && WideSpace(s[k - 3], s[k - 2], s[k - 1]) then 3
    else 0
  }

  function TrimStart(s: Bytes): Bytes {
    if SpaceAtStart(s) == 0 then s else TrimStart(s[SpaceAtStart(s)..])
  }

  function TrimEnd(s: Bytes): Bytes {
    if SpaceAtEnd(s) == 0 then s else TrimEnd(s[..|s| - SpaceAtEnd(s)])
  }

  function Trim(s: Bytes): Bytes {
    TrimEnd(TrimStart(s))
  }

  predicate Trimmed(s: Bytes) {
    SpaceAtStart(s) == 0 && SpaceAtEnd(s) == 0
  }

  lemma SpaceIsACharacter(s: Bytes)
    requires SpaceAtStart(s) > 0
    ensures CharLength(s) == SpaceAtStart(s)
  {
  }

  lemma {:induction false} TrimStartIsValid(s: Bytes)
    requires ValidUtf8(s)
    ensures ValidUtf8(TrimStart(s))
  {
    if SpaceAtStart(s) > 0 {
      SpaceIsACharacter(s);
      hide CharLength, SpaceAtStart;
      TrimStartIsValid(s[SpaceAtStart(s)..]);
    }
  }

  lemma SpaceStartsACharacter(s: Bytes)
    requires SpaceAtEnd(s) > 0
    ensures !Continuation(s[|s| - SpaceAtEnd(s)])
  {
  }

  lemma {:induction false} TrimEndIsValid(s: Bytes)
    requires ValidUtf8(s)
    ensures ValidUtf8(TrimEnd(s))
  {
    if SpaceAtEnd(s) > 0 {
      var k := |s| - SpaceAtEnd(s);
      SpaceStartsACharacter(s);
      assert s == s[..k] + [s[k]] + s[k + 1..];
      hide SpaceAtEnd;
      ValidBefore(s[..k], s[k], s[k + 1..]);
      TrimEndIsValid(s[..k]);
    }
  }

  lemma TrimIsValid(s: Bytes)
    requires ValidUtf8(s)
    ensures ValidUtf8(Trim(s))
  {
    TrimStartIsValid(s);
    TrimEndIsValid(TrimStart(s));
  }

  /** Cutting valid text at an ASCII separator leaves valid text on both sides. */
  lemma SplitOnceIsValid(s: Bytes, separator: byte)
    requires ValidUtf8(s) && separator < 0x80 && SplitOnce(s, separator).Some?
    ensures var (before, after) := SplitOnce(s, separator).value; ValidUtf8(before) && ValidUtf8(after)
  {
    SplitOnceIff(s, separator);
    var (before, after) := SplitOnce(s, separator).value;
    ValidBefore(before, separator, after);
    AsciiIsValid([separator]);
    ValidConcat(before, [separator]);
    ValidConcat(before + [separator], after);
  }

  lemma TrimmedByEnds(s: Bytes)
    requires s != [] && s[0] < 0x80 && s[|s| - 1] < 0x80 && !AsciiSpace(s[0]) && !AsciiSpace(s[|s| - 1])
    ensures Trimmed(s)
  {
  }

  /** Trimming leaves text that neither starts nor ends with white space alone. */
  lemma TrimOfTrimmed(s: Bytes)
    requires Trimmed(s)
    ensures Trim(s) == s
  {
  }

  lemma TrimDropsLeadingSpace(s: Bytes)
    ensures Trim([32] + s) == Trim(s)
  {
    var padded := [32] + s;
    assert SpaceAtStart(padded) == 1 && padded[1..] == s;
    assert TrimStart(padded) == TrimStart(s);
  }

  // ---------------------------------------------------------------------------------------------
  // What the bytes stand for
  // ---------------------------------------------------------------------------------------------

  /** A Unicode scalar value. */
  type Scalar = c: int | 0 <= c < 0xD800 || 0xE000 <= c <= 0x10FFFF

  /** Its bytes, as section 3 of RFC 3629 gives them. */
  function Encoding(c: Scalar): Bytes {
    if c < 0x80 then [c]
    else if c < 0x800 then [0xC0 + c / 64, 0x80 + c % 64]
    else if c < 0x1_0000 then [0xE0 + c / 4096, 0x80 + c / 64 % 64, 0x80 + c % 64]
    else [0xF0 + c / 0x4_0000, 0x80 + c / 4096 % 64, 0x80 + c / 64 % 64, 0x80 + c % 64]
  }

  function Utf8(text: seq<Scalar>): Bytes {
    if text == [] then [] else Encoding(text[0]) + Utf8(text[1..])
  }

  lemma {:induction false} Utf8Concat(a: seq<Scalar>, b: seq<Scalar>)
    ensures Utf8(a + b) == Utf8(a) + Utf8(b)
  {
    hide Encoding;
    if a == [] {
      assert a + b == b;
    } else {
      Utf8Concat(a[1..], b);
      assert (a + b)[0] == a[0] && (a + b)[1..] == a[1..] + b;
      Associate(Encoding(a[0]), Utf8(a[1..]), Utf8(b));
    }
  }

  /** The first character of encoded text is as long as its encoding. */
  lemma EncodedCharLength(c: Scalar, rest: Bytes)
    ensures Encoding(c) != [] && CharLength(Encoding(c) + rest) == |Encoding(c)|
  {
    var e := Encoding(c);
    EncodingIsCharacter(c);
    hide Encoding, CharLength;
    FirstCharOfConcat(e, rest);
  }

  lemma EncodingIsCharacter(c: Scalar)
    ensures Encoding(c) != [] && CharLength(Encoding(c)) == |Encoding(c)|
  {
  }

  /** The scalar value of the first character. */
  lemma FirstScalar(s: Bytes) returns (c: Scalar)
    requires CharLength(s) > 0
    ensures Encoding(c) == s[..CharLength(s)]
  {
    var n := CharLength(s);
    if n == 1 {
      c := s[0];
    } else if n == 2 {
      c := TwoBytes(s[0], s[1]);
      assert s[..2] == [s[0], s[1]];
    } else if n == 3 {
      c := ThreeBytes(s[0], s[1], s[2]);
      assert s[..3] == [s[0], s[1], s[2]];
    } else {
      c := FourBytes(s[0], s[1], s[2], s[3]);
      assert s[..4] == [s[0], s[1], s[2], s[3]];
    }
  }

  lemma TwoBytes(a: byte, b: byte) returns (c: Scalar)
    requires 0xC2 <= a <= 0xDF && Continuation(b)
    ensures Encoding(c) == [a, b]
  {
    c := (a - 0xC0) * 64 + (b - 0x80);
    assert c / 64 == a - 0xC0 && c % 64 == b - 0x80;
  }

  lemma ThreeBytes(a: byte, b: byte, d: byte) returns (c: Scalar)
    requires 0xE0 <= a <= 0xEF && Continuation(b) && Continuation(d)
    requires (a == 0xE0 ==> b >= 0xA0) && (a == 0xED ==> b <= 0x9F)
    ensures Encoding(c) == [a, b, d]
  {
    var high := (a - 0xE0) * 64 + (b - 0x80);
    c := high * 64 + (d - 0x80);
    assert c / 64 == high && c % 64 == d - 0x80;
    assert high / 64 == a - 0xE0 && high % 64 == b - 0x80 && c / 4096 == a - 0xE0;
  }

  lemma FourBytes(a: byte, b: byte, d: byte, e: byte) returns (c: Scalar)
    requires 0xF0 <= a <= 0xF4 && Continuation(b) && Continuation(d) && Continuation(e)
    requires (a == 0xF0 ==> b >= 0x90) && (a == 0xF4 ==> b <= 0x8F)
    ensures Encoding(c) == [a, b, d, e]
  {
    var top := (a - 0xF0) * 64 + (b - 0x80);
    var high := top * 64 + (d - 0x80);
    c := high * 64 + (e - 0x80);
    assert c / 64 == high && c % 64 == e - 0x80;
    assert high / 64 == top && high % 64 == d - 0x80 && c / 4096 == top;
    assert top / 64 == a - 0xF0 && top % 64 == b - 0x80 && c / 0x4_0000 == a - 0xF0;
  }

  lemma {:induction false} EncodedIsValid(text: seq<Scalar>)
    ensures ValidUtf8(Utf8(text))
  {
    if text != [] {
      var rest := Utf8(text[1..]);
      EncodedIsValid(text[1..]);
      EncodedCharLength(text[0], rest);
      hide Encoding, CharLength;
      assert (Encoding(text[0]) + rest)[|Encoding(text[0])|..] == rest;
    }
  }

  lemma {:induction false} ValidIsEncoded(s: Bytes) returns (text: seq<Scalar>)
    requires ValidUtf8(s)
    ensures Utf8(text) == s
  {
    hide CharLength, Encoding;
    text := [];
    if s != [] {
      var n := CharLength(s);
      var c := FirstScalar(s);
      var rest := ValidIsEncoded(s[n..]);
      text := [c] + rest;
      Utf8Cons(c, rest);
      hide Utf8, ValidUtf8;
      assert s == s[..n] + s[n..];
    }
  }

  lemma Utf8Cons(c: Scalar, rest: seq<Scalar>)
    ensures Utf8([c] + rest) == Encoding(c) + Utf8(rest)
  {
    assert ([c] + rest)[1..] == rest;
  }

  /** Valid text is exactly what some sequence of Unicode scalar values is encoded to. */
  lemma ValidIffEncoded(s: Bytes)
    ensures ValidUtf8(s) <==> exists text :: Utf8(text) == s
  {
    hide Utf8, ValidUtf8;
    if ValidUtf8(s) {
      var text := ValidIsEncoded(s);
    }
    forall text | Utf8(text) == s
      ensures ValidUtf8(s)
    {
      EncodedIsValid(text);
    }
  }

  /** The Unicode property White_Space. */
  predicate WhiteSpace(c: Scalar) {
    || 0x9 <= c <= 0xD || c == 0x20 || c == 0x85 || c == 0xA0 || c == 0x1680
    || 0x2000 <= c <= 0x200A || c == 0x2028 || c == 0x2029 || c == 0x202F || c == 0x205F || c == 0x3000
  }

  ghost predicate AllWhiteSpace(text: seq<Scalar>) {
    forall i :: 0 <= i < |text| ==> WhiteSpace(text[i])
  }

  lemma SpaceAtStartIsWhiteSpace(c: Scalar, rest: Bytes)
    ensures SpaceAtStart(Encoding(c) + rest) == if WhiteSpace(c) then |Encoding(c)| else 0
  {
    var s := Encoding(c) + rest;
    assert forall i :: 0 <= i < |Encoding(c)| ==> s[i] == Encoding(c)[i];
  }

  lemma SpaceAtEndIsWhiteSpace(c: Scalar, front: Bytes)
    ensures SpaceAtEnd(front + Encoding(c)) == if WhiteSpace(c) then |Encoding(c)| else 0
  {
    var s := front + Encoding(c);
    assert forall i :: 0 <= i < |Encoding(c)| ==> s[|front| + i] == Encoding(c)[i];
  }

  lemma TrimStartOnce(c: Scalar, rest: Bytes)
    ensures TrimStart(Encoding(c) + rest) == if WhiteSpace(c) then TrimStart(rest) else Encoding(c) + rest
  {
    SpaceAtStartIsWhiteSpace(c, rest);
    EncodedCharLength(c, rest);
    hide Encoding, SpaceAtStart, WhiteSpace, CharLength;
    assert (Encoding(c) + rest)[|Encoding(c)|..] == rest;
  }

  lemma TrimEndOnce(c: Scalar, front: Bytes)
    ensures TrimEnd(front + Encoding(c)) == if WhiteSpace(c) then TrimEnd(front) else front + Encoding(c)
  {
    SpaceAtEndIsWhiteSpace(c, front);
    EncodedCharLength(c, []);
    hide Encoding, SpaceAtEnd, WhiteSpace, CharLength;
    assert (front + Encoding(c))[..|front|] == front;
  }

  lemma {:induction false} TrimStartDropsWhiteSpace(front: seq<Scalar>, rest: seq<Scalar>)
    requires AllWhiteSpace(front) && (rest != [] ==> !WhiteSpace(rest[0]))
    ensures TrimStart(Utf8(front) + Utf8(rest)) == Utf8(rest)
    decreases |front|
  {
    hide Encoding, WhiteSpace, SpaceAtStart;
    if front == [] {
      assert Utf8(front) + Utf8(rest) == Utf8(rest);
      if rest != [] {
        TrimStartOnce(rest[0], Utf8(rest[1..]));
      }
    } else {
      TrimStartDropsWhiteSpace(front[1..], rest);
      TrimStartOnce(front[0], Utf8(front[1..]) + Utf8(rest));
      Associate(Encoding(front[0]), Utf8(front[1..]), Utf8(rest));
      hide TrimStart;
    }
  }

  lemma {:induction false} TrimEndDropsWhiteSpace(rest: seq<Scalar>, back: seq<Scalar>)
    requires AllWhiteSpace(back) && (rest != [] ==> !WhiteSpace(rest[|rest| - 1]))
    ensures TrimEnd(Utf8(rest) + Utf8(back)) == Utf8(rest)
    decreases |back|
  {
    hide Encoding, WhiteSpace;
    if back == [] {
      assert Utf8(rest) + Utf8(back) == Utf8(rest);
      if rest != [] {
        hide SpaceAtEnd, TrimEnd;
        LastOfUtf8(rest);
        TrimEndOnce(rest[|rest| - 1], Utf8(rest[..|rest| - 1]));
      }
    } else {
      hide SpaceAtEnd, TrimEnd;
      var front, last := back[..|back| - 1], back[|back| - 1];
      TrimEndDropsWhiteSpace(rest, front);
      LastOfUtf8(back);
      TrimEndOnce(last, Utf8(rest) + Utf8(front));
      Associate(Utf8(rest), Utf8(front), Encoding(last));
    }
  }

  lemma LastOfUtf8(text: seq<Scalar>)
    requires text != []
    ensures Utf8(text) == Utf8(text[..|text| - 1]) + Encoding(text[|text| - 1])
  {
    var front, last := text[..|text| - 1], [text[|text| - 1]];
    assert text == front + last;
    Utf8Concat(front, last);
    assert last[1..] == [] && Encoding(last[0]) + [] == Encoding(last[0]);
    hide Encoding;
  }

  /** Trimming drops exactly the white space characters around a text. */
  lemma TrimDropsWhiteSpace(front: seq<Scalar>, text: seq<Scalar>, back: seq<Scalar>)
    requires AllWhiteSpace(front) && AllWhiteSpace(back)
    requires text != [] ==> !WhiteSpace(text[0]) && !WhiteSpace(text[|text| - 1])
    ensures Trim(Utf8(front + text + back)) == Utf8(text)
  {
    hide Utf8, Trim, WhiteSpace, AllWhiteSpace;
    if text == [] {
      assert front + text + back == front + back;
      BothAreWhiteSpace(front, back);
      WhiteSpaceIsTrimmedAway(front + back);
      EmptyUtf8(text);
    } else {
      TextIsTrimmed(front, text, back);
    }
  }

  lemma BothAreWhiteSpace(a: seq<Scalar>, b: seq<Scalar>)
    requires AllWhiteSpace(a) && AllWhiteSpace(b)
    ensures AllWhiteSpace(a + b)
  {
  }

  lemma EmptyUtf8(text: seq<Scalar>)
    requires text == []
    ensures Utf8(text) == []
  {
  }

  lemma TextIsTrimmed(front: seq<Scalar>, text: seq<Scalar>, back: seq<Scalar>)
    requires AllWhiteSpace(front) && AllWhiteSpace(back)
    requires text != [] && !WhiteSpace(text[0]) && !WhiteSpace(text[|text| - 1])
    ensures Trim(Utf8(front + text + back)) == Utf8(text)
  {
    hide Utf8, TrimStart, TrimEnd, WhiteSpace, AllWhiteSpace;
    assert front + text + back == front + (text + back) && (text + back)[0] == text[0];
    Utf8Concat(front, text + back);
    Utf8Concat(text, back);
    TrimStartDropsWhiteSpace(front, text + back);
    TrimEndDropsWhiteSpace(text, back);
  }

  lemma WhiteSpaceIsTrimmedAway(text: seq<Scalar>)
    requires AllWhiteSpace(text)
    ensures Trim(Utf8(text)) == []
  {
    TrimStartDropsWhiteSpace(text, []);
    assert Utf8(text) + [] == Utf8(text);
    assert TrimEnd([]) == [];
    hide TrimStart, TrimEnd, AllWhiteSpace;
  }

  lemma Associate(a: Bytes, b: Bytes, c: Bytes)
    ensures a + b + c == a + (b + c)
  {
  }

  // ---------------------------------------------------------------------------------------------
  // ASCII case
  // ---------------------------------------------------------------------------------------------

  function LowerByte(b: byte): byte {
    if 65 <= b <= 90 then b + 32 else b
  }

  function Lower(s: Bytes): (r: Bytes)
    ensures |r| == |s| && forall i :: 0 <= i < |s| ==> r[i] == LowerByte(s[i])
  {
    seq(|s|, i requires 0 <= i < |s| => LowerByte(s[i]))
  }

  predicate EqualsIgnoringCase(a: Bytes, b: Bytes) {
    Lower(a) == Lower(b)
  }

  /** The same byte, or the same ASCII letter in both cases. */
  predicate SameUpToCase(x: byte, y: byte) {
    || x == y
    || (y - x == 32 && 'A' <= x as char <= 'Z')
    || (x - y == 32 && 'A' <= y as char <= 'Z')
  }

  lemma SameUpToCaseIff(x: byte, y: byte)
    ensures LowerByte(x) == LowerByte(y) <==> SameUpToCase(x, y)
    ensures SameUpToCase(x, LowerByte(x)) && !('A' <= LowerByte(x) as char <= 'Z')
  {
  }

  /** Ignoring case is ignoring that of the ASCII letters, and lowering a text removes exactly the upper-case ones. */
  lemma EqualIffSameUpToCase(a: Bytes, b: Bytes)
    ensures EqualsIgnoringCase(a, b) <==>
            |a| == |b| && forall i :: 0 <= i < |a| ==> SameUpToCase(a[i], b[i])
    ensures EqualsIgnoringCase(a, Lower(a))
    ensures forall i :: 0 <= i < |a| ==> !('A' <= Lower(a)[i] as char <= 'Z')
  {
    forall i | 0 <= i < |a|
      ensures !('A' <= Lower(a)[i] as char <= 'Z') && Lower(Lower(a))[i] == Lower(a)[i]
      ensures i < |b| ==> (SameUpToCase(a[i], b[i]) <==> Lower(a)[i] == Lower(b)[i])
    {
      SameUpToCaseIff(a[i], LowerByte(a[i]));
      if i < |b| {
        SameUpToCaseIff(a[i], b[i]);
      }
    }
    assert Lower(Lower(a)) == Lower(a);
    assert |Lower(a)| == |a| && |Lower(b)| == |b|;
  }

  // ---------------------------------------------------------------------------------------------
  // Splitting and searching
  // ---------------------------------------------------------------------------------------------

  /** Everything before the first separator, and everything after it. */
  function SplitOnce(s: Bytes, separator: byte): Option<(Bytes, Bytes)> {
    if s == [] then None
    else if s[0] == separator then Some(([], s[1..]))
    else
      match SplitOnce(s[1..], separator)
      case None => None
      case Some((before, after)) => Some(([s[0]] + before, after))
  }

  lemma {:induction false} SplitOnceAt(a: Bytes, separator: byte, b: Bytes)
    requires separator !in a
    ensures SplitOnce(a + [separator] + b, separator) == Some((a, b))
  {
    var s := a + [separator] + b;
    if a == [] {
      assert s[1..] == b;
    } else {
      SplitOnceAt(a[1..], separator, b);
      assert s[1..] == a[1..] + [separator] + b;
      assert [a[0]] + a[1..] == a;
    }
  }

  lemma {:induction false} SplitOnceIff(s: Bytes, separator: byte)
    ensures SplitOnce(s, separator).Some? <==> separator in s
    ensures SplitOnce(s, separator).Some? ==>
              var (before, after) := SplitOnce(s, separator).value;
              separator !in before && s == before + [separator] + after
  {
    if s != [] && s[0] != separator {
      SplitOnceIff(s[1..], separator);
      assert s == [s[0]] + s[1..];
    }
  }

  /** The pieces between separators; there is always at least one. */
  function Split(s: Bytes, separator: byte): (pieces: seq<Bytes>)
    ensures |pieces| > 0
  {
    if s == [] then [[]]
    else if s[0] == separator then [[]] + Split(s[1..], separator)
    else var rest := Split(s[1..], separator); [[s[0]] + rest[0]] + rest[1..]
  }

  lemma {:induction false} SplitWhole(a: Bytes, separator: byte)
    requires separator !in a
    ensures Split(a, separator) == [a]
  {
    if a != [] {
      SplitWhole(a[1..], separator);
      assert [a[0]] + a[1..] == a;
    }
  }

  lemma SplitUnfolds(s: Bytes, separator: byte)
    requires s != []
    ensures var rest := Split(s[1..], separator);
            Split(s, separator) == if s[0] == separator then [[]] + rest else [[s[0]] + rest[0]] + rest[1..]
  {
  }

  lemma PrependToFirst(b: byte, front: seq<Bytes>, back: seq<Bytes>)
    requires front != []
    ensures (front + back)[0] == front[0] && (front + back)[1..] == front[1..] + back
    ensures [[b] + front[0]] + (front[1..] + back) == [[b] + front[0]] + front[1..] + back
    ensures [[]] + (front + back) == [[]] + front + back
  {
  }

  /** Splitting does not see more than the separators. */
  lemma {:induction false} SplitConcat(a: Bytes, separator: byte, b: Bytes)
    ensures Split(a + [separator] + b, separator) == Split(a, separator) + Split(b, separator)
  {
    var s := a + [separator] + b;
    SplitUnfolds(s, separator);
    if a == [] {
      assert s[1..] == b;
      assert Split(a, separator) == [[]];
    } else {
      SplitUnfolds(a, separator);
      hide Split;
      SplitConcat(a[1..], separator, b);
      assert s[1..] == a[1..] + [separator] + b && s[0] == a[0];
      PrependToFirst(a[0], Split(a[1..], separator), Split(b, separator));
    }
  }

  lemma SplitFirst(a: Bytes, separator: byte, b: Bytes)
    requires separator !in a
    ensures Split(a + [separator] + b, separator) == [a] + Split(b, separator)
  {
    SplitConcat(a, separator, b);
    SplitWhole(a, separator);
  }

  lemma TwoSlices(s: Bytes, a: nat, b: nat, c: nat)
    requires a <= b <= c <= |s|
    ensures s[a..c] == s[a..b] + s[b..c]
  {
  }

  lemma MiddleSlice(before: Bytes, s: Bytes, after: Bytes)
    ensures (before + s + after)[|before|..|before| + |s|] == s
    ensures (before + s + after)[|before| + |s|..] == after
  {
  }

  predicate OccursAt(haystack: Bytes, i: int, needle: Bytes) {
    0 <= i && i + |needle| <= |haystack| && haystack[i..i + |needle|] == needle
  }

  lemma NoOccurrence(haystack: Bytes, i: nat, needle: Bytes, k: nat)
    requires k < |needle| && i + |needle| <= |haystack| && haystack[i + k] != needle[k]
    ensures !OccursAt(haystack, i, needle)
  {
    assert haystack[i..i + |needle|][k] != needle[k];
  }

  /** Where `needle` first occurs from `start` on; an empty needle is never found. */
  function FindFrom(haystack: Bytes, start: nat, needle: Bytes): Option<nat>
    decreases |haystack| - start
  {
    if needle == [] || start + |needle| > |haystack| then None
    else if haystack[start..start + |needle|] == needle then Some(start)
    else FindFrom(haystack, start + 1, needle)
  }

  /** The search finds the least occurrence, and fails only when there is none. */
  lemma {:induction false} FindIsLeast(haystack: Bytes, start: nat, needle: Bytes)
    requires needle != []
    ensures var r := FindFrom(haystack, start, needle);
            && (r.Some? ==> start <= r.value && OccursAt(haystack, r.value, needle)
                            && forall i :: start <= i < r.value ==> !OccursAt(haystack, i, needle))
            && (r.None? ==> forall i :: start <= i ==> !OccursAt(haystack, i, needle))
    decreases |haystack| - start
  {
    if start + |needle| <= |haystack| && haystack[start..start + |needle|] != needle {
      FindIsLeast(haystack, start + 1, needle);
    }
  }

  lemma FindMeansOccurs(haystack: Bytes, start: nat, needle: Bytes)
    requires FindFrom(haystack, start, needle).Some?
    ensures start <= FindFrom(haystack, start, needle).value
    ensures OccursAt(haystack, FindFrom(haystack, start, needle).value, needle)
  {
    FindIsLeast(haystack, start, needle);
  }

  /** An occurrence that nothing precedes is the one the search finds. */
  lemma FoundIfLeast(haystack: Bytes, start: nat, needle: Bytes, k: nat)
    requires needle != [] && start <= k && OccursAt(haystack, k, needle)
    requires forall i :: start <= i < k ==> !OccursAt(haystack, i, needle)
    ensures FindFrom(haystack, start, needle) == Some(k)
  {
    FindIsLeast(haystack, start, needle);
  }

  lemma OccursInContext(before: Bytes, s: Bytes, after: Bytes, needle: Bytes, i: nat)
    requires i + |needle| <= |s|
    ensures OccursAt(before + s + after, |before| + i, needle) <==> OccursAt(s, i, needle)
  {
    assert (before + s + after)[|before| + i..|before| + i + |needle|] == s[i..i + |needle|];
  }

  /** The first occurrence in the middle of a text is the first one in the text, as far as the search starts there. */
  lemma FindInContext(before: Bytes, s: Bytes, after: Bytes, needle: Bytes, k: nat)
    requires needle != [] && FindFrom(s, 0, needle) == Some(k)
    ensures FindFrom(before + s + after, |before|, needle) == Some(|before| + k)
  {
    hide *;
    FindIsLeast(s, 0, needle);
    var t := before + s + after;
    OccursInContext(before, s, after, needle, k);
    forall i | |before| <= i < |before| + k
      ensures !OccursAt(t, i, needle)
    {
      OccursInContext(before, s, after, needle, i - |before|);
    }
    FoundIfLeast(t, |before|, needle, |before| + k);
  }

  /** ... and the other way round. */
  lemma FindInSlice(s: Bytes, start: nat, needle: Bytes, k: nat)
    requires needle != [] && FindFrom(s, start, needle) == Some(k)
    ensures start <= k && k + |needle| <= |s|
    ensures FindFrom(s[start..k + |needle|], 0, needle) == Some(k - start)
  {
    FindIsLeast(s, start, needle);
    hide FindFrom;
    SlicesOfSlice(s, start, k + |needle|, needle);
    FoundIfLeast(s[start..k + |needle|], 0, needle, k - start);
  }

  lemma SliceOfSlice(s: Bytes, start: nat, end: nat, i: nat, j: nat)
    requires start <= end <= |s| && i <= j <= end - start
    ensures s[start..end][i..j] == s[start + i..start + j]
  {
    var inner, outer := s[start..end][i..j], s[start + i..start + j];
    assert |inner| == |outer|;
    assert forall k :: 0 <= k < |inner| ==> inner[k] == outer[k];
  }

  lemma SlicesOfSlice(s: Bytes, start: nat, end: nat, needle: Bytes)
    requires start <= end <= |s|
    ensures forall i :: 0 <= i && i + |needle| <= end - start ==>
              (OccursAt(s[start..end], i, needle) <==> OccursAt(s, start + i, needle))
  {
    forall i | 0 <= i && i + |needle| <= end - start
      ensures OccursAt(s[start..end], i, needle) <==> OccursAt(s, start + i, needle)
    {
      SliceOfSlice(s, start, end, i, i + |needle|);
    }
  }

  /** What comes before the first occurrence, and the occurrence. */
  lemma CutAtOccurrence(s: Bytes, start: nat, needle: Bytes, k: nat)
    requires needle != [] && FindFrom(s, start, needle) == Some(k)
    ensures start <= k && k + |needle| <= |s|
    ensures s[start..k + |needle|] == s[start..k] + needle
    ensures FindFrom(s[start..k] + needle, 0, needle) == Some(k - start)
  {
    hide FindFrom;
    FindInSlice(s, start, needle, k);
    SliceUpToNeedle(s, start, needle, k);
  }

  lemma SliceUpToNeedle(s: Bytes, start: nat, needle: Bytes, k: nat)
    requires FindFrom(s, start, needle) == Some(k)
    ensures start <= k && k + |needle| <= |s| && s[start..k + |needle|] == s[start..k] + needle
  {
    hide FindFrom;
    FindMeansOccurs(s, start, needle);
    TwoSlices(s, start, k, k + |needle|);
  }

  lemma Regroup(a: Bytes, b: Bytes, c: Bytes, d: Bytes)
    ensures a + b + c + d == a + (b + c) + d == a + b + (c + d)
  {
  }

  /** A text before its first terminator is found as such wherever the two stand. */
  lemma FoundBetween(before: Bytes, s: Bytes, terminator: Bytes, after: Bytes)
    requires terminator != [] && FindFrom(s + terminator, 0, terminator) == Some(|s|)
    ensures var whole := before + s + terminator + after;
            && FindFrom(whole, |before|, terminator) == Some(|before| + |s|)
            && whole[|before|..|before| + |s|] == s
  {
    hide FindFrom;
    Regroup(before, s, terminator, after);
    FindInContext(before, s + terminator, after, terminator, |s|);
    MiddleSlice(before, s, terminator + after);
  }
}
