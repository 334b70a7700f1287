/** Where the buckets of a streaming waveform begin, and why the comparison that ends one cannot overflow. */
module WaveformBuckets {
  import opened Common

  const MICROS: nat := 1_000_000

  /** `a / MICROS`, rounded up. */
  function CeilMicros(a: nat): nat {
    (a + MICROS - 1) / MICROS
  }

  /** The index of the first frame of bucket `k` when `d` is the sample rate times the interval in microseconds. */
  function Boundary(k: nat, d: nat): nat {
    Max(k, CeilMicros(k * d))
  }

  /** The comparison made after each frame: `n` frames reach the end of bucket `bucket`. */
  predicate ReachesEnd(n: nat, bucket: nat, d: nat) {
    n * MICROS >= (bucket + 1) * d
  }

  lemma CeilIsLeast(a: nat, n: nat)
    ensures n * MICROS >= a <==> n >= CeilMicros(a)
  {
  }

  lemma BoundaryIncreases(k: nat, d: nat)
    ensures Boundary(k, d) < Boundary(k + 1, d)
  {
    assert (k + 1) * d == k * d + d;
    if d < MICROS {
      CeilIsLeast(k * d, k);
      assert k * d <= k * MICROS;
    }
  }

  /** When a bucket spans at least one frame period its first frame is the least at or past its start time. */
  lemma BoundaryIsCeil(k: nat, d: nat)
    requires d >= MICROS
    ensures Boundary(k, d) == CeilMicros(k * d)
  {
    ProductMonotone(MICROS, d, k);
    CeilIsLeast(k * d, k);
    CeilMicrosMonotone(k * MICROS, k * d);
  }

  lemma CeilMicrosMonotone(a: nat, b: nat)
    requires a <= b
    ensures CeilMicros(a) <= CeilMicros(b)
  {
  }

  lemma {:induction false} BoundaryMonotone(j: nat, k: nat, d: nat)
    requires j <= k
    ensures Boundary(j, d) <= Boundary(k, d)
    ensures j < k ==> Boundary(j, d) < Boundary(k, d)
    decreases k - j
  {
    if j < k {
      BoundaryIncreases(j, d);
      BoundaryMonotone(j + 1, k, d);
    }
  }

  /** The number of buckets that are complete after `n` frames. */
  function CompletedBuckets(n: nat, d: nat): nat {
    if d == 0 then n else Min(n, n * MICROS / d)
  }

  lemma QuotientBounds(a: nat, d: nat)
    requires 0 < d
    ensures a / d * d <= a < (a / d + 1) * d
  {
    assert a == a / d * d + a % d;
    assert (a / d + 1) * d == a / d * d + d;
  }

  /** After `n` frames the bucket being filled is number `min(n, n * MICROS / d)`, and only that one. */
  lemma CompletedBucketsExactly(n: nat, bucket: nat, d: nat)
    ensures Boundary(bucket, d) <= n < Boundary(bucket + 1, d) <==> bucket == CompletedBuckets(n, d)
  {
    var c := CompletedBuckets(n, d);
    CompletedBucketsHold(n, d);
    if bucket < c {
      BoundaryMonotone(bucket + 1, c, d);
    } else if c < bucket {
      BoundaryMonotone(c + 1, bucket, d);
    }
  }

  lemma CompletedBucketsHold(n: nat, d: nat)
    ensures var c := CompletedBuckets(n, d); Boundary(c, d) <= n < Boundary(c + 1, d)
  {
    var c := CompletedBuckets(n, d);
    CeilIsLeast(c * d, n);
    CeilIsLeast((c + 1) * d, n);
    assert c * d <= n * MICROS && (n < (c + 1) || n * MICROS < (c + 1) * d) by {
      if d == 0 {
        assert c * d == 0;
      } else {
        var q := n * MICROS / d;
        QuotientBounds(n * MICROS, d);
        if n < q {
          ProductMonotone(n, q, d);
        }
      }
    }
  }

  /** One comparison per frame is enough to keep up: the bucket advances by one exactly when it must. */
  lemma AdvanceExactly(n: nat, bucket: nat, d: nat)
    requires Boundary(bucket, d) <= n < Boundary(bucket + 1, d)
    ensures ReachesEnd(n + 1, bucket, d) <==> n + 1 == Boundary(bucket + 1, d)
    ensures ReachesEnd(n + 1, bucket, d) ==> n + 1 < Boundary(bucket + 2, d)
  {
    BoundaryBounds(bucket, d, n);
    ReachedOrNot(n, bucket + 1, (bucket + 1) * d);
    BoundaryIncreases(bucket + 1, d);
    hide CeilMicros;
  }

  /** `n` is before the larger of `first` and the ceiling; the next frame is there exactly when it reaches `end`. */
  lemma ReachedOrNot(n: nat, first: nat, end: nat)
    requires first <= n + 1 && n < Max(first, CeilMicros(end))
    ensures (n + 1) * MICROS >= end <==> n + 1 == Max(first, CeilMicros(end))
  {
    CeilIsLeast(end, n + 1);
    hide CeilMicros;
  }

  /** Both sides of the comparison, and the partial product, fit in 128 bits for any 64-bit frame count. */
  lemma ComparisonFitsU128(framesSeen: nat, bucket: nat, sampleRate: nat, interval: nat)
    requires 0 < framesSeen < TWO_POW_64 && sampleRate < 0x1_0000_0000 && interval < TWO_POW_64
    requires var d := sampleRate * interval; Boundary(bucket, d) <= framesSeen - 1 < Boundary(bucket + 1, d)
    ensures bucket + 1 < TWO_POW_64
    ensures framesSeen * MICROS < TWO_POW_64 * TWO_POW_64
    ensures (bucket + 1) * sampleRate < TWO_POW_64 * TWO_POW_64
    ensures (bucket + 1) * sampleRate * interval < TWO_POW_64 * TWO_POW_64
  {
    var d, p := sampleRate * interval, bucket * (sampleRate * interval);
    BoundaryBounds(bucket, d, framesSeen - 1);
    RateTimesInterval(sampleRate, interval);
    Distribute(bucket, sampleRate, interval);
    RateTimesInterval(sampleRate, bucket + 1);
    assert (bucket + 1) * sampleRate == sampleRate * (bucket + 1);
  }

  lemma BoundaryBounds(bucket: nat, d: nat, n: nat)
    requires Boundary(bucket, d) <= n
    ensures bucket <= n && bucket * d <= n * MICROS
  {
    CeilIsLeast(bucket * d, n);
  }

  lemma RateTimesInterval(sampleRate: nat, factor: nat)
    requires sampleRate < 0x1_0000_0000 && factor < TWO_POW_64
    ensures sampleRate * factor <= 0x1_0000_0000 * TWO_POW_64
  {
    ProductMonotone(sampleRate, 0x1_0000_0000, factor);
  }

  lemma Distribute(a: nat, b: nat, c: nat)
    ensures (a + 1) * b * c == a * (b * c) + b * c
  {
    assert (a + 1) * b == a * b + b;
    assert (a * b + b) * c == a * b * c + b * c;
    assert a * b * c == a * (b * c);
  }

  lemma ProductMonotone(a: nat, b: nat, c: nat)
    requires a <= b
    ensures a * c <= b * c
  {
  }
}

/** The minimum and maximum of each bucket, the coarser levels built from them, and the streaming accumulator. */
module Waveform {
  import opened Common
  import opened WaveformBuckets

  type i8 = x: int | -128 <= x < 128

  // ---------------------------------------------------------------------------------------------
  // Extremes of a stretch of frames
  // ---------------------------------------------------------------------------------------------

  function MinOf(s: seq<i8>): i8
    requires s != []
  {
    if |s| == 1 then s[0] else Min(s[0], MinOf(s[1..]))
  }

  function MaxOf(s: seq<i8>): i8
    requires s != []
  {
    if |s| == 1 then s[0] else Max(s[0], MaxOf(s[1..]))
  }

  lemma {:induction false} ExtremesAreAttainedBounds(s: seq<i8>)
    requires s != []
    ensures MinOf(s) in s && MaxOf(s) in s
    ensures forall i :: 0 <= i < |s| ==> MinOf(s) <= s[i] <= MaxOf(s)
  {
    if |s| > 1 {
      ExtremesAreAttainedBounds(s[1..]);
      assert forall i :: 0 < i < |s| ==> s[i] == s[1..][i - 1];
    }
  }

  lemma {:induction false} ExtremesOfConcat(a: seq<i8>, b: seq<i8>)
    requires a != [] && b != []
    ensures MinOf(a + b) == Min(MinOf(a), MinOf(b)) && MaxOf(a + b) == Max(MaxOf(a), MaxOf(b))
  {
    if |a| == 1 {
      assert (a + b)[1..] == b;
    } else {
      ExtremesOfConcat(a[1..], b);
      assert (a + b)[1..] == a[1..] + b;
    }
  }

  /** The frames of bucket `k`; the last bucket is cut at the end of the input. */
  function BucketFrames(peaks: seq<i8>, d: nat, k: nat): (frames: seq<i8>)
    requires Boundary(k, d) < |peaks|
    ensures frames != []
  {
    BoundaryIncreases(k, d);
    peaks[Boundary(k, d)..Min(Boundary(k + 1, d), |peaks|)]
  }

  /** The minimum and maximum of each of the first `count` buckets, interleaved. */
  function BasePeaks(peaks: seq<i8>, d: nat, count: nat): (base: seq<i8>)
    requires count == 0 || Boundary(count - 1, d) < |peaks|
    ensures |base| == 2 * count
  {
    if count == 0 then []
    else
      BoundaryMonotone(0, count - 1, d);
      BoundaryMonotone(if count >= 2 then count - 2 else 0, count - 1, d);
      var frames := BucketFrames(peaks, d, count - 1);
      BasePeaks(peaks, d, count - 1) + [MinOf(frames), MaxOf(frames)]
  }

  /** The number of buckets that hold at least one of `n` frames. */
  function BucketCount(n: nat, d: nat): (count: nat)
    ensures count == 0 || Boundary(count - 1, d) < n
    ensures n <= Boundary(count, d)
  {
    var completed := CompletedBuckets(n, d);
    CompletedBucketsHold(n, d);
    if completed > 0 then
      BoundaryIncreases(completed - 1, d);
      if Boundary(completed, d) < n then completed + 1 else completed
    else if Boundary(completed, d) < n then completed + 1 else completed
  }

  /** Entry `k` of the base level holds the extremes of exactly the frames of bucket `k`. */
  lemma {:induction false} BasePeakAt(peaks: seq<i8>, d: nat, count: nat, k: nat)
    requires k < count && Boundary(count - 1, d) < |peaks|
    ensures Boundary(k, d) < |peaks|
    ensures BasePeaks(peaks, d, count)[2 * k] == MinOf(BucketFrames(peaks, d, k))
    ensures BasePeaks(peaks, d, count)[2 * k + 1] == MaxOf(BucketFrames(peaks, d, k))
  {
    hide Boundary, BucketFrames, MinOf, MaxOf;
    BoundaryMonotone(k, count - 1, d);
    if k < count - 1 {
      BoundaryMonotone(count - 2, count - 1, d);
      BasePeakAt(peaks, d, count - 1, k);
    }
  }

  lemma LastBasePeak(peaks: seq<i8>, d: nat, count: nat)
    requires 0 < count && Boundary(count - 1, d) < |peaks|
    ensures count - 1 == 0 || Boundary(count - 2, d) < |peaks|
    ensures var frames := BucketFrames(peaks, d, count - 1);
            BasePeaks(peaks, d, count) == BasePeaks(peaks, d, count - 1) + [MinOf(frames), MaxOf(frames)]
  {
    BoundaryMonotone(if count >= 2 then count - 2 else 0, count - 1, d);
    hide Boundary, BucketFrames, MinOf, MaxOf;
  }

  lemma CompleteBucketStays(peaks: seq<i8>, more: seq<i8>, d: nat, k: nat)
    requires Boundary(k + 1, d) <= |peaks|
    ensures Boundary(k, d) < |peaks|
    ensures BucketFrames(peaks + more, d, k) == BucketFrames(peaks, d, k)
  {
    BoundaryIncreases(k, d);
    var first, end := Boundary(k, d), Boundary(k + 1, d);
    assert (peaks + more)[first..end] == peaks[first..end];
  }

  /** Buckets that are complete do not change when more frames arrive. */
  lemma {:induction false} CompleteBucketsStay(peaks: seq<i8>, more: seq<i8>, d: nat, count: nat)
    requires Boundary(count, d) <= |peaks|
    ensures count == 0 || Boundary(count - 1, d) < |peaks|
    ensures BasePeaks(peaks + more, d, count) == BasePeaks(peaks, d, count)
  {
    if count > 0 {
      CompleteBucketsStay(peaks, more, d, count - 1);
      CompleteBucketStays(peaks, more, d, count - 1);
      LastBasePeak(peaks, d, count);
      LastBasePeak(peaks + more, d, count);
      hide *;
    }
  }

  // ---------------------------------------------------------------------------------------------
  // Coarser levels
  // ---------------------------------------------------------------------------------------------

  /** The smallest of the minimums (even positions) of interleaved pairs. */
  function LowOf(pairs: seq<i8>): i8 {
    if |pairs| < 2 then 127 else Min(pairs[0], LowOf(pairs[2..]))
  }

  /** The largest of the maximums (odd positions) of interleaved pairs. */
  function HighOf(pairs: seq<i8>): i8 {
    if |pairs| < 2 then -128 else Max(pairs[1], HighOf(pairs[2..]))
  }

  /** One pair for each group of `factor` pairs; the last group may be smaller. */
  function Aggregate(base: seq<i8>, factor: nat): (level: seq<i8>)
    requires 0 < factor
    ensures |level| % 2 == 0
  {
    if base == [] then []
    else
      var size := Min(2 * factor, |base|);
      [LowOf(base[..size]), HighOf(base[..size])] + Aggregate(base[size..], factor)
  }

  /** The loop over the pairs of one group. */
  method PairExtremes(pairs: seq<i8>) returns (minimum: i8, maximum: i8)
    requires |pairs| % 2 == 0
    ensures minimum == LowOf(pairs) && maximum == HighOf(pairs)
  {
    minimum, maximum := 127, -128;
    var i := 0;
    while i < |pairs|
      invariant i <= |pairs| && i % 2 == 0
      invariant Min(minimum, LowOf(pairs[i..])) == LowOf(pairs)
      invariant Max(maximum, HighOf(pairs[i..])) == HighOf(pairs)
    {
      assert pairs[i..][2..] == pairs[i + 2..];
      minimum := Min(minimum, pairs[i]);
      maximum := Max(maximum, pairs[i + 1]);
      i := i + 2;
    }
  }

  lemma EmptyAggregate(base: seq<i8>, factor: nat)
    requires 0 < factor
    ensures Aggregate([], factor) == [] && [] + Aggregate(base, factor) == Aggregate(base, factor)
  {
  }

  lemma AggregateGroup(output: seq<i8>, rest: seq<i8>, factor: nat)
    requires 0 < factor && rest != []
    ensures var size := Min(factor * 2, |rest|);
            output + Aggregate(rest, factor) ==
            (output + [LowOf(rest[..size]), HighOf(rest[..size])]) + Aggregate(rest[size..], factor)
  {
    var size := Min(factor * 2, |rest|);
    AggregateUnfolds(rest, factor, size);
    hide LowOf, HighOf, Aggregate;
  }

  lemma GroupIsEven(length: nat, factor: nat)
    requires length % 2 == 0
    ensures var size := Min(factor * 2, length); size % 2 == 0 && (length - size) % 2 == 0
  {
    if factor * 2 < length {
      EvenDifference(length, factor);
    }
  }

  lemma EvenDifference(length: nat, half: nat)
    requires length % 2 == 0
    ensures half * 2 % 2 == 0 && (length - half * 2) % 2 == 0
  {
    assert length - half * 2 == (length / 2 - half) * 2;
  }

  lemma AggregateUnfolds(rest: seq<i8>, factor: nat, size: nat)
    requires 0 < factor && rest != [] && size == Min(factor * 2, |rest|)
    ensures Aggregate(rest, factor) == [LowOf(rest[..size]), HighOf(rest[..size])] + Aggregate(rest[size..], factor)
  {
  }

  method AggregateWaveform(base: seq<i8>, factor: nat) returns (output: seq<i8>)
    requires 0 < factor && |base| % 2 == 0
    ensures output == Aggregate(base, factor)
  {
    if factor == 1 {
      AggregateByOne(base);
      return base;
    }
    hide Aggregate, LowOf, HighOf;
    output := [];
    EmptyAggregate(base, factor);
    var rest := base;
    while rest != []
      invariant |rest| % 2 == 0
      invariant output + Aggregate(rest, factor) == Aggregate(base, factor)
      decreases |rest|
    {
      var size := Min(factor * 2, |rest|);
      var pairs := rest[..size];
      AggregateGroup(output, rest, factor);
      GroupIsEven(|rest|, factor);
      var minimum, maximum := PairExtremes(pairs);
      output := output + [minimum, maximum];
      rest := rest[size..];
    }
    assert output + [] == output;
  }

  lemma OnePair(low: i8, high: i8)
    ensures LowOf([low, high]) == low && HighOf([low, high]) == high
  {
    assert |[low, high][2..]| == 0;
  }

  lemma {:induction false} AggregateByOne(base: seq<i8>)
    requires |base| % 2 == 0
    ensures Aggregate(base, 1) == base
    decreases |base|
  {
    if base != [] {
      AggregateByOne(base[2..]);
      AggregateFirstGroup(base, 1);
      OnePair(base[0], base[1]);
      hide Aggregate, LowOf, HighOf;
      assert base[..2] == [base[0], base[1]];
      assert base == [base[0], base[1]] + base[2..];
    }
  }

  /** The extremes of a level are those of its base. */
  lemma {:induction false} AggregateKeepsExtremes(base: seq<i8>, factor: nat)
    requires 0 < factor && |base| % 2 == 0
    ensures LowOf(Aggregate(base, factor)) == LowOf(base) && HighOf(Aggregate(base, factor)) == HighOf(base)
    decreases |base|
  {
    if base != [] {
      var size := Min(2 * factor, |base|);
      AggregateKeepsExtremes(base[size..], factor);
      var level := Aggregate(base, factor);
      assert level[2..] == Aggregate(base[size..], factor);
      ExtremesOfPairs(base[..size], base[size..]);
      assert base == base[..size] + base[size..];
    }
  }

  lemma {:induction false} ExtremesOfPairs(a: seq<i8>, b: seq<i8>)
    requires |a| % 2 == 0
    ensures LowOf(a + b) == Min(LowOf(a), LowOf(b)) && HighOf(a + b) == Max(HighOf(a), HighOf(b))
    decreases |a|
  {
    if a == [] {
      assert a + b == b;
    } else {
      ExtremesOfPairs(a[2..], b);
      assert (a + b)[2..] == a[2..] + b;
    }
  }

  /** A prefix of whole groups aggregates on its own. */
  lemma {:induction false} AggregateSplit(a: seq<i8>, b: seq<i8>, factor: nat, size: nat, groups: nat)
    requires 0 < factor && size == 2 * factor && |a| == size * groups
    ensures Aggregate(a + b, factor) == Aggregate(a, factor) + Aggregate(b, factor)
    ensures |Aggregate(a, factor)| == 2 * groups
    decreases groups
  {
    hide Aggregate, LowOf, HighOf;
    if groups == 0 {
      EmptyAggregate(b, factor);
      assert a == [] && a + b == b;
    } else {
      OneGroupFewer(size, groups);
      AggregateSplit(a[size..], b, factor, size, groups - 1);
      SliceOfConcat(a, b, size);
      AggregateFirstGroup(a, factor);
      AggregateFirstGroup(a + b, factor);
    }
  }

  lemma SliceOfConcat(a: seq<i8>, b: seq<i8>, n: nat)
    requires n <= |a|
    ensures (a + b)[..n] == a[..n] && (a + b)[n..] == a[n..] + b
  {
  }

  lemma AggregateFirstGroup(base: seq<i8>, factor: nat)
    requires 0 < factor && 2 * factor <= |base|
    ensures var size := 2 * factor;
            Aggregate(base, factor) == [LowOf(base[..size]), HighOf(base[..size])] + Aggregate(base[size..], factor)
  {
  }

  lemma OneGroupFewer(size: nat, groups: nat)
    requires 0 < groups
    ensures size * groups == size + size * (groups - 1) >= size
  {
  }

  lemma {:induction false} AggregateLength(base: seq<i8>, factor: nat, groups: nat)
    requires 0 < factor && |base| % 2 == 0 && |base| <= (2 * factor) * groups
    ensures |Aggregate(base, factor)| <= 2 * groups
    decreases groups
  {
    if base != [] {
      OneGroupFewer(2 * factor, groups);
      AggregateLength(base[Min(2 * factor, |base|)..], factor, groups - 1);
    }
  }

  /** Aggregating by `f` and the result by `g` is aggregating by `f * g`. */
  lemma AggregateTwice(base: seq<i8>, f: nat, g: nat)
    requires 0 < f && 0 < g && 0 < f * g && |base| % 2 == 0
    ensures Aggregate(Aggregate(base, f), g) == Aggregate(base, f * g)
  {
    hide *;
    assert 2 * (f * g) == (2 * f) * g;
    AggregateByProduct(base, f, g, f * g);
  }

  /** `product` is `f * g`, kept apart from the factors. */
  lemma {:induction false} AggregateByProduct(base: seq<i8>, f: nat, g: nat, product: nat)
    requires 0 < f && 0 < g && 0 < product && 2 * product == (2 * f) * g && |base| % 2 == 0
    ensures Aggregate(Aggregate(base, f), g) == Aggregate(base, product)
    decreases |base|
  {
    hide *;
    if base == [] {
      EmptyAggregate(base, f);
      EmptyAggregate(base, g);
      EmptyAggregate(base, product);
    } else if |base| <= 2 * product {
      OneGroupTwice(base, f, g, product);
    } else {
      var front, rest := base[..2 * product], base[2 * product..];
      assert base == front + rest;
      AggregateByProduct(rest, f, g, product);
      AggregateKeepsExtremes(front, f);
      AggregateSplit(front, rest, f, 2 * f, g);
      FirstGroupTwice(front, rest, f, g, product);
    }
  }

  /** One entry is left when the second factor covers every entry of the first level. */
  lemma OneGroupTwice(base: seq<i8>, f: nat, g: nat, product: nat)
    requires 0 < f && 0 < g && base != [] && |base| % 2 == 0 && |base| <= (2 * f) * g == 2 * product
    ensures Aggregate(Aggregate(base, f), g) == Aggregate(base, product)
  {
    hide *;
    AggregateKeepsExtremes(base, f);
    AggregateLength(base, f, g);
    LastGroup(Aggregate(base, f), g);
    LastGroup(base, product);
    AggregateIsNotEmpty(base, f);
  }

  lemma AggregateIsNotEmpty(base: seq<i8>, factor: nat)
    requires 0 < factor && base != []
    ensures Aggregate(base, factor) != []
  {
  }

  lemma LastGroup(base: seq<i8>, factor: nat)
    requires 0 < factor && |base| <= 2 * factor
    ensures base != [] ==> Aggregate(base, factor) == [LowOf(base), HighOf(base)]
  {
    assert base[..|base|] == base && |base[|base|..]| == 0;
  }

  /** The first entry of the second level covers the first `product` pairs. */
  lemma FirstGroupTwice(front: seq<i8>, rest: seq<i8>, f: nat, g: nat, product: nat)
    requires 0 < f && 0 < g && 0 < product && |front| == 2 * product
    requires Aggregate(front + rest, f) == Aggregate(front, f) + Aggregate(rest, f)
    requires |Aggregate(front, f)| == 2 * g
    requires LowOf(Aggregate(front, f)) == LowOf(front) && HighOf(Aggregate(front, f)) == HighOf(front)
    requires Aggregate(Aggregate(rest, f), g) == Aggregate(rest, product)
    ensures Aggregate(Aggregate(front + rest, f), g) == Aggregate(front + rest, product)
  {
    hide *;
    AggregateOfJoin(front, rest, product);
    AggregateOfJoin(Aggregate(front, f), Aggregate(rest, f), g);
  }

  lemma AggregateOfJoin(group: seq<i8>, rest: seq<i8>, factor: nat)
    requires 0 < factor && |group| == 2 * factor
    ensures Aggregate(group + rest, factor) == [LowOf(group), HighOf(group)] + Aggregate(rest, factor)
  {
    hide LowOf, HighOf;
    AggregateFirstGroup(group + rest, factor);
    SliceOfConcat(group, rest, |group|);
    hide Aggregate;
    assert group[..|group|] == group && [] + rest == rest && group[|group|..] == [];
  }

  // ---------------------------------------------------------------------------------------------
  // What a level says about the frames
  // ---------------------------------------------------------------------------------------------

  /** The frames from the start of bucket `i` to the end of bucket `j - 1`. */
  function FramesOfBuckets(peaks: seq<i8>, d: nat, i: nat, j: nat): (frames: seq<i8>)
    requires i < j && Boundary(i, d) < |peaks|
    ensures frames != []
  {
    BoundaryMonotone(i, j, d);
    peaks[Boundary(i, d)..Min(Boundary(j, d), |peaks|)]
  }

  lemma FramesOfBucketsSplit(peaks: seq<i8>, d: nat, i: nat, j: nat)
    requires i + 1 < j && Boundary(i + 1, d) < |peaks|
    ensures Boundary(i, d) < |peaks|
    ensures FramesOfBuckets(peaks, d, i, j) == BucketFrames(peaks, d, i) + FramesOfBuckets(peaks, d, i + 1, j)
  {
    BoundaryMonotone(i, i + 1, d);
    BoundaryMonotone(i + 1, j, d);
  }

  /** The first pair of a run of pairs, and the rest of them. */
  lemma ExtremesOfEntries(base: seq<i8>, i: nat, j: nat)
    requires i < j && 2 * j <= |base|
    ensures LowOf(base[2 * i..2 * j]) == Min(base[2 * i], LowOf(base[2 * (i + 1)..2 * j]))
    ensures HighOf(base[2 * i..2 * j]) == Max(base[2 * i + 1], HighOf(base[2 * (i + 1)..2 * j]))
    ensures i + 1 == j ==> LowOf(base[2 * (i + 1)..2 * j]) == 127 && HighOf(base[2 * (i + 1)..2 * j]) == -128
  {
    var entries := base[2 * i..2 * j];
    assert entries[0] == base[2 * i] && entries[1] == base[2 * i + 1];
    assert entries[2..] == base[2 * (i + 1)..2 * j];
  }

  /** The extremes of a run of base entries are those of the frames their buckets cover. */
  lemma {:induction false} ExtremesOfBuckets(peaks: seq<i8>, d: nat, count: nat, i: nat, j: nat)
    requires i < j <= count && Boundary(count - 1, d) < |peaks|
    ensures Boundary(i, d) < |peaks|
    ensures var entries := BasePeaks(peaks, d, count)[2 * i..2 * j];
            var frames := FramesOfBuckets(peaks, d, i, j);
            LowOf(entries) == MinOf(frames) && HighOf(entries) == MaxOf(frames)
    decreases j - i
  {
    var base := BasePeaks(peaks, d, count);
    BasePeakAt(peaks, d, count, i);
    ExtremesOfEntries(base, i, j);
    if i + 1 < j {
      ExtremesOfBuckets(peaks, d, count, i + 1, j);
      FramesOfBucketsSplit(peaks, d, i, j);
      ExtremesOfConcat(BucketFrames(peaks, d, i), FramesOfBuckets(peaks, d, i + 1, j));
      hide *;
    } else {
      hide BasePeaks, MinOf, MaxOf, LowOf, HighOf, Boundary;
    }
  }

  /** Entry `k` of an aggregate summarizes group `k` of its base; `i` and `j` delimit that group, in pairs. */
  /** The first entry of an aggregate, whether its group is full or not. */
  lemma FirstEntry(base: seq<i8>, factor: nat)
    requires 0 < factor && base != [] && |base| % 2 == 0
    ensures var group := base[..Min(2 * factor, |base|)];
            && |Aggregate(base, factor)| >= 2
            && Aggregate(base, factor)[0] == LowOf(group) && Aggregate(base, factor)[1] == HighOf(group)
  {
    if |base| <= 2 * factor {
      assert base[..|base|] == base;
    } else {
      AggregateFirstGroup(base, factor);
    }
    hide LowOf, HighOf;
  }

  /** Where group k of a base is cut out. */
  lemma CutGroup(base: seq<i8>, factor: nat, i: nat, j: nat)
    requires 0 < factor && 2 * i < |base| && |base| % 2 == 0 && j == Min(i + factor, |base| / 2)
    ensures i <= j && 2 * j <= |base| && base == base[..2 * i] + base[2 * i..] && base[2 * i..] != []
    ensures base[2 * i..2 * j] == base[2 * i..][..Min(2 * factor, |base[2 * i..]|)]
  {
  }

  lemma LevelEntry(base: seq<i8>, factor: nat, k: nat, i: nat, j: nat)
    requires 0 < factor && i == k * factor && 2 * i < |base| && |base| % 2 == 0
    requires j == Min(i + factor, |base| / 2)
    ensures 2 * k + 1 < |Aggregate(base, factor)|
    ensures Aggregate(base, factor)[2 * k] == LowOf(base[2 * i..2 * j])
    ensures Aggregate(base, factor)[2 * k + 1] == HighOf(base[2 * i..2 * j])
  {
    hide *;
    CutGroup(base, factor, i, j);
    var front, rest := base[..2 * i], base[2 * i..];
    assert |front| == (2 * factor) * k && |rest| % 2 == 0;
    AggregateSplit(front, rest, factor, 2 * factor, k);
    FirstEntry(rest, factor);
  }

  /** In the level of a given factor, entry `k` holds exactly the extremes of `factor` consecutive buckets of frames. */
  lemma LevelCoversFrames(peaks: seq<i8>, d: nat, factor: nat, k: nat)
    requires 0 < factor && k * factor < BucketCount(|peaks|, d)
    ensures var level := Aggregate(BasePeaks(peaks, d, BucketCount(|peaks|, d)), factor);
            var i := k * factor;
            && 2 * k + 1 < |level|
            && Boundary(i, d) < |peaks|
            && level[2 * k] == MinOf(FramesOfBuckets(peaks, d, i, i + factor))
            && level[2 * k + 1] == MaxOf(FramesOfBuckets(peaks, d, i, i + factor))
  {
    hide Aggregate, BasePeaks, MinOf, MaxOf, LowOf, HighOf, CompletedBuckets, CeilMicros;
    var count, i := BucketCount(|peaks|, d), k * factor;
    var j := Min(i + factor, count);
    LevelEntry(BasePeaks(peaks, d, count), factor, k, i, j);
    ExtremesOfBuckets(peaks, d, count, i, j);
    assert FramesOfBuckets(peaks, d, i, j) == FramesOfBuckets(peaks, d, i, i + factor) by {
      BoundaryMonotone(j, i + factor, d);
    }
  }

  // ---------------------------------------------------------------------------------------------
  // The streaming accumulator
  // ---------------------------------------------------------------------------------------------

  datatype WaveformSpec = WaveformSpec(baseIntervalMicros: nat, levelFactors: seq<nat>)

  datatype WaveformLevel = WaveformLevel(factor: nat, intervalMicros: nat, byteOffset: nat, byteLength: nat)

  datatype EncodedWaveform = EncodedWaveform(bytes: Bytes, levels: seq<WaveformLevel>)

  datatype WaveformError =
    | IntervalIsZero | FactorsMustStartWithOne | FactorsMustIncrease | IntervalTooLarge
    | IncompleteFrame | AlreadyFinished

  predicate ValidSpec(spec: WaveformSpec) {
    var factors := spec.levelFactors;
    && 0 < spec.baseIntervalMicros
    && factors != [] && factors[0] == 1
    && (forall i, j :: 0 <= i < j < |factors| ==> factors[i] < factors[j])
    && (forall i :: 0 <= i < |factors| ==> spec.baseIntervalMicros * factors[i] < TWO_POW_64)
  }

  method ValidateWaveformSpec(spec: WaveformSpec) returns (r: Result<(), WaveformError>)
    ensures r.Ok? <==> ValidSpec(spec)
  {
    if spec.baseIntervalMicros == 0 {
      return Err(IntervalIsZero);
    }
    var factors := spec.levelFactors;
    if factors == [] || factors[0] != 1 {
      return Err(FactorsMustStartWithOne);
    }
    var previous := 0;
    var i := 0;
    while i < |factors|
      invariant i <= |factors|
      invariant previous == if i == 0 then 0 else factors[i - 1]
      invariant forall j, k :: 0 <= j < k < i ==> factors[j] < factors[k]
      invariant forall j :: 0 <= j < i ==> 0 < factors[j] <= previous
      invariant forall j :: 0 <= j < i ==> spec.baseIntervalMicros * factors[j] < TWO_POW_64
    {
      if factors[i] <= previous {
        return Err(FactorsMustIncrease);
      }
      if spec.baseIntervalMicros * factors[i] >= TWO_POW_64 {
        return Err(IntervalTooLarge);
      }
      previous := factors[i];
      i := i + 1;
    }
    return Ok(());
  }

  /** Each factor need only pass the one before it, and only the last interval can be too large. */
  lemma {:induction false} FactorsIncreaseStepwise(factors: seq<nat>, i: nat, j: nat)
    requires i < j < |factors| && forall k :: 0 < k < |factors| ==> factors[k - 1] < factors[k]
    ensures factors[i] < factors[j]
  {
    if i + 1 < j {
      FactorsIncreaseStepwise(factors, i, j - 1);
    }
  }

  lemma ValidIffStepwise(spec: WaveformSpec)
    ensures var factors := spec.levelFactors;
            ValidSpec(spec) <==>
              && 0 < spec.baseIntervalMicros && 0 < |factors| && factors[0] == 1
              && (forall k :: 0 < k < |factors| ==> factors[k - 1] < factors[k])
              && spec.baseIntervalMicros * factors[|factors| - 1] < TWO_POW_64
  {
    var factors, base := spec.levelFactors, spec.baseIntervalMicros;
    if 0 < |factors| && (forall k :: 0 < k < |factors| ==> factors[k - 1] < factors[k]) {
      forall i, j | 0 <= i < j < |factors|
        ensures factors[i] < factors[j]
      {
        FactorsIncreaseStepwise(factors, i, j);
      }
      forall i | 0 <= i < |factors|
        ensures base * factors[i] <= base * factors[|factors| - 1]
      {
        ProductMonotone(factors[i], factors[|factors| - 1], base);
        assert base * factors[i] == factors[i] * base;
      }
    }
  }

  /** The value a reader of the bytes gets back. */
  function FromByte(b: byte): i8 {
    if b < 128 then b else b - 256
  }

  lemma ByteRoundTrip(x: i8)
    ensures FromByte(AsByte(x)) == x
  {
  }

  /** The two's complement byte of a signed one. */
  function AsByte(x: i8): byte {
    x % 256
  }

  function AsBytes(s: seq<i8>): (bytes: Bytes)
    ensures |bytes| == |s|
  {
    seq(|s|, i requires 0 <= i < |s| => AsByte(s[i]))
  }

  /** The fields of an accumulator. */
  datatype Progress = Progress(
    framesSeen: nat, bucketIndex: nat, currentMin: i8, currentMax: i8, hasCurrent: bool, basePeaks: seq<i8>)

  /** The current extremes are those of the frames of the bucket being filled. */
  ghost predicate HoldsCurrent(p: Progress, seen: seq<i8>, d: nat) {
    && p.framesSeen == |seen|
    && Boundary(p.bucketIndex, d) < |seen|
    && p.hasCurrent
    && p.currentMin == MinOf(seen[Boundary(p.bucketIndex, d)..])
    && p.currentMax == MaxOf(seen[Boundary(p.bucketIndex, d)..])
  }

  /** The base level holds the complete buckets, and no others. */
  ghost predicate HoldsComplete(p: Progress, seen: seq<i8>, d: nat) {
    && Boundary(p.bucketIndex, d) <= |seen|
    && (p.bucketIndex == 0 || Boundary(p.bucketIndex - 1, d) < |seen|)
    && p.basePeaks == BasePeaks(seen, d, p.bucketIndex)
  }

  /** Everything but leftover extremes is a function of the frames seen. */
  ghost predicate Tracks(p: Progress, seen: seq<i8>, d: nat) {
    && p.framesSeen == |seen| < Boundary(p.bucketIndex + 1, d)
    && HoldsComplete(p, seen, d)
    && (p.hasCurrent <==> Boundary(p.bucketIndex, d) < |seen|)
    && (p.hasCurrent ==> HoldsCurrent(p, seen, d))
  }

  /** Two accumulators that saw the same frames agree, however the frames reached them. */
  lemma ProgressIsDetermined(p: Progress, q: Progress, seen: seq<i8>, d: nat)
    requires Tracks(p, seen, d) && Tracks(q, seen, d)
    ensures p.framesSeen == q.framesSeen && p.bucketIndex == q.bucketIndex && p.basePeaks == q.basePeaks
    ensures p.hasCurrent == q.hasCurrent
    ensures p.hasCurrent ==> p == q
  {
    hide Boundary, CompletedBuckets, BasePeaks, MinOf, MaxOf;
    CompletedBucketsExactly(|seen|, p.bucketIndex, d);
    CompletedBucketsExactly(|seen|, q.bucketIndex, d);
  }

  /** Folding one more frame into the current extremes. */
  lemma FoldFrame(p: Progress, seen: seq<i8>, d: nat, peak: i8)
    requires Tracks(p, seen, d)
    ensures HoldsComplete(AfterFold(p, peak), seen + [peak], d)
    ensures HoldsCurrent(AfterFold(p, peak), seen + [peak], d)
  {
    var first := Boundary(p.bucketIndex, d);
    CompleteBucketsStay(seen, [peak], d, p.bucketIndex);
    assert (seen + [peak])[first..] == seen[first..] + [peak];
    if p.hasCurrent {
      ExtremesOfConcat(seen[first..], [peak]);
    } else {
      assert seen[first..] + [peak] == [peak];
    }
  }

  /** Closing a bucket whose frames all arrived. */
  lemma CloseBucket(p: Progress, seen: seq<i8>, d: nat)
    requires HoldsComplete(p, seen, d) && HoldsCurrent(p, seen, d) && |seen| <= Boundary(p.bucketIndex + 1, d)
    ensures p.basePeaks + [p.currentMin] + [p.currentMax] == BasePeaks(seen, d, p.bucketIndex + 1)
  {
    BoundaryIncreases(p.bucketIndex, d);
    assert BucketFrames(seen, d, p.bucketIndex) == seen[Boundary(p.bucketIndex, d)..];
  }

  function AfterFold(p: Progress, peak: i8): Progress {
    if p.hasCurrent then
      p.(framesSeen := p.framesSeen + 1, currentMin := Min(p.currentMin, peak), currentMax := Max(p.currentMax, peak))
    else
      p.(framesSeen := p.framesSeen + 1, currentMin := peak, currentMax := peak, hasCurrent := true)
  }

  function AfterFlush(p: Progress): Progress {
    if !p.hasCurrent then p
    else p.(basePeaks := p.basePeaks + [p.currentMin] + [p.currentMax], bucketIndex := p.bucketIndex + 1,
            hasCurrent := false)
  }

  function AfterObserve(p: Progress, d: nat, peak: i8): Progress {
    var folded := AfterFold(p, peak);
    if ReachesEnd(folded.framesSeen, folded.bucketIndex, d) then AfterFlush(folded) else folded
  }

  /** Observing a frame keeps every field what the frames seen say it is. */
  lemma ObserveKeepsTrack(p: Progress, seen: seq<i8>, d: nat, peak: i8)
    requires Tracks(p, seen, d)
    ensures Tracks(AfterObserve(p, d, peak), seen + [peak], d)
  {
    hide BasePeaks, MinOf, MaxOf, ReachesEnd, CeilMicros;
    var folded := AfterFold(p, peak);
    FoldFrame(p, seen, d, peak);
    AdvanceExactly(|seen|, p.bucketIndex, d);
    if ReachesEnd(folded.framesSeen, folded.bucketIndex, d) {
      CloseBucket(folded, seen + [peak], d);
    }
  }

  /** Closing the last bucket leaves the peaks of all frames seen. */
  lemma FlushedBase(p: Progress, seen: seq<i8>, d: nat)
    requires Tracks(p, seen, d)
    ensures var base := AfterFlush(p).basePeaks;
            base == BasePeaks(seen, d, BucketCount(|seen|, d)) && |base| % 2 == 0
  {
    hide Boundary, CompletedBuckets, BasePeaks, MinOf, MaxOf;
    CompletedBucketsExactly(|seen|, p.bucketIndex, d);
    if p.hasCurrent {
      CloseBucket(p, seen, d);
    }
  }

  class WaveformAccumulator {
    const sampleRate: nat
    const intervalMicros: nat
    var framesSeen: nat
    var bucketIndex: nat
    var currentMin: i8
    var currentMax: i8
    var hasCurrent: bool
    var basePeaks: seq<i8>
    /** The peak of every frame observed so far. */
    ghost var seen: seq<i8>

    ghost const d: nat := sampleRate * intervalMicros

    ghost function Snapshot(): Progress
      reads this
    {
      Progress(framesSeen, bucketIndex, currentMin, currentMax, hasCurrent, basePeaks)
    }

    ghost predicate Valid()
      reads this
    {
      Tracks(Snapshot(), seen, d)
    }

    constructor (sampleRate: nat, intervalMicros: nat)
      ensures Valid() && seen == []
      ensures this.sampleRate == sampleRate && this.intervalMicros == intervalMicros
    {
      this.sampleRate, this.intervalMicros := sampleRate, intervalMicros;
      framesSeen, bucketIndex, currentMin, currentMax, hasCurrent := 0, 0, 0, 0, false;
      basePeaks, seen := [], [];
      new;
      assert 0 * d == 0;
      BoundaryIncreases(0, d);
    }

    method Flush()
      modifies this
      ensures seen == old(seen)
      ensures Snapshot() == AfterFlush(old(Snapshot()))
    {
      if !hasCurrent {
        return;
      }
      basePeaks := basePeaks + [currentMin];
      basePeaks := basePeaks + [currentMax];
      bucketIndex := bucketIndex + 1;
      hasCurrent := false;
    }

    method Observe(peak: i8)
      requires Valid()
      modifies this
      ensures Valid() && seen == old(seen) + [peak]
      ensures Snapshot() == AfterObserve(old(Snapshot()), d, peak)
    {
      hide Tracks;
      ObserveKeepsTrack(Snapshot(), seen, d, peak);
      if hasCurrent {
        currentMin := Min(currentMin, peak);
        currentMax := Max(currentMax, peak);
      } else {
        currentMin := peak;
        currentMax := peak;
        hasCurrent := true;
      }
      framesSeen := framesSeen + 1;
      seen := seen + [peak];
      Associate(bucketIndex + 1, sampleRate, intervalMicros);
      if framesSeen * MICROS >= (bucketIndex + 1) * sampleRate * intervalMicros {
        Flush();
      }
    }

    /** Closes the last bucket and lays the levels out one behind the other. */
    method Finish(spec: WaveformSpec) returns (r: Result<EncodedWaveform, WaveformError>)
      requires Valid()
      requires forall i :: 0 <= i < |spec.levelFactors| ==> 0 < spec.levelFactors[i]
      modifies this
      ensures r.Err? <==> exists i :: 0 <= i < |spec.levelFactors|
                                      && spec.baseIntervalMicros * spec.levelFactors[i] >= TWO_POW_64
      ensures r.Ok? ==> var base := BasePeaks(old(seen), d, BucketCount(|old(seen)|, d));
                        r.value == Layout(spec, base, |spec.levelFactors|)
    {
      FlushedBase(Snapshot(), seen, d);
      hide Tracks, AfterFlush, BasePeaks, BucketCount, Layout;
      Flush();
      r := EncodeLevels(spec, basePeaks);
    }
  }

  lemma Associate(a: nat, b: nat, c: nat)
    ensures a * b * c == a * (b * c)
  {
  }

  /** The first `count` levels and their bytes. */
  function Layout(spec: WaveformSpec, base: seq<i8>, count: nat): EncodedWaveform
    requires count <= |spec.levelFactors|
    requires forall i :: 0 <= i < |spec.levelFactors| ==> 0 < spec.levelFactors[i]
  {
    if count == 0 then EncodedWaveform([], [])
    else
      var before, factor := Layout(spec, base, count - 1), spec.levelFactors[count - 1];
      var level := AsBytes(Aggregate(base, factor));
      EncodedWaveform(before.bytes + level,
                      before.levels +
                      [WaveformLevel(factor, spec.baseIntervalMicros * factor, |before.bytes|, |level|)])
  }

  method EncodeLevels(spec: WaveformSpec, base: seq<i8>) returns (r: Result<EncodedWaveform, WaveformError>)
    requires |base| % 2 == 0
    requires forall i :: 0 <= i < |spec.levelFactors| ==> 0 < spec.levelFactors[i]
    ensures r.Err? <==> exists i :: 0 <= i < |spec.levelFactors|
                                    && spec.baseIntervalMicros * spec.levelFactors[i] >= TWO_POW_64
    ensures r.Ok? ==> r.value == Layout(spec, base, |spec.levelFactors|)
  {
    hide Aggregate, AsBytes;
    var bytes: Bytes, levels := [], [];
    var i := 0;
    while i < |spec.levelFactors|
      invariant i <= |spec.levelFactors|
      invariant forall j :: 0 <= j < i ==> spec.baseIntervalMicros * spec.levelFactors[j] < TWO_POW_64
      invariant EncodedWaveform(bytes, levels) == Layout(spec, base, i)
    {
      var factor := spec.levelFactors[i];
      var level := AggregateWaveform(base, factor);
      var byteOffset := |bytes|;
      bytes := bytes + AsBytes(level);
      var byteLength := |bytes| - byteOffset;
      if spec.baseIntervalMicros * factor >= TWO_POW_64 {
        return Err(IntervalTooLarge);
      }
      levels := levels + [WaveformLevel(factor, spec.baseIntervalMicros * factor, byteOffset, byteLength)];
      i := i + 1;
    }
    return Ok(EncodedWaveform(bytes, levels));
  }

  /** Each level's recorded range holds exactly its aggregate, and the ranges follow each other without a gap. */
  lemma {:induction false} LayoutRanges(spec: WaveformSpec, base: seq<i8>, count: nat, i: nat)
    requires i < count <= |spec.levelFactors|
    requires forall j :: 0 <= j < |spec.levelFactors| ==> 0 < spec.levelFactors[j]
    ensures var w := Layout(spec, base, count);
            && |w.levels| == count
            && w.levels[i].factor == spec.levelFactors[i]
            && w.levels[i].intervalMicros == spec.baseIntervalMicros * spec.levelFactors[i]
            && w.levels[i].byteOffset == (if i == 0 then 0 else w.levels[i - 1].byteOffset + w.levels[i - 1].byteLength)
            && w.levels[i].byteOffset + w.levels[i].byteLength <= |w.bytes|
            && (i == count - 1 ==> w.levels[i].byteOffset + w.levels[i].byteLength == |w.bytes|)
            && w.bytes[w.levels[i].byteOffset..w.levels[i].byteOffset + w.levels[i].byteLength]
               == AsBytes(Aggregate(base, spec.levelFactors[i]))
  {
    hide Aggregate, AsBytes;
    var before, w := Layout(spec, base, count - 1), Layout(spec, base, count);
    if i < count - 1 {
      LayoutRanges(spec, base, count - 1, i);
      var from, to := w.levels[i].byteOffset, w.levels[i].byteOffset + w.levels[i].byteLength;
      assert w.bytes[from..to] == before.bytes[from..to];
    } else if i > 0 {
      LayoutRanges(spec, base, count - 1, i - 1);
    }
  }

  /** A valid specification never makes `Finish` fail, whatever was observed. */
  lemma ValidSpecNeverOverflows(spec: WaveformSpec)
    requires ValidSpec(spec)
    ensures forall i :: 0 <= i < |spec.levelFactors| ==>
              0 < spec.levelFactors[i] && spec.baseIntervalMicros * spec.levelFactors[i] < TWO_POW_64
  {
    forall i | 0 <= i < |spec.levelFactors|
      ensures 0 < spec.levelFactors[i]
    {
      assert i > 0 ==> spec.levelFactors[0] < spec.levelFactors[i];
    }
  }

  // ---------------------------------------------------------------------------------------------
  // The streaming session
  // ---------------------------------------------------------------------------------------------

  /** The peak of each complete frame of `input`, in order. */
  function Peaks(input: Bytes, frameSize: nat, peakOf: Bytes -> i8): seq<i8>
    requires 0 < frameSize
  {
    if |input| < frameSize then [] else [peakOf(input[..frameSize])] + Peaks(input[frameSize..], frameSize, peakOf)
  }

  /** There is one peak for each frame of the input, and it is that frame's. */
  lemma {:induction false} PeakOfEachFrame(input: Bytes, frameSize: nat, frames: nat, k: nat, peakOf: Bytes -> i8)
    requires 0 < frameSize && |input| == frameSize * frames
    ensures |Peaks(input, frameSize, peakOf)| == frames
    ensures k < frames ==>
              && frameSize * k + frameSize <= |input|
              && Peaks(input, frameSize, peakOf)[k] == peakOf(input[frameSize * k..frameSize * k + frameSize])
    decreases frames
  {
    if frames > 0 {
      OneGroupFewer(frameSize, frames);
      var rest := input[frameSize..];
      PeakOfEachFrame(rest, frameSize, frames - 1, if k > 0 then k - 1 else 0, peakOf);
      if 0 < k < frames {
        OneGroupFewer(frameSize, k);
        var from := frameSize * (k - 1);
        assert rest[from..from + frameSize] == input[frameSize * k..frameSize * k + frameSize];
      }
    }
  }

  lemma PeaksOfFrames(input: Bytes, frameSize: nat, peakOf: Bytes -> i8)
    requires 0 < frameSize && |input| % frameSize == 0
    ensures |Peaks(input, frameSize, peakOf)| == |input| / frameSize
    ensures forall k :: 0 <= k < |input| / frameSize ==>
              IsPeakOf(Peaks(input, frameSize, peakOf), input, frameSize, k, peakOf)
  {
    var frames := |input| / frameSize;
    assert |input| == frameSize * frames;
    hide Peaks;
    forall k | 0 <= k < frames
      ensures IsPeakOf(Peaks(input, frameSize, peakOf), input, frameSize, k, peakOf)
    {
      PeakOfEachFrame(input, frameSize, frames, k, peakOf);
    }
    PeakOfEachFrame(input, frameSize, frames, 0, peakOf);
  }

  /** Entry `k` is the peak of frame `k`. */
  predicate IsPeakOf(peaks: seq<i8>, input: Bytes, frameSize: nat, k: nat, peakOf: Bytes -> i8) {
    && k < |peaks| && frameSize * k + frameSize <= |input|
    && peaks[k] == peakOf(input[frameSize * k..frameSize * k + frameSize])
  }

  /** Where the input is split does not matter, as long as no frame is cut. */
  lemma {:induction false} PeaksSplit(a: Bytes, b: Bytes, frameSize: nat, frames: nat, peakOf: Bytes -> i8)
    requires 0 < frameSize && |a| == frameSize * frames
    ensures Peaks(a + b, frameSize, peakOf) == Peaks(a, frameSize, peakOf) + Peaks(b, frameSize, peakOf)
    decreases frames
  {
    if frames == 0 {
      assert a + b == b;
    } else {
      OneGroupFewer(frameSize, frames);
      PeaksSplit(a[frameSize..], b, frameSize, frames - 1, peakOf);
      assert (a + b)[..frameSize] == a[..frameSize] && (a + b)[frameSize..] == a[frameSize..] + b;
    }
  }

  lemma FirstPeak(input: Bytes, frameSize: nat, peakOf: Bytes -> i8)
    requires 0 < frameSize <= |input|
    ensures Peaks(input, frameSize, peakOf) ==
            [peakOf(input[..frameSize])] + Peaks(input[frameSize..], frameSize, peakOf)
  {
  }

  lemma NoPeak(input: Bytes, frameSize: nat, peakOf: Bytes -> i8)
    requires |input| < frameSize
    ensures Peaks(input, frameSize, peakOf) == []
  {
  }

  class WaveformSession {
    var accumulator: WaveformAccumulator?
    const sampleRate: nat
    const spec: WaveformSpec
    const channelCount: nat
    var frameCount: nat
    /** The peak shown for one frame; the arithmetic on samples is not part of this model. */
    const peakOf: Bytes -> i8

    ghost predicate Valid()
      reads this, accumulator
    {
      && 0 < channelCount && ValidSpec(spec)
      && (accumulator != null ==>
            && accumulator.Valid() && frameCount == |accumulator.seen|
            && accumulator.d == sampleRate * spec.baseIntervalMicros)
    }

    constructor (sampleRate: nat, channelCount: nat, spec: WaveformSpec, peakOf: Bytes -> i8)
      requires 0 < channelCount && ValidSpec(spec)
      ensures Valid() && accumulator != null && fresh(accumulator) && accumulator.seen == [] && frameCount == 0
      ensures this.sampleRate == sampleRate && this.channelCount == channelCount && this.spec == spec
      ensures this.peakOf == peakOf
    {
      accumulator := new WaveformAccumulator(sampleRate, spec.baseIntervalMicros);
      this.sampleRate := sampleRate;
      this.spec, this.channelCount, this.peakOf, frameCount := spec, channelCount, peakOf, 0;
    }

    method AddPcm16(input: Bytes) returns (r: Result<(), WaveformError>)
      requires Valid()
      modifies this, accumulator
      ensures Valid() && accumulator == old(accumulator)
      ensures r == if |input| % (2 * channelCount) != 0 then Err(IncompleteFrame)
                   else if accumulator == null then Err(AlreadyFinished)
                   else Ok(())
      ensures r.Err? ==> frameCount == old(frameCount)
                         && (accumulator != null ==> accumulator.seen == old(accumulator.seen))
      ensures r.Ok? ==>
                var frames, before := |input| / (2 * channelCount), old(accumulator.seen);
                && frameCount == old(frameCount) + frames == |accumulator.seen|
                && accumulator.seen[..|before|] == before
                && forall k :: 0 <= k < frames ==>
                     IsPeakOf(accumulator.seen[|before|..], input, 2 * channelCount, k, peakOf)
    {
      hide Tracks;
      var bytesPerFrame := 2 * channelCount;
      if |input| % bytesPerFrame != 0 {
        return Err(IncompleteFrame);
      }
      if accumulator == null {
        return Err(AlreadyFinished);
      }
      PeaksOfFrames(input, bytesPerFrame, peakOf);
      hide Peaks, IsPeakOf;
      ghost var before, added := accumulator.seen, Peaks(input, bytesPerFrame, peakOf);
      ghost var all := before + added;
      var rest := input;
      while |rest| >= bytesPerFrame
        invariant Valid() && accumulator == old(accumulator)
        invariant accumulator.seen + Peaks(rest, bytesPerFrame, peakOf) == all
      {
        FirstPeak(rest, bytesPerFrame, peakOf);
        accumulator.Observe(peakOf(rest[..bytesPerFrame]));
        frameCount := frameCount + 1;
        rest := rest[bytesPerFrame..];
      }
      NoPeak(rest, bytesPerFrame, peakOf);
      assert accumulator.seen == before + added;
      assert accumulator.seen[|before|..] == added;
      return Ok(());
    }

    method Finish() returns (r: Result<EncodedWaveform, WaveformError>)
      requires Valid()
      modifies this, accumulator
      ensures Valid() && accumulator == null && frameCount == old(frameCount)
      ensures old(accumulator) == null ==> r == Err(AlreadyFinished)
      ensures old(accumulator) != null ==>
                var peaks, d := old(accumulator.seen), sampleRate * spec.baseIntervalMicros;
                var base := BasePeaks(peaks, d, BucketCount(|peaks|, d));
                (forall i :: 0 <= i < |spec.levelFactors| ==> 0 < spec.levelFactors[i])
                && r == Ok(Layout(spec, base, |spec.levelFactors|))
    {
      if accumulator == null {
        return Err(AlreadyFinished);
      }
      var finished := accumulator;
      accumulator := null;
      ValidSpecNeverOverflows(spec);
      r := finished.Finish(spec);
    }
  }
}
