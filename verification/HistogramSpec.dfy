/**
 * What a histogram keeps of a list of samples, defined from the list, and what can be read
 * back from it. Doubles are modelled as reals; bucket limits are any increasing positive
 * sequence, and BucketLimits has the table of the source.
 */
module HistogramSpec {
  import opened Wrappers

  predicate GoodLimits(limits: seq<real>) {
    && limits != [] && 0.0 < limits[0]
    && forall i, j :: 0 <= i < j < |limits| ==> limits[i] < limits[j]
  }

  datatype Summary = Summary(min: real, max: real, num: real, sum: real, sumSquares: real, buckets: seq<real>)

  // ---- a summary from its samples ----

  function Front(xs: seq<real>): seq<real>
    requires xs != []
  {
    xs[..|xs| - 1]
  }

  function Last(xs: seq<real>): real
    requires xs != []
  {
    xs[|xs| - 1]
  }

  function MinR(a: real, b: real): real { if b < a then b else a }

  function MaxR(a: real, b: real): real { if a < b then b else a }

  function MinOf(xs: seq<real>, init: real): (m: real)
    ensures forall i :: 0 <= i < |xs| ==> m <= xs[i]
  {
    if xs == [] then init else MinR(MinOf(Front(xs), init), Last(xs))
  }

  function MaxOf(xs: seq<real>, init: real): (m: real)
    ensures forall i :: 0 <= i < |xs| ==> xs[i] <= m
  {
    if xs == [] then init else MaxR(MaxOf(Front(xs), init), Last(xs))
  }

  function Sum(xs: seq<real>): real {
    if xs == [] then 0.0 else Sum(Front(xs)) + Last(xs)
  }

  function Square(x: real): real { x * x }

  function SumSquares(xs: seq<real>): real {
    if xs == [] then 0.0 else SumSquares(Front(xs)) + Square(Last(xs))
  }

  /** Bucket `b` holds the values from the limit before it up to its own; the last has no top. */
  predicate InBucket(limits: seq<real>, b: nat, v: real)
    requires b < |limits|
  {
    (b == 0 || limits[b - 1] <= v) && (b == |limits| - 1 || v < limits[b])
  }

  function CountIn(limits: seq<real>, b: nat, xs: seq<real>): nat
    requires b < |limits|
  {
    if xs == [] then 0 else CountIn(limits, b, Front(xs)) + if InBucket(limits, b, Last(xs)) then 1 else 0
  }

  function Of(limits: seq<real>, xs: seq<real>): (s: Summary)
    requires limits != []
    ensures |s.buckets| == |limits|
  {
    Summary(MinOf(xs, Last(limits)), MaxOf(xs, 0.0), |xs| as real, Sum(xs), SumSquares(xs),
            seq(|limits|, b requires 0 <= b < |limits| => CountIn(limits, b, xs) as real))
  }

  // ---- adding one sample ----

  function AddSpec(s: Summary, b: nat, v: real): Summary
    requires b < |s.buckets|
  {
    Summary(MinR(s.min, v), MaxR(s.max, v), s.num + 1.0, s.sum + v, s.sumSquares + Square(v),
            s.buckets[b := s.buckets[b] + 1.0])
  }

  lemma OneBucket(limits: seq<real>, b: nat, c: nat, v: real)
    requires GoodLimits(limits) && b < |limits| && c < |limits| && InBucket(limits, b, v)
    ensures InBucket(limits, c, v) <==> c == b
  {
  }

  /** Updating a summary for one more sample gives the summary of the longer list. */
  lemma AddIsSnoc(limits: seq<real>, xs: seq<real>, b: nat, v: real)
    requires GoodLimits(limits) && b < |limits| && InBucket(limits, b, v)
    ensures AddSpec(Of(limits, xs), b, v) == Of(limits, xs + [v])
  {
    var ys := xs + [v];
    assert Front(ys) == xs && Last(ys) == v && |ys| as real == |xs| as real + 1.0;
    forall c: nat | c < |limits|
      ensures AddSpec(Of(limits, xs), b, v).buckets[c] == Of(limits, ys).buckets[c]
    {
      OneBucket(limits, b, c, v);
    }
  }

  /** The recorded minimum is a sample exactly if some sample is not above where Clear starts. */
  lemma {:induction false} MinIsSampleIff(xs: seq<real>, init: real)
    ensures MinOf(xs, init) == init || MinOf(xs, init) in xs
    ensures MinOf(xs, init) <= init
    ensures MinOf(xs, init) in xs <==> exists i :: 0 <= i < |xs| && xs[i] <= init
  {
    if xs != [] {
      MinIsSampleIff(Front(xs), init);
      assert xs == Front(xs) + [Last(xs)] && xs[|xs| - 1] == Last(xs);
      assert forall i :: 0 <= i < |xs| - 1 ==> xs[i] == Front(xs)[i];
    }
  }

  lemma {:induction false} MaxIsSampleIff(xs: seq<real>, init: real)
    ensures MaxOf(xs, init) == init || MaxOf(xs, init) in xs
    ensures init <= MaxOf(xs, init)
    ensures MaxOf(xs, init) in xs <==> exists i :: 0 <= i < |xs| && init <= xs[i]
  {
    if xs != [] {
      MaxIsSampleIff(Front(xs), init);
      assert xs == Front(xs) + [Last(xs)] && xs[|xs| - 1] == Last(xs);
      assert forall i :: 0 <= i < |xs| - 1 ==> xs[i] == Front(xs)[i];
    }
  }

  /**
   * The recorded bounds enclose all samples, and each is itself a sample exactly if a sample
   * reaches the value that a cleared histogram starts from: the last limit, and zero.
   */
  lemma BoundsAreSamplesIff(limits: seq<real>, xs: seq<real>)
    requires limits != []
    ensures var s := Of(limits, xs);
            && (forall x :: x in xs ==> s.min <= x <= s.max)
            && (s.min in xs <==> exists i :: 0 <= i < |xs| && xs[i] <= limits[|limits| - 1])
            && (s.max in xs <==> exists i :: 0 <= i < |xs| && 0.0 <= xs[i])
            && (s.min !in xs ==> s.min == limits[|limits| - 1]) && (s.max !in xs ==> s.max == 0.0)
  {
    MinIsSampleIff(xs, Last(limits));
    MaxIsSampleIff(xs, 0.0);
  }

  // ---- merging ----

  function MergeSpec(s: Summary, t: Summary): Summary
    requires |s.buckets| == |t.buckets|
  {
    Summary(MinR(s.min, t.min), MaxR(s.max, t.max), s.num + t.num, s.sum + t.sum, s.sumSquares + t.sumSquares,
            seq(|s.buckets|, b requires 0 <= b < |s.buckets| => s.buckets[b] + t.buckets[b]))
  }

  lemma ConcatFront(xs: seq<real>, ys: seq<real>)
    requires ys != []
    ensures Front(xs + ys) == xs + Front(ys) && Last(xs + ys) == Last(ys)
  {
  }

  lemma {:induction false} MinInit(xs: seq<real>, init: real)
    ensures MinOf(xs, init) <= init
  {
    if xs != [] {
      MinInit(Front(xs), init);
    }
  }

  lemma {:induction false} MaxInit(xs: seq<real>, init: real)
    ensures init <= MaxOf(xs, init)
  {
    if xs != [] {
      MaxInit(Front(xs), init);
    }
  }

  lemma {:induction false} ConcatBounds(xs: seq<real>, ys: seq<real>, lo: real, hi: real)
    ensures MinOf(xs + ys, lo) == MinR(MinOf(xs, lo), MinOf(ys, lo))
    ensures MaxOf(xs + ys, hi) == MaxR(MaxOf(xs, hi), MaxOf(ys, hi))
    decreases |ys|
  {
    if ys == [] {
      assert xs + ys == xs;
      MinInit(xs, lo);
      MaxInit(xs, hi);
    } else {
      ConcatFront(xs, ys);
      ConcatBounds(xs, Front(ys), lo, hi);
    }
  }

  lemma {:induction false} ConcatSums(xs: seq<real>, ys: seq<real>)
    ensures Sum(xs + ys) == Sum(xs) + Sum(ys)
    ensures SumSquares(xs + ys) == SumSquares(xs) + SumSquares(ys)
    decreases |ys|
  {
    if ys == [] {
      assert xs + ys == xs;
    } else {
      ConcatFront(xs, ys);
      ConcatSums(xs, Front(ys));
    }
  }

  lemma {:induction false} ConcatCounts(limits: seq<real>, b: nat, xs: seq<real>, ys: seq<real>)
    requires b < |limits|
    ensures CountIn(limits, b, xs + ys) == CountIn(limits, b, xs) + CountIn(limits, b, ys)
    decreases |ys|
  {
    if ys == [] {
      assert xs + ys == xs;
    } else {
      ConcatFront(xs, ys);
      ConcatCounts(limits, b, xs, Front(ys));
    }
  }

  /** Merging the histograms of two lists gives, field by field, the histogram of both. */
  lemma MergeIsConcat(limits: seq<real>, xs: seq<real>, ys: seq<real>)
    requires limits != []
    ensures MergeSpec(Of(limits, xs), Of(limits, ys)) == Of(limits, xs + ys)
  {
    ConcatBounds(xs, ys, Last(limits), 0.0);
    ConcatSums(xs, ys);
    forall b: nat | b < |limits|
      ensures Of(limits, xs + ys).buckets[b] == Of(limits, xs).buckets[b] + Of(limits, ys).buckets[b]
    {
      ConcatCounts(limits, b, xs, ys);
    }
  }

  /** So merging is associative and commutative, and the cleared histogram is its identity. */
  lemma MergeLaws(limits: seq<real>, xs: seq<real>, ys: seq<real>, zs: seq<real>)
    requires limits != []
    ensures MergeSpec(MergeSpec(Of(limits, xs), Of(limits, ys)), Of(limits, zs))
         == MergeSpec(Of(limits, xs), MergeSpec(Of(limits, ys), Of(limits, zs)))
    ensures Of(limits, xs + ys) == Of(limits, ys + xs)
    ensures MergeSpec(Of(limits, xs), Of(limits, [])) == Of(limits, xs)
  {
    MergeIsConcat(limits, xs, ys);
    MergeIsConcat(limits, xs + ys, zs);
    MergeIsConcat(limits, ys, zs);
    MergeIsConcat(limits, xs, ys + zs);
    assert xs + ys + zs == xs + (ys + zs);
    MergeIsConcat(limits, ys, xs);
    assert MergeSpec(Of(limits, xs), Of(limits, ys)) == MergeSpec(Of(limits, ys), Of(limits, xs));
    MergeIsConcat(limits, xs, []);
    assert xs + [] == xs;
  }

  // ---- variance ----

  lemma CancelFactor(a: real, b: real, n: real)
    requires n != 0.0 && a * n == b * n
    ensures a == b
  {
    var inverse := 1.0 / n;
    assert n * inverse == 1.0;
    Reassociate(a, n, inverse);
    Reassociate(b, n, inverse);
  }

  lemma Reassociate(a: real, b: real, c: real)
    ensures (a * b) * c == a * (b * c)
  {
  }

  lemma SignOfQuotient(v: real, d: real)
    requires 0.0 < d && 0.0 <= v * d
    ensures 0.0 <= v && (v == 0.0 <==> v * d == 0.0)
  {
  }

  lemma MeanAbsorbs(n: real, s: real, q: real, mean: real)
    requires mean * n == s
    ensures SpreadFrom(n, s, q, mean) == q - mean * s
  {
    assert n * mean * mean == mean * (mean * n);
  }

  lemma FactorOut(q: real, mean: real, s: real, n: real)
    ensures (q - mean * s) * n == q * n - (mean * n) * s
  {
  }

  /** The code's quotient times the number is the spread around the mean. */
  lemma QuotientIsMeanSquare(n: real, s: real, q: real, v: real, mean: real)
    requires n != 0.0 && v * (n * n) == Dispersion(n, s, q) && mean * n == s
    ensures v * n == SpreadFrom(n, s, q, mean)
  {
    MeanAbsorbs(n, s, q, mean);
    Reassociate(v, n, n);
    FactorOut(q, mean, s, n);
    CancelFactor(v * n, q - mean * s, n);
  }

  /** The mean squared distance from the average, and zero for no samples. */
  ghost predicate IsVariance(xs: seq<real>, v: real) {
    if xs == [] then v == 0.0
    else forall mean :: mean * |xs| as real == Sum(xs) ==> v * |xs| as real == Spread(xs, mean)
  }

  /** The sum of the squared distances to `v`. */
  function Spread(xs: seq<real>, v: real): real {
    if xs == [] then 0.0 else Spread(Front(xs), v) + Square(Last(xs) - v)
  }

  /** What the sum of squared distances to `v` is, given the number, sum and squares. */
  function SpreadFrom(n: real, s: real, q: real, v: real): real {
    q - 2.0 * v * s + n * v * v
  }

  lemma SpreadFromStep(n: real, s: real, q: real, v: real, x: real)
    ensures SpreadFrom(n + 1.0, s + x, q + Square(x), v) == SpreadFrom(n, s, q, v) + Square(x - v)
  {
  }

  lemma {:induction false} SpreadExpands(xs: seq<real>, v: real)
    ensures Spread(xs, v) == SpreadFrom(|xs| as real, Sum(xs), SumSquares(xs), v)
  {
    if xs != [] {
      var front := Front(xs);
      SpreadExpands(front, v);
      SpreadFromStep(|front| as real, Sum(front), SumSquares(front), v, Last(xs));
      assert |xs| as real == |front| as real + 1.0;
    }
  }

  predicate AllEqual(xs: seq<real>) {
    forall i, j :: 0 <= i < |xs| && 0 <= j < |xs| ==> xs[i] == xs[j]
  }

  lemma SquareNonNegative(x: real)
    ensures 0.0 <= Square(x) && (Square(x) == 0.0 <==> x == 0.0)
  {
    if x != 0.0 {
      var inverse := 1.0 / x;
      assert x * inverse == 1.0;
      SquareTimesInverse(x, inverse);
      ZeroProduct(Square(x), inverse);
    }
  }

  lemma SquareTimesInverse(x: real, inverse: real)
    requires x * inverse == 1.0
    ensures Square(x) * inverse == x
  {
    assert x * x * inverse == x * (x * inverse);
  }

  lemma ZeroProduct(a: real, b: real)
    ensures a == 0.0 ==> a * b == 0.0
  {
  }

  lemma {:induction false} SpreadZero(xs: seq<real>, v: real)
    ensures 0.0 <= Spread(xs, v)
    ensures Spread(xs, v) == 0.0 <==> forall i :: 0 <= i < |xs| ==> xs[i] == v
  {
    if xs != [] {
      SpreadZero(Front(xs), v);
      SquareNonNegative(Last(xs) - v);
      assert forall i :: 0 <= i < |xs| - 1 ==> xs[i] == Front(xs)[i];
    }
  }

  /** The numerator of the variance. */
  function Dispersion(n: real, s: real, q: real): real {
    q * n - s * s
  }

  lemma DispersionStep(n: real, s: real, q: real, x: real)
    ensures Dispersion(n + 1.0, s + x, q + Square(x)) == Dispersion(n, s, q) + SpreadFrom(n, s, q, x)
  {
  }

  function DispersionOf(xs: seq<real>): real {
    Dispersion(|xs| as real, Sum(xs), SumSquares(xs))
  }

  /** The argument of the square root is never negative, and zero just for equal samples. */
  lemma {:induction false} DispersionNonNegative(xs: seq<real>)
    ensures 0.0 <= DispersionOf(xs)
    ensures DispersionOf(xs) == 0.0 <==> AllEqual(xs)
    decreases |xs|
  {
    if xs != [] {
      var front, x := Front(xs), Last(xs);
      DispersionNonNegative(front);
      DispersionGrows(xs);
      SpreadZero(front, x);
      AllEqualStep(xs);
    }
  }

  lemma DispersionGrows(xs: seq<real>)
    requires xs != []
    ensures DispersionOf(xs) == DispersionOf(Front(xs)) + Spread(Front(xs), Last(xs))
  {
    var front, x := Front(xs), Last(xs);
    SpreadExpands(front, x);
    DispersionStep(|front| as real, Sum(front), SumSquares(front), x);
    assert |xs| as real == |front| as real + 1.0;
  }

  lemma AllEqualStep(xs: seq<real>)
    requires xs != []
    ensures AllEqual(xs) <==> AllEqual(Front(xs)) && forall i :: 0 <= i < |Front(xs)| ==> Front(xs)[i] == Last(xs)
  {
    assert xs == Front(xs) + [Last(xs)];
  }

  // ---- percentiles ----

  /** The count of the first `b` buckets. */
  function Cum(buckets: seq<real>, b: nat): real
    requires b <= |buckets|
  {
    if b == 0 then 0.0 else Cum(buckets, b - 1) + buckets[b - 1]
  }

  /** The first bucket from `b` on at which the running count reaches the threshold. */
  function Choose(buckets: seq<real>, threshold: real, b: nat): (c: nat)
    requires b <= |buckets|
    ensures b <= c <= |buckets|
    ensures c < |buckets| ==> threshold <= Cum(buckets, c + 1)
    ensures forall k :: b < k <= c ==> Cum(buckets, k) < threshold
    decreases |buckets| - b
  {
    if b == |buckets| || threshold <= Cum(buckets, b + 1) then b else Choose(buckets, threshold, b + 1)
  }

  function Clamp(r: real, lo: real, hi: real): real {
    var a := if r < lo then lo else r;
    if a > hi then hi else a
  }

  function Left(limits: seq<real>, b: nat): real
    requires b < |limits|
  {
    if b == 0 then 0.0 else limits[b - 1]
  }

  function Interpolate(left: real, right: real, leftSum: real, rightSum: real, threshold: real): real
    requires leftSum < rightSum
  {
    left + (right - left) * ((threshold - leftSum) / (rightSum - leftSum))
  }

  function Threshold(num: real, p: real): real {
    num * (p / 100.0)
  }

  function PercentileSpec(limits: seq<real>, s: Summary, p: real): Option<real>
    requires |s.buckets| == |limits|
  {
    ReadAt(limits, s, Threshold(s.num, p))
  }

  /**
   * The arithmetic inside the chosen bucket. An empty bucket makes the code divide by zero:
   * 0/0 is NaN, which both comparisons leave alone (None here), and a negative number over 0
   * is minus infinity, which the clamps turn into `lo`, or `hi` if that is less.
   */
  function ValueIn(left: real, right: real, leftSum: real, rightSum: real, t: real, lo: real, hi: real): Option<real> {
    if leftSum < rightSum then Some(Clamp(Interpolate(left, right, leftSum, rightSum, t), lo, hi))
    else if t == leftSum then None
    else Some(Clamp(lo, lo, hi))
  }

  /** The body of Percentile once the threshold is known. */
  function ReadAt(limits: seq<real>, s: Summary, t: real): Option<real>
    requires |s.buckets| == |limits|
  {
    var b := Choose(s.buckets, t, 0);
    if b == |limits| then Some(s.max)
    else ValueIn(Left(limits, b), limits[b], Cum(s.buckets, b), Cum(s.buckets, b + 1), t, s.min, s.max)
  }

  lemma DivideMonotone(a: real, b: real, d: real)
    requires a <= b && 0.0 < d
    ensures a / d <= b / d
  {
  }

  lemma ScaleMonotone(w: real, p: real, q: real)
    requires 0.0 <= w && p <= q
    ensures w * p <= w * q
  {
  }

  lemma InterpolateMonotone(left: real, right: real, leftSum: real, rightSum: real, t1: real, t2: real)
    requires left <= right && leftSum < rightSum && t1 <= t2
    ensures Interpolate(left, right, leftSum, rightSum, t1) <= Interpolate(left, right, leftSum, rightSum, t2)
  {
    var d := rightSum - leftSum;
    DivideMonotone(t1 - leftSum, t2 - leftSum, d);
    ScaleMonotone(right - left, (t1 - leftSum) / d, (t2 - leftSum) / d);
  }

  lemma InterpolateWithin(left: real, right: real, leftSum: real, rightSum: real, threshold: real)
    requires left <= right && leftSum <= threshold <= rightSum && leftSum < rightSum
    ensures left <= Interpolate(left, right, leftSum, rightSum, threshold) <= right
  {
    var d := rightSum - leftSum;
    InterpolateMonotone(left, right, leftSum, rightSum, leftSum, threshold);
    InterpolateMonotone(left, right, leftSum, rightSum, threshold, rightSum);
    assert (leftSum - leftSum) / d == 0.0 && d / d == 1.0;
    assert Interpolate(left, right, leftSum, rightSum, leftSum) == left + (right - left) * 0.0;
    assert Interpolate(left, right, leftSum, rightSum, rightSum) == left + (right - left) * 1.0;
  }

  // ---- running counts and samples ----

  function CountBelow(xs: seq<real>, bound: real): (c: nat)
    ensures c <= |xs|
  {
    if xs == [] then 0 else CountBelow(Front(xs), bound) + if Last(xs) < bound then 1 else 0
  }

  /** How many samples fall into the first `b` buckets. */
  function CountUpTo(limits: seq<real>, xs: seq<real>, b: nat): (c: nat)
    requires b <= |limits|
    ensures c <= |xs|
  {
    if b == 0 then 0 else if b == |limits| then |xs| else CountBelow(xs, limits[b - 1])
  }

  lemma {:induction false} CountUpToStep(limits: seq<real>, xs: seq<real>, b: nat)
    requires GoodLimits(limits) && b < |limits|
    ensures CountUpTo(limits, xs, b + 1) == CountUpTo(limits, xs, b) + CountIn(limits, b, xs)
    decreases |xs|
  {
    if xs != [] {
      CountUpToStep(limits, Front(xs), b);
    }
  }

  /** The running count of Percentile counts the samples below the limits it has passed. */
  lemma {:induction false} CumCounts(limits: seq<real>, xs: seq<real>, b: nat)
    requires GoodLimits(limits) && b <= |limits|
    ensures Cum(Of(limits, xs).buckets, b) == CountUpTo(limits, xs, b) as real
  {
    if b > 0 {
      CumCounts(limits, xs, b - 1);
      CountUpToStep(limits, xs, b - 1);
    }
  }

  /** Bucket counts add up to the number of samples. */
  lemma BucketsSumToNum(limits: seq<real>, xs: seq<real>)
    requires GoodLimits(limits)
    ensures Cum(Of(limits, xs).buckets, |limits|) == Of(limits, xs).num
  {
    CumCounts(limits, xs, |limits|);
  }

  lemma ThresholdBounds(n: real, p: real, q: real)
    requires 0.0 < n && 0.0 < p <= q <= 100.0
    ensures 0.0 < Threshold(n, p) <= Threshold(n, q) <= n
  {
    ScaleMonotone(n, p / 100.0, q / 100.0);
    ScaleMonotone(n, q / 100.0, 1.0);
  }

  /** The bucket that Percentile settles on. */
  function ChosenBucket(limits: seq<real>, xs: seq<real>, t: real): nat
    requires limits != []
  {
    Choose(Of(limits, xs).buckets, t, 0)
  }

  /** A threshold in (0, num] has its bucket, which holds a sample and straddles the threshold. */
  lemma ChosenBucketHoldsSamples(limits: seq<real>, xs: seq<real>, t: real)
    requires GoodLimits(limits) && 0.0 < t <= |xs| as real
    ensures var b := ChosenBucket(limits, xs, t);
            && b < |limits|
            && 0 < CountIn(limits, b, xs)
            && CountUpTo(limits, xs, b) as real < t <= CountUpTo(limits, xs, b + 1) as real
            && Cum(Of(limits, xs).buckets, b) < t <= Cum(Of(limits, xs).buckets, b + 1)
  {
    var buckets, b := Of(limits, xs).buckets, ChosenBucket(limits, xs, t);
    CumCounts(limits, xs, |limits|);
    CumCounts(limits, xs, b);
    assert Cum(buckets, b) < t;
    CumCounts(limits, xs, b + 1);
    CountUpToStep(limits, xs, b);
  }

  predicate InRange(limits: seq<real>, xs: seq<real>)
    requires limits != []
  {
    forall i :: 0 <= i < |xs| ==> 0.0 <= xs[i] < Last(limits)
  }

  /** The interpolated value before it is clamped. */
  function Raw(limits: seq<real>, xs: seq<real>, t: real): real
    requires GoodLimits(limits) && 0.0 < t <= |xs| as real
  {
    var buckets, b := Of(limits, xs).buckets, ChosenBucket(limits, xs, t);
    ChosenBucketHoldsSamples(limits, xs, t);
    Interpolate(Left(limits, b), limits[b], Cum(buckets, b), Cum(buckets, b + 1), t)
  }

  lemma RawWithin(limits: seq<real>, xs: seq<real>, t: real)
    requires GoodLimits(limits) && 0.0 < t <= |xs| as real
    ensures var b := ChosenBucket(limits, xs, t);
            b < |limits| && Left(limits, b) <= Raw(limits, xs, t) <= limits[b]
    ensures ReadAt(limits, Of(limits, xs), t)
         == Some(Clamp(Raw(limits, xs, t), Of(limits, xs).min, Of(limits, xs).max))
  {
    var buckets, b := Of(limits, xs).buckets, ChosenBucket(limits, xs, t);
    ChosenBucketHoldsSamples(limits, xs, t);
    InterpolateWithin(Left(limits, b), limits[b], Cum(buckets, b), Cum(buckets, b + 1), t);
  }

  lemma {:induction false} ChooseMonotone(buckets: seq<real>, t1: real, t2: real, b: nat)
    requires b <= |buckets| && t1 <= t2
    ensures Choose(buckets, t1, b) <= Choose(buckets, t2, b)
    decreases |buckets| - b
  {
    if b < |buckets| {
      ChooseMonotone(buckets, t1, t2, b + 1);
    }
  }

  lemma RawMonotone(limits: seq<real>, xs: seq<real>, t1: real, t2: real)
    requires GoodLimits(limits) && 0.0 < t1 <= t2 <= |xs| as real
    ensures Raw(limits, xs, t1) <= Raw(limits, xs, t2)
  {
    var buckets := Of(limits, xs).buckets;
    var b, c := ChosenBucket(limits, xs, t1), ChosenBucket(limits, xs, t2);
    ChooseMonotone(buckets, t1, t2, 0);
    if b == c {
      ChosenBucketHoldsSamples(limits, xs, t1);
      InterpolateMonotone(Left(limits, b), limits[b], Cum(buckets, b), Cum(buckets, b + 1), t1, t2);
    } else {
      RawWithin(limits, xs, t1);
      RawWithin(limits, xs, t2);
      assert limits[b] <= Left(limits, c);
    }
  }

  lemma MinAtMostMax(limits: seq<real>, xs: seq<real>)
    requires limits != [] && xs != []
    ensures Of(limits, xs).min <= xs[0] <= Of(limits, xs).max
  {
  }

  /** With samples and `0 < p <= 100`, Percentile is a number between the recorded min and max. */
  lemma PercentileTotal(limits: seq<real>, xs: seq<real>, p: real)
    requires GoodLimits(limits) && xs != [] && 0.0 < p <= 100.0
    ensures var s := Of(limits, xs);
            PercentileSpec(limits, s, p).Some? && s.min <= PercentileSpec(limits, s, p).value <= s.max
  {
    var t := Threshold(|xs| as real, p);
    ThresholdBounds(|xs| as real, p, p);
    RawWithin(limits, xs, t);
    MinAtMostMax(limits, xs);
    ClampBetween(Raw(limits, xs, t), Of(limits, xs).min, Of(limits, xs).max);
  }

  lemma ClampBetween(r: real, lo: real, hi: real)
    requires lo <= hi
    ensures lo <= Clamp(r, lo, hi) <= hi
  {
  }

  lemma ClampMonotone(r: real, q: real, lo: real, hi: real)
    requires r <= q
    ensures Clamp(r, lo, hi) <= Clamp(q, lo, hi)
  {
  }

  /** A higher percentile is never a smaller value, across buckets and clamps. */
  lemma PercentileMonotone(limits: seq<real>, xs: seq<real>, p: real, q: real)
    requires GoodLimits(limits) && xs != [] && 0.0 < p <= q <= 100.0
    ensures var s := Of(limits, xs);
            && PercentileSpec(limits, s, p).Some? && PercentileSpec(limits, s, q).Some?
            && PercentileSpec(limits, s, p).value <= PercentileSpec(limits, s, q).value
  {
    var n, s := |xs| as real, Of(limits, xs);
    var t1, t2 := Threshold(n, p), Threshold(n, q);
    ThresholdBounds(n, p, q);
    RawWithin(limits, xs, t1);
    RawWithin(limits, xs, t2);
    RawMonotone(limits, xs, t1, t2);
    ClampMonotone(Raw(limits, xs, t1), Raw(limits, xs, t2), s.min, s.max);
  }

  /** When Percentile is not a number: no samples or `p` zero, and none in the first bucket. */
  lemma PercentileNaNIff(limits: seq<real>, xs: seq<real>, p: real)
    requires GoodLimits(limits)
    ensures var s := Of(limits, xs);
            PercentileSpec(limits, s, p).None? <==> (xs == [] || p == 0.0) && CountIn(limits, 0, xs) == 0
    ensures xs == [] ==> PercentileSpec(limits, Of(limits, xs), p).None?
  {
    var s := Of(limits, xs);
    CumCounts(limits, xs, 1);
    CountUpToStep(limits, xs, 0);
    assert Cum(s.buckets, 1) == CountIn(limits, 0, xs) as real;
    NaNAt(limits, s, Threshold(s.num, p));
    ThresholdZero(|xs| as real, p);
  }

  lemma ThresholdZero(n: real, p: real)
    ensures Threshold(n, p) == 0.0 <==> n == 0.0 || p == 0.0
    ensures 100.0 * Threshold(n, p) == n * p
  {
    assert 100.0 * (n * (p / 100.0)) == n * p;
    if n != 0.0 && p != 0.0 && n * p == 0.0 {
      CancelFactor(n, 0.0, p);
    }
  }

  lemma NaNAt(limits: seq<real>, s: Summary, t: real)
    requires |s.buckets| == |limits| > 0 && 0.0 <= Cum(s.buckets, 1)
    ensures ReadAt(limits, s, t).None? <==> t == 0.0 && Cum(s.buckets, 1) == 0.0
  {
    var b := Choose(s.buckets, t, 0);
    if b > 0 {
      assert Cum(s.buckets, b) < t;
    }
  }

  // ---- the value inside the bucket ----

  /** The point `x` of a stretch that lies as far into it as `t` lies into a count. */
  lemma InterpolateIs(left: real, right: real, leftSum: real, rightSum: real, t: real, count: real, x: real)
    requires count == rightSum - leftSum > 0.0
    requires (x - left) * count == (right - left) * (t - leftSum)
    ensures Interpolate(left, right, leftSum, rightSum, t) == x
  {
    var w, part := right - left, t - leftSum;
    var q := part / count;
    MeanTimes(part, count);
    Reassociate(w, q, count);
    CancelFactor(w * q, x - left, count);
  }

  lemma MeanTimes(s: real, n: real)
    requires n != 0.0
    ensures (s / n) * n == s
  {
  }

  /** Only the chosen bucket straddles the threshold. */
  lemma StraddlesOnce(limits: seq<real>, xs: seq<real>, t: real, b: nat)
    requires GoodLimits(limits) && b < |limits| && 0.0 < t
    requires CountUpTo(limits, xs, b) as real < t <= CountUpTo(limits, xs, b + 1) as real
    ensures t <= |xs| as real && ChosenBucket(limits, xs, t) == b
  {
    var c := ChosenBucket(limits, xs, t);
    ChosenBucketHoldsSamples(limits, xs, t);
    if b < c {
      CountsGrow(limits, xs, b + 1, c);
    } else if c < b {
      CountsGrow(limits, xs, c + 1, b);
    }
  }

  lemma {:induction false} CountsGrow(limits: seq<real>, xs: seq<real>, b: nat, c: nat)
    requires GoodLimits(limits) && b <= c <= |limits|
    ensures CountUpTo(limits, xs, b) <= CountUpTo(limits, xs, c)
    decreases c
  {
    if b < c {
      CountsGrow(limits, xs, b, c - 1);
      CountUpToStep(limits, xs, c - 1);
    }
  }

  /**
   * Percentile scales linearly inside the bucket: if `x` lies between the bucket's limits in
   * the proportion in which num * p / 100 lies between the counts of samples before the bucket
   * and through it, the result is `x`, clamped to the recorded bounds.
   */
  lemma PercentileValue(
      limits: seq<real>, xs: seq<real>, p: real, t: real, b: nat, left: real, before: real, count: real, x: real)
    requires GoodLimits(limits) && b < |limits| && 100.0 * t == |xs| as real * p && 0.0 < t
    requires left == if b == 0 then 0.0 else limits[b - 1]
    requires before == CountUpTo(limits, xs, b) as real && count == CountIn(limits, b, xs) as real
    requires before < t <= CountUpTo(limits, xs, b + 1) as real
    requires (x - left) * count == (limits[b] - left) * (t - before)
    ensures var s := Of(limits, xs);
            PercentileSpec(limits, s, p) == Some(if x < s.min then s.min else if x > s.max then s.max else x)
  {
    ThresholdIs(|xs| as real, p, t);
    ReadAtValue(limits, xs, t, b, left, before, count, x);
  }

  lemma ThresholdIs(n: real, p: real, t: real)
    requires 100.0 * t == n * p
    ensures Threshold(n, p) == t
  {
    ThresholdZero(n, p);
  }

  lemma ValueInIs(left: real, right: real, leftSum: real, rightSum: real, t: real, lo: real, hi: real,
                  count: real, x: real)
    requires count == rightSum - leftSum > 0.0 && lo <= hi
    requires (x - left) * count == (right - left) * (t - leftSum)
    ensures ValueIn(left, right, leftSum, rightSum, t, lo, hi)
         == Some(if x < lo then lo else if x > hi then hi else x)
  {
    InterpolateIs(left, right, leftSum, rightSum, t, count, x);
  }

  lemma BucketSums(limits: seq<real>, xs: seq<real>, b: nat)
    requires GoodLimits(limits) && b < |limits|
    ensures Cum(Of(limits, xs).buckets, b) == CountUpTo(limits, xs, b) as real
    ensures Cum(Of(limits, xs).buckets, b + 1) - CountUpTo(limits, xs, b) as real == CountIn(limits, b, xs) as real
  {
    CumCounts(limits, xs, b);
    CumCounts(limits, xs, b + 1);
    CountUpToStep(limits, xs, b);
  }

  lemma ReadInBucket(limits: seq<real>, s: Summary, t: real, b: nat, left: real, leftSum: real, count: real, x: real)
    requires |s.buckets| == |limits| && b < |limits| && Choose(s.buckets, t, 0) == b && s.min <= s.max
    requires left == Left(limits, b) && leftSum == Cum(s.buckets, b) && count == Cum(s.buckets, b + 1) - leftSum > 0.0
    requires (x - left) * count == (limits[b] - left) * (t - leftSum)
    ensures ReadAt(limits, s, t) == Some(if x < s.min then s.min else if x > s.max then s.max else x)
  {
    ValueInIs(left, limits[b], leftSum, Cum(s.buckets, b + 1), t, s.min, s.max, count, x);
  }

  lemma ReadAtValue(limits: seq<real>, xs: seq<real>, t: real, b: nat, left: real, before: real, count: real, x: real)
    requires GoodLimits(limits) && b < |limits| && 0.0 < t && left == Left(limits, b)
    requires before == CountUpTo(limits, xs, b) as real && count == CountIn(limits, b, xs) as real
    requires before < t <= CountUpTo(limits, xs, b + 1) as real
    requires (x - left) * count == (limits[b] - left) * (t - before)
    ensures var s := Of(limits, xs);
            ReadAt(limits, s, t) == Some(if x < s.min then s.min else if x > s.max then s.max else x)
  {
    StraddlesOnce(limits, xs, t, b);
    BucketSums(limits, xs, b);
    CountUpToStep(limits, xs, b);
    MinAtMostMax(limits, xs);
    ReadInBucket(limits, Of(limits, xs), t, b, left, before, count, x);
  }

  /** Beyond the range of a percentage: the largest sample above 100, the smallest below 0. */
  lemma PercentileOutside(limits: seq<real>, xs: seq<real>, p: real)
    requires GoodLimits(limits) && xs != [] && InRange(limits, xs) && (p < 0.0 || 100.0 < p)
    ensures PercentileSpec(limits, Of(limits, xs), p)
         == Some(if p < 0.0 then Of(limits, xs).min else Of(limits, xs).max)
  {
    var n, t := |xs| as real, Threshold(|xs| as real, p);
    ThresholdZero(n, p);
    if p < 0.0 {
      ScaleMonotone(n, p, 0.0);
      CancelZero(n, p);
      ReadBelow(limits, xs, t);
    } else {
      ScaleBeyond(n, p);
      ReadAbove(limits, xs, t);
    }
  }

  lemma CancelZero(n: real, p: real)
    requires 0.0 < n && p < 0.0
    ensures n * p < 0.0
  {
  }

  lemma ReadBelow(limits: seq<real>, xs: seq<real>, t: real)
    requires GoodLimits(limits) && xs != [] && InRange(limits, xs) && t < 0.0
    ensures ReadAt(limits, Of(limits, xs), t) == Some(Of(limits, xs).min)
  {
    var s := Of(limits, xs);
    MinAtMostMax(limits, xs);
    CumCounts(limits, xs, 1);
    MinIsSampleIff(xs, Last(limits));
    assert Choose(s.buckets, t, 0) == 0 && Cum(s.buckets, 0) == 0.0;
    BelowTheFirst(limits[0], Cum(s.buckets, 1), t);
  }

  lemma ReadAbove(limits: seq<real>, xs: seq<real>, t: real)
    requires GoodLimits(limits) && |xs| as real < t
    ensures ReadAt(limits, Of(limits, xs), t) == Some(Of(limits, xs).max)
  {
    var c := Choose(Of(limits, xs).buckets, t, 0);
    if c < |limits| {
      CumCounts(limits, xs, c + 1);
    }
  }

  lemma ScaleBeyond(n: real, p: real)
    requires 0.0 < n && 100.0 < p
    ensures n * p > 100.0 * n
  {
  }

  lemma BelowTheFirst(right: real, count: real, t: real)
    requires 0.0 < right && t < 0.0
    ensures 0.0 < count ==> Interpolate(0.0, right, 0.0, count, t) <= 0.0
  {
    if 0.0 < count {
      DivideMonotone(t, 0.0, count);
      ScaleMonotone(right, t / count, 0.0);
    }
  }

  // ---- accuracy against the sorted samples ----

  predicate Sorted(ys: seq<real>) {
    forall i, j :: 0 <= i < j < |ys| ==> ys[i] <= ys[j]
  }

  lemma {:induction false} CountBelowConcat(xs: seq<real>, ys: seq<real>, bound: real)
    ensures CountBelow(xs + ys, bound) == CountBelow(xs, bound) + CountBelow(ys, bound)
    decreases |ys|
  {
    if ys == [] {
      assert xs + ys == xs;
    } else {
      ConcatFront(xs, ys);
      CountBelowConcat(xs, Front(ys), bound);
    }
  }

  function Without(ys: seq<real>, i: nat): seq<real>
    requires i < |ys|
  {
    ys[..i] + ys[i + 1..]
  }

  lemma WithoutMultiset(ys: seq<real>, i: nat)
    requires i < |ys|
    ensures multiset(Without(ys, i)) == multiset(ys) - multiset{ys[i]}
  {
    assert ys == ys[..i] + ([ys[i]] + ys[i + 1..]);
  }

  lemma WithoutCount(ys: seq<real>, i: nat, bound: real)
    requires i < |ys|
    ensures CountBelow(ys, bound) == CountBelow(Without(ys, i), bound) + if ys[i] < bound then 1 else 0
  {
    var a, x, c := ys[..i], [ys[i]], ys[i + 1..];
    assert ys == a + (x + c) && Front(x) == [];
    CountBelowConcat(a, c, bound);
    CountBelowConcat(x, c, bound);
    CountBelowConcat(a, x + c, bound);
  }

  lemma {:induction false} CountBelowPermutation(xs: seq<real>, ys: seq<real>, bound: real)
    requires multiset(xs) == multiset(ys)
    ensures CountBelow(xs, bound) == CountBelow(ys, bound)
    decreases |xs|
  {
    if xs == [] {
      assert |ys| == |multiset(ys)| == 0;
    } else {
      var j := |xs| - 1;
      assert xs[j] in multiset(ys);
      var i :| 0 <= i < |ys| && ys[i] == xs[j];
      WithoutMultiset(xs, j);
      WithoutMultiset(ys, i);
      WithoutCount(xs, j, bound);
      WithoutCount(ys, i, bound);
      CountBelowPermutation(Without(xs, j), Without(ys, i), bound);
    }
  }

  /** In a sorted list the values below a bound are the first ones. */
  lemma {:induction false} SortedRank(ys: seq<real>, bound: real, i: nat)
    requires Sorted(ys) && i < |ys|
    ensures ys[i] < bound <==> i < CountBelow(ys, bound)
    decreases |ys|
  {
    if i < |ys| - 1 {
      SortedRank(Front(ys), bound, i);
    } else if |ys| > 1 {
      SortedRank(Front(ys), bound, i - 1);
    }
  }

  /**
   * The sample of rank ceil(num * p / 100) lies in the bucket `b` of the result, and the
   * result differs from it by at most that bucket's width.
   */
  lemma PercentileAccuracy(limits: seq<real>, xs: seq<real>, p: real, ys: seq<real>, k: nat) returns (b: nat)
    requires GoodLimits(limits) && xs != [] && 0.0 < p <= 100.0 && InRange(limits, xs)
    requires Sorted(ys) && multiset(ys) == multiset(xs)
    requires 100.0 * (k as real - 1.0) < |xs| as real * p <= 100.0 * k as real
    ensures 1 <= k <= |ys|
    ensures b < |limits|
    ensures var left, right := if b == 0 then 0.0 else limits[b - 1], limits[b];
            && left <= ys[k - 1] < right
            && PercentileSpec(limits, Of(limits, xs), p).Some?
            && var r := PercentileSpec(limits, Of(limits, xs), p).value;
               left <= r <= right && r - ys[k - 1] <= right - left && ys[k - 1] - r <= right - left
  {
    var t := Threshold(|xs| as real, p);
    ThresholdBounds(|xs| as real, p, p);
    ThresholdZero(|xs| as real, p);
    b := ChosenBucket(limits, xs, t);
    AccuracyAt(limits, xs, t, ys, k);
    SampleBounds(limits, xs, ys[k - 1]) by { assert ys[k - 1] in multiset(xs); }
  }

  lemma AccuracyAt(limits: seq<real>, xs: seq<real>, t: real, ys: seq<real>, k: nat)
    requires GoodLimits(limits) && InRange(limits, xs) && 0.0 < t <= |xs| as real
    requires Sorted(ys) && multiset(ys) == multiset(xs)
    requires k as real - 1.0 < t <= k as real
    ensures 1 <= k <= |ys|
    ensures var b := ChosenBucket(limits, xs, t);
            && b < |limits| && InBucket(limits, b, ys[k - 1])
            && ReadAt(limits, Of(limits, xs), t).Some?
            && Left(limits, b) <= ReadAt(limits, Of(limits, xs), t).value <= limits[b]
            && Left(limits, b) <= ys[k - 1] <= limits[b]
  {
    var s, b := Of(limits, xs), ChosenBucket(limits, xs, t);
    assert |ys| == |multiset(ys)| == |multiset(xs)| == |xs|;
    ChosenBucketHoldsSamples(limits, xs, t);
    RankInBucket(limits, xs, ys, k, b);
    RawWithin(limits, xs, t);
    SampleBounds(limits, xs, ys[k - 1]) by { assert ys[k - 1] in multiset(xs); }
    ClampKeepsWithin(Raw(limits, xs, t), s.min, s.max, ys[k - 1], Left(limits, b), limits[b]);
  }

  lemma SampleBounds(limits: seq<real>, xs: seq<real>, v: real)
    requires limits != [] && InRange(limits, xs) && v in multiset(xs)
    ensures Of(limits, xs).min <= v <= Of(limits, xs).max && 0.0 <= v < Last(limits)
  {
    var i :| 0 <= i < |xs| && xs[i] == v;
  }

  /** Clamping to bounds around a value of the bucket does not leave the bucket. */
  lemma ClampKeepsWithin(r: real, lo: real, hi: real, v: real, left: real, right: real)
    requires lo <= v <= hi && left <= v <= right && left <= r <= right
    ensures left <= Clamp(r, lo, hi) <= right
  {
  }

  lemma RankInBucket(limits: seq<real>, xs: seq<real>, ys: seq<real>, k: nat, b: nat)
    requires GoodLimits(limits) && Sorted(ys) && multiset(ys) == multiset(xs) && 1 <= k <= |ys| && b < |limits|
    requires CountUpTo(limits, xs, b) < k <= CountUpTo(limits, xs, b + 1)
    ensures InBucket(limits, b, ys[k - 1])
  {
    if b > 0 {
      CountBelowPermutation(xs, ys, limits[b - 1]);
      SortedRank(ys, limits[b - 1], k - 1);
    }
    if b < |limits| - 1 {
      CountBelowPermutation(xs, ys, limits[b]);
      SortedRank(ys, limits[b], k - 1);
    }
  }
}
