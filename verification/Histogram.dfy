/** The Histogram object: fields and a bucket array updated in place, tied to its samples. */
module Histograms {
  import opened Wrappers
  import opened HistogramSpec

  class Histogram {
    const limits: seq<real>
    var min: real
    var max: real
    var num: real
    var sum: real
    var sumSquares: real
    const buckets: array<real>
    /** The samples added and merged in so far. */
    ghost var samples: seq<real>

    /** What the constructor leaves: storage, but no meaningful contents before Clear. */
    ghost predicate Shaped()
      reads this
    {
      GoodLimits(limits) && buckets.Length == |limits|
    }

    ghost function View(): Summary
      reads this, buckets
    {
      Summary(min, max, num, sum, sumSquares, buckets[..])
    }

    ghost predicate Valid()
      reads this, buckets
    {
      Shaped() && View() == Of(limits, samples)
    }

    constructor (limits: seq<real>)
      requires GoodLimits(limits)
      ensures Shaped() && this.limits == limits && fresh(buckets)
    {
      this.limits := limits;
      buckets := new real[|limits|];
    }

    method Clear()
      requires Shaped()
      modifies this, buckets
      ensures Valid() && samples == []
    {
      var n := |limits|;
      min := limits[n - 1];
      max := 0.0;
      num := 0.0;
      sum := 0.0;
      sumSquares := 0.0;
      samples := [];
      for i := 0 to n
        modifies buckets
        invariant forall j :: 0 <= j < i ==> buckets[j] == 0.0
      {
        buckets[i] := 0.0;
      }
      assert forall b :: 0 <= b < n ==> CountIn(limits, b, []) == 0;
      assert buckets[..] == Of(limits, []).buckets;
    }

    /** The linear search for the bucket of a value. */
    method FindBucket(value: real) returns (b: nat)
      requires Shaped()
      ensures b < |limits| && InBucket(limits, b, value)
    {
      b := 0;
      while b < |limits| - 1 && limits[b] <= value
        invariant b <= |limits| - 1
        invariant b == 0 || limits[b - 1] <= value
      {
        b := b + 1;
      }
    }

    method Bump(b: nat)
      requires b < buckets.Length
      modifies buckets
      ensures buckets[..] == old(buckets[..])[b := old(buckets[b]) + 1.0]
    {
      buckets[b] := buckets[b] + 1.0;
    }

    method UpdateSums(value: real)
      modifies `min, `max, `num, `sum, `sumSquares
      ensures min == MinR(old(min), value) && max == MaxR(old(max), value)
      ensures num == old(num) + 1.0 && sum == old(sum) + value && sumSquares == old(sumSquares) + Square(value)
    {
      if min > value {
        min := value;
      }
      if max < value {
        max := value;
      }
      num := num + 1.0;
      sum := sum + value;
      sumSquares := sumSquares + Square(value);
    }

    method Add(value: real)
      requires Valid()
      modifies this, buckets
      ensures Valid() && samples == old(samples) + [value]
    {
      var b := FindBucket(value);
      AddIsSnoc(limits, samples, b, value);
      AddFound(b, value);
      samples := samples + [value];
    }

    method AddFound(b: nat, value: real)
      requires b < buckets.Length
      modifies `min, `max, `num, `sum, `sumSquares, buckets
      ensures View() == AddSpec(old(View()), b, value)
    {
      Bump(b);
      UpdateSums(value);
    }

    /** Merge; `other` may be this very histogram. */
    method Merge(other: Histogram)
      requires Valid() && other.Valid() && other.limits == limits
      requires other == this || other.buckets != buckets
      modifies this, buckets
      ensures Valid() && samples == old(samples) + old(other.samples)
    {
      ghost var mine, theirs := View(), other.View();
      MergeIsConcat(limits, samples, other.samples);
      samples := samples + other.samples;
      if other.min < min {
        min := other.min;
      }
      if other.max > max {
        max := other.max;
      }
      num := num + other.num;
      sum := sum + other.sum;
      sumSquares := sumSquares + other.sumSquares;
      MergeBuckets(other.buckets);
      assert buckets[..] == MergeSpec(mine, theirs).buckets;
    }

    method MergeBuckets(others: array<real>)
      requires others.Length == buckets.Length
      modifies buckets
      ensures forall b :: 0 <= b < buckets.Length ==> buckets[b] == old(buckets[b]) + old(others[b])
    {
      for b := 0 to buckets.Length
        invariant forall c :: 0 <= c < b ==> buckets[c] == old(buckets[c]) + old(others[c])
        invariant forall c :: b <= c < buckets.Length ==> buckets[c] == old(buckets[c]) && others[c] == old(others[c])
      {
        buckets[b] := buckets[b] + others[b];
      }
    }

    /** Percentile: the running sum over the buckets, then interpolation and clamping; None is NaN. */
    method Percentile(p: real) returns (r: Option<real>)
      requires Shaped()
      ensures r == PercentileSpec(limits, View(), p)
    {
      r := PercentileAt(Threshold(num, p));
    }

    method PercentileAt(threshold: real) returns (r: Option<real>)
      requires Shaped()
      ensures r == ReadAt(limits, View(), threshold)
    {
      var running := 0.0;
      ghost var all := buckets[..];
      for b := 0 to |limits|
        invariant running == Cum(all, b)
        invariant Choose(all, threshold, 0) == Choose(all, threshold, b)
      {
        running := running + buckets[b];
        if running >= threshold {
          r := Finish(Left(limits, b), limits[b], running - buckets[b], running, threshold);
          return;
        }
      }
      return Some(max);
    }

    /** The arithmetic inside the chosen bucket, with floating-point division by zero spelled out. */
    method Finish(left: real, right: real, leftSum: real, rightSum: real, threshold: real) returns (r: Option<real>)
      ensures r == ValueIn(left, right, leftSum, rightSum, threshold, min, max)
    {
      var v := min;
      if leftSum < rightSum {
        v := left + (right - left) * ((threshold - leftSum) / (rightSum - leftSum));
      } else if threshold == leftSum {
        return None;
      }
      if v < min {
        v := min;
      }
      if v > max {
        v := max;
      }
      return Some(v);
    }

    /** The value under StandardDeviation's square root. */
    method Variance() returns (v: real)
      requires Valid()
      ensures IsVariance(samples, v)
      ensures 0.0 <= v && (v == 0.0 <==> AllEqual(samples))
    {
      if num == 0.0 {
        return 0.0;
      }
      v := VarianceOf(num, sum, sumSquares);
      VarianceFacts(samples, num, sum, sumSquares, v);
    }

    method Average() returns (v: real)
      requires Valid()
      ensures samples == [] ==> v == 0.0
      ensures v * num == sum == Sum(samples)
    {
      if num == 0.0 {
        return 0.0;
      }
      v := sum / num;
    }
  }

  method VarianceOf(num: real, sum: real, sumSquares: real) returns (v: real)
    requires 0.0 < num
    ensures v * (num * num) == Dispersion(num, sum, sumSquares)
  {
    SquareNonNegative(num);
    v := (sumSquares * num - sum * sum) / (num * num);
  }

  lemma VarianceFacts(xs: seq<real>, n: real, s: real, q: real, v: real)
    requires xs != [] && n == |xs| as real && s == Sum(xs) && q == SumSquares(xs)
    requires v * (n * n) == Dispersion(n, s, q)
    ensures IsVariance(xs, v)
    ensures 0.0 <= v && (v == 0.0 <==> AllEqual(xs))
  {
    forall mean | mean * |xs| as real == Sum(xs)
      ensures v * |xs| as real == Spread(xs, mean)
    {
      SpreadExpands(xs, mean);
      QuotientIsMeanSquare(n, s, q, v, mean);
    }
    VarianceSign(xs, n, v);
  }

  lemma VarianceSign(xs: seq<real>, n: real, v: real)
    requires 0.0 < n && v * (n * n) == DispersionOf(xs)
    ensures 0.0 <= v && (v == 0.0 <==> AllEqual(xs))
  {
    DispersionNonNegative(xs);
    SquareNonNegative(n);
    SignOfQuotient(v, n * n);
  }
}

/** The source's table of 154 limits: 1 to 10, then sixteen steps in every decade, then 1e200. */
module BucketLimits {
  import opened HistogramSpec

  const NUM_BUCKETS := 154

  const STEPS: seq<real> :=
    [12.0, 14.0, 16.0, 18.0, 20.0, 25.0, 30.0, 35.0, 40.0, 45.0, 50.0, 60.0, 70.0, 80.0, 90.0, 100.0]

  function Power10(k: nat): (r: real)
    ensures 1.0 <= r
  {
    if k == 0 then 1.0 else 10.0 * Power10(k - 1)
  }

  function Limit(i: nat): real {
    if i < 10 then (i + 1) as real
    else if i == NUM_BUCKETS - 1 then Power10(200)
    else STEPS[(i - 10) % 16] * Power10((i - 10) / 16)
  }

  const LIMITS: seq<real> := seq(NUM_BUCKETS, i requires 0 <= i < NUM_BUCKETS => Limit(i))

  lemma {:induction false} PowersGrow(j: nat, k: nat)
    requires j <= k
    ensures Power10(j) <= Power10(k)
    decreases k - j
  {
    if j < k {
      PowersGrow(j, k - 1);
    }
  }

  lemma StepsGrow(s: nat, w: real)
    requires s < 15 && 0.0 < w
    ensures STEPS[s] * w < STEPS[s + 1] * w
  {
  }

  lemma LimitStep(i: nat)
    requires i + 1 < NUM_BUCKETS
    ensures Limit(i) < Limit(i + 1)
  {
    if i == NUM_BUCKETS - 2 {
      assert (i - 10) % 16 == 14 && (i - 10) / 16 == 8;
      PowersGrow(10, 200);
      assert Power10(10) == 100.0 * Power10(8);
    } else if i >= 10 {
      var s, k := (i - 10) % 16, (i - 10) / 16;
      if s < 15 {
        assert (i + 1 - 10) % 16 == s + 1 && (i + 1 - 10) / 16 == k;
        StepsGrow(s, Power10(k));
      } else {
        assert (i + 1 - 10) % 16 == 0 && (i + 1 - 10) / 16 == k + 1;
      }
    } else if i == 9 {
      assert Limit(10) == 12.0 * 1.0;
    }
  }

  lemma {:induction false} LimitsGrow(i: nat, j: nat)
    requires i < j < NUM_BUCKETS
    ensures Limit(i) < Limit(j)
  {
    LimitStep(j - 1);
    if i < j - 1 {
      LimitsGrow(i, j - 1);
    }
  }

  lemma NextDecade(i: nat)
    requires 26 <= i < NUM_BUCKETS - 1
    ensures Limit(i) == 10.0 * Limit(i - 16)
  {
    var j, k := (i - 10) % 16, (i - 10) / 16;
    assert (i - 26) % 16 == j && (i - 26) / 16 == k - 1;
    TenTimes(STEPS[j], Power10(k - 1));
  }

  lemma TenTimes(a: real, p: real)
    ensures a * (10.0 * p) == 10.0 * (a * p)
  {
  }

  lemma FirstDecade(j: nat)
    requires j < 16
    ensures Limit(j + 10) == STEPS[j]
  {
    assert (j + 10 - 10) % 16 == j && (j + 10 - 10) / 16 == 0;
  }

  /** The table: 1 to 10, sixteen steps up to 100, the same ten times as large, and a last limit. */
  lemma TableValues()
    ensures |LIMITS| == 154
    ensures forall i :: 0 <= i < 10 ==> LIMITS[i] == (i + 1) as real
    ensures LIMITS[10..26]
         == [12.0, 14.0, 16.0, 18.0, 20.0, 25.0, 30.0, 35.0, 40.0, 45.0, 50.0, 60.0, 70.0, 80.0, 90.0, 100.0]
    ensures forall i :: 26 <= i < 153 ==> LIMITS[i] == 10.0 * LIMITS[i - 16]
    ensures LIMITS[153] == Power10(200)
  {
    forall j | 0 <= j < 16
      ensures LIMITS[10..26][j] == STEPS[j]
    {
      FirstDecade(j);
    }
    assert LIMITS[10..26] == STEPS;
    forall i | 26 <= i < 153
      ensures LIMITS[i] == 10.0 * LIMITS[i - 16]
    {
      NextDecade(i);
    }
  }

  /** The table meets what the histogram's results ask of their limits. */
  lemma TableIsGood()
    ensures GoodLimits(LIMITS)
  {
    forall i, j | 0 <= i < j < NUM_BUCKETS
      ensures LIMITS[i] < LIMITS[j]
    {
      LimitsGrow(i, j);
    }
  }
}
