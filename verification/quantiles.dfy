/**
 Linear-interpolation quantiles and the interquartile-range fences of one
 column (inspector.py:53-57). Quantiles are read from the column's present
 values sorted ascending: position h = q * (n - 1), and the result lies on the
 straight line between the values at floor(h) and floor(h) + 1.
 */
module Quantiles {
  import opened Counting
  import opened Sorting

  /** The first and third quartiles used for the fences. */
  const LowerQuartile: real := 0.25
  const UpperQuartile: real := 0.75

  /** How many interquartile ranges the fences lie beyond the quartiles. */
  const IqrMultiplier: real := 1.5

  /** Index of the sorted value at or just below quantile `q` of `n` values. */
  function LowIndex(n: nat, q: real): (lo: int)
    requires n > 0 && 0.0 <= q <= 1.0
    ensures 0 <= lo < n
  {
    ProductNonNegative(q, (n - 1) as real);
    ProductNonNegative(1.0 - q, (n - 1) as real);
    (q * (n - 1) as real).Floor
  }

  lemma ProductNonNegative(x: real, y: real)
    requires x >= 0.0 && y >= 0.0
    ensures x * y >= 0.0
  {
  }

  /** The point a fraction `t` of the way from `a` to `b`. */
  function Lerp(a: real, b: real, t: real): (r: real)
    requires a <= b && 0.0 <= t <= 1.0
    ensures a <= r <= b
  {
    ProductNonNegative(t, b - a);
    ProductNonNegative(1.0 - t, b - a);
    a + t * (b - a)
  }

  /** Quantile `q` of the sorted sequence `s` by linear interpolation. */
  function Quantile(s: seq<real>, q: real): (r: real)
    requires Sorted(s) && |s| > 0 && 0.0 <= q <= 1.0
    ensures s[LowIndex(|s|, q)] <= r
    ensures LowIndex(|s|, q) + 1 < |s| ==> r <= s[LowIndex(|s|, q) + 1]
    ensures s[0] <= r <= s[|s| - 1]
  {
    var lo := LowIndex(|s|, q);
    var frac := q * (|s| - 1) as real - lo as real;
    assert s[0] <= s[lo] <= s[|s| - 1];
    if lo + 1 < |s| then
      assert s[lo] <= s[lo + 1] <= s[|s| - 1];
      Lerp(s[lo], s[lo + 1], frac)
    else
      s[lo]
  }

  /** A larger `q` never gives a smaller quantile. */
  lemma QuantileMonotone(s: seq<real>, q: real, higher: real)
    requires Sorted(s) && |s| > 0 && 0.0 <= q <= higher <= 1.0
    ensures Quantile(s, q) <= Quantile(s, higher)
  {
    var n := |s|;
    var h, hHigher := q * (n - 1) as real, higher * (n - 1) as real;
    ProductNonNegative(higher - q, (n - 1) as real);
    var lo, loHigher := LowIndex(n, q), LowIndex(n, higher);
    assert lo <= loHigher;
    if lo < loHigher {
      assert s[lo + 1] <= s[loHigher];
    } else if lo + 1 < n {
      var d := s[lo + 1] - s[lo];
      var frac, fracHigher := h - lo as real, hHigher - lo as real;
      ProductNonNegative(fracHigher - frac, d);
      assert Quantile(s, q) == s[lo] + frac * d;
      assert Quantile(s, higher) == s[lo] + fracHigher * d;
    }
  }

  /**
   Between two different neighbours the value is interpolated linearly: the
   lower quartile of 1, 2, 3, 4 sits three quarters of the way from 1 to 2,
   and the median of the same values is halfway between 2 and 3.
   */
  lemma QuantileInterpolates()
    ensures Quantile([1.0, 2.0, 3.0, 4.0], LowerQuartile) == 1.75
    ensures Quantile([1.0, 2.0, 3.0, 4.0], 0.5) == 2.5
  {
    assert Sorted([1.0, 2.0, 3.0, 4.0]);
    assert LowIndex(4, LowerQuartile) == 0;
    assert LowIndex(4, 0.5) == 1;
  }

  /** When the two neighbours around the position are equal, the quantile is that value. */
  lemma QuantileOnPlateau(s: seq<real>, q: real, x: real)
    requires Sorted(s) && |s| > 0 && 0.0 <= q <= 1.0
    requires s[LowIndex(|s|, q)] == x
    requires LowIndex(|s|, q) + 1 < |s| ==> s[LowIndex(|s|, q) + 1] == x
    ensures Quantile(s, q) == x
  {
  }

  function Below(x: real): (p: real -> bool)
  {
    y => y < x
  }

  function AtMost(x: real): (p: real -> bool)
  {
    y => y <= x
  }

  /**
   Order statistics by counting: position `k` of the sorted sequence holds `x`
   when fewer than or exactly `k` values lie below `x` and more than `k` lie at or below it.
   */
  lemma OrderStatistic(s: seq<real>, k: nat, x: real)
    requires Sorted(s) && k < |s|
    requires CountIf(s, Below(x)) <= k < CountIf(s, AtMost(x))
    ensures s[k] == x
  {
    if s[k] < x {
      CountIfPrefix(s, Below(x), k + 1);
    } else if s[k] > x {
      CountIfSuffixNone(s, AtMost(x), k);
    }
  }

  /**
   A value between the sorted values at positions `lo` and `lo + 1` has rank
   `lo`: more than `lo` values lie at or below it, and at most `lo + 1` lie
   strictly below it. Ranks are counted on the unsorted values.
   */
  lemma {:induction false} RankBetween(values: seq<real>, s: seq<real>, lo: nat, x: real)
    requires Sorted(s) && multiset(values) == multiset(s)
    requires lo < |s| && s[lo] <= x
    requires lo + 1 < |s| ==> x <= s[lo + 1]
    ensures CountIf(values, AtMost(x)) >= lo + 1
    ensures CountIf(values, Below(x)) <= lo + 1
  {
    assert forall i :: 0 <= i < lo + 1 ==> AtMost(x)(s[i]);
    CountIfPrefix(s, AtMost(x), lo + 1);
    assert forall i :: lo + 1 <= i < |s| ==> !Below(x)(s[i]);
    CountIfSuffixNone(s, Below(x), lo + 1);
    CountIfPermutation(values, s, AtMost(x));
    CountIfPermutation(values, s, Below(x));
  }

  /**
   Quantile `q` of a column's values has the rank of its position: at least
   `floor(q * (n - 1)) + 1` values lie at or below it, and at most that many
   strictly below it.
   */
  lemma QuantileRank(values: seq<real>, q: real)
    requires |values| > 0 && 0.0 <= q <= 1.0
    ensures CountIf(values, AtMost(Quantile(Sort(values), q))) >= LowIndex(|values|, q) + 1
    ensures CountIf(values, Below(Quantile(Sort(values), q))) <= LowIndex(|values|, q) + 1
  {
    var s := Sort(values);
    RankBetween(values, s, LowIndex(|s|, q), Quantile(s, q));
  }

  /** Quartiles and fences of one column. */
  datatype Fences = Fences(q1: real, q3: real, lower: real, upper: real)

  /**
   Fences from the column's own present values: the quartiles are ordered, the
   fences lie 1.5 IQR outside them, the quartiles stay within the range of the
   values, and each quartile has the rank of its position floor(q * (n - 1)).
   */
  function ColumnFences(values: seq<real>): (f: Fences)
    requires |values| > 0
    ensures f.q1 <= f.q3
    ensures f.lower <= f.q1 && f.q3 <= f.upper
    ensures f.q1 - f.lower == f.upper - f.q3 == IqrMultiplier * (f.q3 - f.q1)
    ensures exists i :: 0 <= i < |values| && values[i] <= f.q1
    ensures exists i :: 0 <= i < |values| && f.q3 <= values[i]
    ensures CountIf(values, AtMost(f.q1)) >= LowIndex(|values|, LowerQuartile) + 1
    ensures CountIf(values, Below(f.q1)) <= LowIndex(|values|, LowerQuartile) + 1
    ensures CountIf(values, AtMost(f.q3)) >= LowIndex(|values|, UpperQuartile) + 1
    ensures CountIf(values, Below(f.q3)) <= LowIndex(|values|, UpperQuartile) + 1
  {
    QuantileRank(values, LowerQuartile);
    QuantileRank(values, UpperQuartile);
    var s := Sort(values);
    var q1 := Quantile(s, LowerQuartile);
    var q3 := Quantile(s, UpperQuartile);
    QuantileMonotone(s, LowerQuartile, UpperQuartile);
    assert s[0] in multiset(values) && s[|s| - 1] in multiset(values);
    var iqr := q3 - q1;
    Fences(q1, q3, q1 - IqrMultiplier * iqr, q3 + IqrMultiplier * iqr)
  }
}
