/**
 * The per-word series transforms of `buildDatasets`: the cohort share, the
 * running (cumulative) sum and the centred moving average of
 * `smoothArray`. Chart values are modelled as reals.
 */
module Series {

  // ---------------------------------------------------------------------
  // Sums and means
  // ---------------------------------------------------------------------

  /** `reduce((sum, val) => sum + val, 0)`: a left fold from 0. */
  function Sum(s: seq<real>): real
  {
    if s == [] then 0.0 else Sum(s[..|s| - 1]) + s[|s| - 1]
  }

  /** Elements within [lo, hi] give a sum within [lo * |s|, hi * |s|]. */
  lemma {:induction false} SumBounds(s: seq<real>, lo: real, hi: real)
    requires forall i :: 0 <= i < |s| ==> lo <= s[i] <= hi
    ensures lo * (|s| as real) <= Sum(s) <= hi * (|s| as real)
  {
    if s != [] {
      SumBounds(s[..|s| - 1], lo, hi);
    }
  }

  /** With no negative element, each element is at most the sum. */
  lemma {:induction false} SumDominates(s: seq<real>, j: int)
    requires forall i :: 0 <= i < |s| ==> 0.0 <= s[i]
    requires 0 <= j < |s|
    ensures 0.0 <= s[j] <= Sum(s)
  {
    var n := |s| - 1;
    if j < n {
      SumDominates(s[..n], j);
    } else {
      SumNonNegative(s[..n]);
    }
  }

  lemma {:induction false} SumNonNegative(s: seq<real>)
    requires forall i :: 0 <= i < |s| ==> 0.0 <= s[i]
    ensures 0.0 <= Sum(s)
  {
    if s != [] {
      SumNonNegative(s[..|s| - 1]);
    }
  }

  /** The arithmetic mean of a non-empty slice. */
  function Mean(s: seq<real>): real
    requires |s| > 0
  {
    Sum(s) / (|s| as real)
  }

  /** A mean lies between the least and the greatest bound of its elements. */
  lemma MeanBounds(s: seq<real>, lo: real, hi: real)
    requires |s| > 0
    requires forall i :: 0 <= i < |s| ==> lo <= s[i] <= hi
    ensures lo <= Mean(s) <= hi
  {
    SumBounds(s, lo, hi);
    var n := |s| as real;
    DivideBounds(Sum(s), n, lo, hi);
  }

  lemma DivideBounds(x: real, n: real, lo: real, hi: real)
    requires n > 0.0 && lo * n <= x <= hi * n
    ensures lo <= x / n <= hi
  {
  }

  // ---------------------------------------------------------------------
  // `smoothArray(arr, k)`
  // ---------------------------------------------------------------------

  /** `Math.max(0, i - Math.floor(k / 2))` */
  function WindowStart(i: int, k: int): int
  {
    if i - k / 2 > 0 then i - k / 2 else 0
  }

  /** `Math.min(a.length, i + Math.ceil(k / 2))`; for an integer k the ceiling of k/2 is (k + 1) / 2 floored. */
  function WindowEnd(n: int, i: int, k: int): int
  {
    if i + (k + 1) / 2 < n then i + (k + 1) / 2 else n
  }

  /**
   * The window of position i: it lies within the series, contains i and
   * holds at most k elements (so its mean never divides by zero); it holds
   * exactly k elements precisely when it is not cut by either edge.
   */
  lemma WindowFacts(n: int, i: int, k: int)
    requires 0 <= i < n && k > 1
    ensures 0 <= WindowStart(i, k) <= i < WindowEnd(n, i, k) <= n
    ensures WindowEnd(n, i, k) - WindowStart(i, k) <= k
    ensures WindowEnd(n, i, k) - WindowStart(i, k) == k <==> k / 2 <= i && i + (k + 1) / 2 <= n
  {
  }

  /** The smoothed series: unchanged for k <= 1, else each point the mean of its window. */
  function Smooth(a: seq<real>, k: int): (r: seq<real>)
    ensures |r| == |a|
  {
    if k <= 1 then a
    else seq(|a|, i requires 0 <= i < |a| => Mean(a[WindowStart(i, k)..WindowEnd(|a|, i, k)]))
  }

  /**
   * What `smoothArray` computes: for k <= 1 the series itself; otherwise
   * point i is the mean of an in-bounds window around i of at most k points.
   */
  lemma SmoothSpec(a: seq<real>, k: int)
    ensures k <= 1 ==> Smooth(a, k) == a
    ensures k > 1 ==> forall i :: 0 <= i < |a| ==>
      var lo, hi := WindowStart(i, k), WindowEnd(|a|, i, k);
      && 0 <= lo <= i < hi <= |a| && hi - lo <= k
      && Smooth(a, k)[i] == Mean(a[lo..hi])
  {
    if k > 1 {
      forall i | 0 <= i < |a|
        ensures 0 <= WindowStart(i, k) <= i < WindowEnd(|a|, i, k) <= |a|
      {
        WindowFacts(|a|, i, k);
      }
    }
  }

  /** Smoothing keeps every point within any bounds the raw series respects. */
  lemma SmoothBounds(a: seq<real>, k: int, lo: real, hi: real)
    requires forall i :: 0 <= i < |a| ==> lo <= a[i] <= hi
    ensures forall i :: 0 <= i < |a| ==> lo <= Smooth(a, k)[i] <= hi
  {
    if k > 1 {
      forall i | 0 <= i < |a|
        ensures lo <= Smooth(a, k)[i] <= hi
      {
        var s, e := WindowStart(i, k), WindowEnd(|a|, i, k);
        WindowFacts(|a|, i, k);
        MeanBounds(a[s..e], lo, hi);
      }
    }
  }

  /** A constant series is a fixed point of smoothing, whatever the width. */
  lemma SmoothConstant(a: seq<real>, k: int, c: real)
    requires forall i :: 0 <= i < |a| ==> a[i] == c
    ensures Smooth(a, k) == a
  {
    SmoothBounds(a, k, c, c);
  }

  /** No point is below an earlier one. */
  predicate NonDecreasing(s: seq<real>)
  {
    forall i, j :: 0 <= i <= j < |s| ==> s[i] <= s[j]
  }

  /** Smoothing a non-decreasing series gives a non-decreasing series, whatever the width. */
  lemma SmoothMonotone(s: seq<real>, k: int)
    requires NonDecreasing(s)
    ensures NonDecreasing(Smooth(s, k))
  {
    if k > 1 {
      var r := Smooth(s, k);
      forall i, j | 0 <= i < j < |s|
        ensures r[i] <= r[j]
      {
        WindowFacts(|s|, i, k);
        WindowFacts(|s|, j, k);
        MeanSlidesUp(s, WindowStart(i, k), WindowEnd(|s|, i, k), WindowStart(j, k), WindowEnd(|s|, j, k));
      }
    }
  }

  /**
   * Both window ends move right (or stay), so over a non-decreasing series
   * the mean of the later window is no smaller.
   */
  lemma {:induction false} MeanSlidesUp(s: seq<real>, lo1: int, hi1: int, lo2: int, hi2: int)
    requires NonDecreasing(s)
    requires 0 <= lo1 <= lo2 < hi2 <= |s| && lo1 < hi1 <= hi2
    ensures Mean(s[lo1..hi1]) <= Mean(s[lo2..hi2])
    decreases (hi2 - hi1) + (lo2 - lo1)
  {
    if hi1 < hi2 {
      MeanExtendRight(s, lo1, hi1);
      MeanSlidesUp(s, lo1, hi1 + 1, lo2, hi2);
    } else if lo1 < lo2 {
      MeanDropLeft(s, lo1, hi1);
      MeanSlidesUp(s, lo1 + 1, hi1, lo2, hi2);
    }
  }

  /** Taking in the next point, which is at least every point before it, does not lower the mean. */
  lemma MeanExtendRight(s: seq<real>, lo: int, hi: int)
    requires NonDecreasing(s) && 0 <= lo < hi < |s|
    ensures Mean(s[lo..hi]) <= Mean(s[lo..hi + 1])
  {
    var w := s[lo..hi];
    assert s[lo..hi + 1][..hi - lo] == w;
    MeanBounds(w, s[lo], s[hi]);
    MeanGrows(Sum(w), (hi - lo) as real, s[hi]);
  }

  /** Leaving out the first point, which is at most every point after it, does not lower the mean. */
  lemma MeanDropLeft(s: seq<real>, lo: int, hi: int)
    requires NonDecreasing(s) && 0 <= lo && lo + 1 < hi <= |s|
    ensures Mean(s[lo..hi]) <= Mean(s[lo + 1..hi])
  {
    var w := s[lo + 1..hi];
    assert s[lo..hi] == [s[lo]] + w;
    SumConcat([s[lo]], w);
    assert Sum([s[lo]]) == s[lo] by { assert [s[lo]][..0] == []; }
    MeanBounds(w, s[lo], s[hi - 1]);
    MeanShrinks(Sum(w), (hi - lo - 1) as real, s[lo]);
  }

  /** The sum of a concatenation is the sum of the parts. */
  lemma {:induction false} SumConcat(a: seq<real>, b: seq<real>)
    ensures Sum(a + b) == Sum(a) + Sum(b)
    decreases |b|
  {
    if b == [] {
      assert a + b == a;
    } else {
      var n := |b| - 1;
      SumConcat(a, b[..n]);
      assert (a + b)[..|a + b| - 1] == a + b[..n];
    }
  }

  lemma MeanGrows(t: real, n: real, v: real)
    requires n > 0.0 && t / n <= v
    ensures t / n <= (t + v) / (n + 1.0)
  {
    var m := t / n;
    assert t == m * n;
    assert m * (n + 1.0) <= t + v;
  }

  lemma MeanShrinks(t: real, n: real, v: real)
    requires n > 0.0 && v <= t / n
    ensures (v + t) / (n + 1.0) <= t / n
  {
    var m := t / n;
    assert t == m * n;
    assert v + t <= m * (n + 1.0);
  }

  // ---------------------------------------------------------------------
  // Cumulative mode: `series.reduce((acc, val, i) => [...acc, val + (acc[i - 1] || 0)], [])`
  // ---------------------------------------------------------------------

  /** `acc[i - 1] || 0` where i == |acc|: the running total so far, 0 before the first point. */
  function Last(acc: seq<real>): real
  {
    if acc == [] then 0.0 else acc[|acc| - 1]
  }

  /** The running sum: point i totals the raw points 0..i. */
  function Cumulative(s: seq<real>): (r: seq<real>)
    ensures |r| == |s|
    ensures forall i :: 0 <= i < |s| ==> r[i] == Sum(s[..i + 1])
  {
    if s == [] then []
    else
      var n := |s| - 1;
      var p := Cumulative(s[..n]);
      assert forall m :: 0 < m <= n ==> s[..n][..m] == s[..m];
      assert s[..n + 1] == s;
      p + [s[n] + Last(p)]
  }

  /** The recurrence the reduce implements: out[0] = raw[0], out[i] = out[i-1] + raw[i]. */
  lemma CumulativeStep(s: seq<real>)
    ensures |s| > 0 ==> Cumulative(s)[0] == s[0]
    ensures forall i :: 0 < i < |s| ==> Cumulative(s)[i] == Cumulative(s)[i - 1] + s[i]
  {
    if |s| > 0 {
      CumulativeFirst(s);
    }
    forall i | 0 < i < |s|
      ensures Cumulative(s)[i] == Cumulative(s)[i - 1] + s[i]
    {
      CumulativeNext(s, i);
    }
  }

  lemma CumulativeFirst(s: seq<real>)
    requires |s| > 0
    ensures Cumulative(s)[0] == s[0]
  {
    var t := s[..1];
    assert Cumulative(s)[0] == Sum(t);
    assert t[..0] == [];
  }

  lemma CumulativeNext(s: seq<real>, i: int)
    requires 0 < i < |s|
    ensures Cumulative(s)[i] == Cumulative(s)[i - 1] + s[i]
  {
    var t := s[..i + 1];
    assert Cumulative(s)[i] == Sum(t);
    assert Cumulative(s)[i - 1] == Sum(s[..i]);
    assert t[..i] == s[..i];
  }

  /** With non-negative counts the cumulative series never decreases. */
  lemma CumulativeMonotone(s: seq<real>)
    requires forall i :: 0 <= i < |s| ==> 0.0 <= s[i]
    ensures forall i, j :: 0 <= i <= j < |s| ==> Cumulative(s)[i] <= Cumulative(s)[j]
  {
    CumulativeStep(s);
    var r := Cumulative(s);
    forall i, j | 0 <= i <= j < |s|
      ensures r[i] <= r[j]
    {
      var m := i;
      while m < j
        invariant i <= m <= j && r[i] <= r[m]
      {
        m := m + 1;
      }
    }
  }

  // ---------------------------------------------------------------------
  // Cohort mode: each day's value as a share of that day's total
  // ---------------------------------------------------------------------

  /** Every series has exactly n points (one per axis date). */
  predicate Rect(rows: seq<seq<real>>, n: int)
  {
    forall j :: 0 <= j < |rows| ==> |rows[j]| == n
  }

  /** Day i across all series. */
  function Column(rows: seq<seq<real>>, n: nat, i: int): (c: seq<real>)
    requires Rect(rows, n) && 0 <= i < n
    ensures |c| == |rows|
  {
    seq(|rows|, j requires 0 <= j < |rows| => rows[j][i])
  }

  /** `totals[i] ? val / totals[i] : 0`: a zero total yields zero. */
  function Share(v: real, total: real): real
  {
    if total != 0.0 then v / total else 0.0
  }

  /** The cohort transform: `totals[i]` is the sum of day i over all series. */
  function Cohort(rows: seq<seq<real>>, n: nat): (r: seq<seq<real>>)
    requires Rect(rows, n)
    ensures |r| == |rows| && Rect(r, n)
  {
    seq(|rows|, j requires 0 <= j < |rows| =>
      seq(n, i requires 0 <= i < n => Share(rows[j][i], Sum(Column(rows, n, i)))))
  }

  /** `s` divided through by t. */
  function Scaled(s: seq<real>, t: real): (r: seq<real>)
    requires t != 0.0
    ensures |r| == |s|
  {
    seq(|s|, j requires 0 <= j < |s| => s[j] / t)
  }

  lemma {:induction false} SumScaled(s: seq<real>, t: real)
    requires t != 0.0
    ensures Sum(Scaled(s, t)) == Sum(s) / t
  {
    if s != [] {
      var n := |s| - 1;
      SumScaled(s[..n], t);
      assert Scaled(s, t)[..n] == Scaled(s[..n], t);
      DivideSum(Sum(s[..n]), s[n], t);
    }
  }

  lemma DivideSum(a: real, b: real, t: real)
    requires t != 0.0
    ensures a / t + b / t == (a + b) / t
  {
  }

  /**
   * On a day with a non-zero total the shares of all words sum to 1; on a
   * day whose total is zero every share is 0.
   */
  lemma CohortShares(rows: seq<seq<real>>, n: nat, i: int)
    requires Rect(rows, n) && 0 <= i < n
    ensures Sum(Column(rows, n, i)) != 0.0 ==> Sum(Column(Cohort(rows, n), n, i)) == 1.0
    ensures Sum(Column(rows, n, i)) == 0.0 ==> forall j :: 0 <= j < |rows| ==> Cohort(rows, n)[j][i] == 0.0
  {
    if Sum(Column(rows, n, i)) != 0.0 {
      SharesSumToOne(rows, n, i);
    }
  }

  lemma SharesSumToOne(rows: seq<seq<real>>, n: nat, i: int)
    requires Rect(rows, n) && 0 <= i < n
    requires Sum(Column(rows, n, i)) != 0.0
    ensures Sum(Column(Cohort(rows, n), n, i)) == 1.0
  {
    var c := Column(rows, n, i);
    var t := Sum(c);
    assert Column(Cohort(rows, n), n, i) == Scaled(c, t);
    SumScaled(c, t);
    assert t / t == 1.0;
  }

  /** With non-negative counts every share lies in [0, 1]. */
  lemma CohortUnitInterval(rows: seq<seq<real>>, n: nat)
    requires Rect(rows, n)
    requires forall j, i :: 0 <= j < |rows| && 0 <= i < n ==> 0.0 <= rows[j][i]
    ensures forall j, i :: 0 <= j < |rows| && 0 <= i < n ==> 0.0 <= Cohort(rows, n)[j][i] <= 1.0
  {
    forall j, i | 0 <= j < |rows| && 0 <= i < n
      ensures 0.0 <= Cohort(rows, n)[j][i] <= 1.0
    {
      var c := Column(rows, n, i);
      SumDominates(c, j);
      if Sum(c) != 0.0 {
        DivideBounds(c[j], Sum(c), 0.0, 1.0);
      }
    }
  }

  // ---------------------------------------------------------------------
  // Mode selection and smoothing of all series
  // ---------------------------------------------------------------------

  /** The `if (cohortMode) … else if (cum) …` choice: cohort takes precedence over cumulative. */
  function Aggregate(rows: seq<seq<real>>, n: nat, cum: bool, cohortMode: bool): (r: seq<seq<real>>)
    requires Rect(rows, n)
    ensures |r| == |rows| && Rect(r, n)
  {
    if cohortMode then Cohort(rows, n)
    else if cum then seq(|rows|, j requires 0 <= j < |rows| => Cumulative(rows[j]))
    else rows
  }

  /** `allY.map(series => smoothArray(series, smoothing))` after the mode transform. */
  function Transform(rows: seq<seq<real>>, n: nat, cum: bool, smoothing: int, cohortMode: bool): (r: seq<seq<real>>)
    requires Rect(rows, n)
    ensures |r| == |rows| && Rect(r, n)
  {
    var agg := Aggregate(rows, n, cum, cohortMode);
    seq(|agg|, j requires 0 <= j < |agg| => Smooth(agg[j], smoothing))
  }
}
