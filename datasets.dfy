/**
 * `buildDatasets`: one chart line per word of the grouped object, its
 * values aligned with the date axis (absent counts read 0), transformed by
 * the cohort or cumulative mode, smoothed, and coloured.
 */
module Datasets {
  import opened Grouping
  import opened Series
  import opened Colors

  /** A chart.js line: `label` (here `legend`), `data` and `borderColor`; the constant styling fields are left out. */
  datatype Dataset = Dataset(legend: string, data: seq<real>, borderColor: string)

  /** The chart data: axis labels and lines. */
  datatype Chart = Chart(labels: seq<string>, datasets: seq<Dataset>)

  /** `dates.map(date => counts[date] || 0)` for one word's counts. */
  function Aligned(g: CountTable, w: string, dates: seq<string>): (r: seq<real>)
    ensures |r| == |dates|
  {
    seq(|dates|, i requires 0 <= i < |dates| => CountAt(g, w, dates[i]) as real)
  }

  /** `allY` before any transform: one aligned series per key of `grouped`, in key order. */
  function Raw(g: CountTable, dates: seq<string>): (rows: seq<seq<real>>)
    ensures |rows| == |g.words| && Rect(rows, |dates|)
  {
    seq(|g.words|, j requires 0 <= j < |g.words| => Aligned(g, g.words[j], dates))
  }

  /** `colorMap[w] || colorPalette[idx % colorPalette.length]` */
  function ColorFor(colorMap: map<string, string>, w: string, idx: nat): string
  {
    if HasColor(colorMap, w) then colorMap[w] else PaletteColor(idx)
  }

  /** The datasets of the reference version, coloured from `colorMap` with the position as fallback. */
  function BuildDatasets(g: CountTable, dates: seq<string>, cum: bool, smoothing: int, cohortMode: bool,
                         colorMap: map<string, string>): (r: seq<Dataset>)
    ensures |r| == |g.words|
    ensures forall idx :: 0 <= idx < |r| ==> r[idx].legend == g.words[idx] && |r[idx].data| == |dates|
    ensures forall idx :: 0 <= idx < |r| ==> r[idx].borderColor != ""
  {
    var ys := Transform(Raw(g, dates), |dates|, cum, smoothing, cohortMode);
    seq(|g.words|, idx requires 0 <= idx < |g.words| =>
      Dataset(g.words[idx], ys[idx], ColorFor(colorMap, g.words[idx], idx)))
  }

  /** The datasets of `src/App.jsx`, coloured by position only. */
  function BuildDatasetsPositional(g: CountTable, dates: seq<string>, cum: bool, smoothing: int, cohortMode: bool): (r: seq<Dataset>)
    ensures |r| == |g.words|
  {
    var ys := Transform(Raw(g, dates), |dates|, cum, smoothing, cohortMode);
    seq(|g.words|, idx requires 0 <= idx < |g.words| => Dataset(g.words[idx], ys[idx], PaletteColor(idx)))
  }

  /** The positional variant is the reference one given an empty colour map. */
  lemma PositionalIsEmptyColorMap(g: CountTable, dates: seq<string>, cum: bool, smoothing: int, cohortMode: bool)
    ensures BuildDatasetsPositional(g, dates, cum, smoothing, cohortMode) == BuildDatasets(g, dates, cum, smoothing, cohortMode, map[])
  {
  }

  /** The colour of a line: its truthy entry in the colour map, else the palette entry of its position. */
  lemma DatasetColors(g: CountTable, dates: seq<string>, cum: bool, smoothing: int, cohortMode: bool,
                      colorMap: map<string, string>)
    ensures var r := BuildDatasets(g, dates, cum, smoothing, cohortMode, colorMap);
      forall idx :: 0 <= idx < |r| ==>
        && (HasColor(colorMap, g.words[idx]) ==> r[idx].borderColor == colorMap[g.words[idx]])
        && (!HasColor(colorMap, g.words[idx]) ==> r[idx].borderColor == Palette[idx % 6])
  {
  }

  /** The data of every line, one series per line. */
  function DataRows(ds: seq<Dataset>): (rows: seq<seq<real>>)
    ensures |rows| == |ds|
  {
    seq(|ds|, j requires 0 <= j < |ds| => ds[j].data)
  }

  /** Without mode and smoothing, a line reads the stored counts, and 0 where the word has no count. */
  lemma PlainCounts(g: CountTable, dates: seq<string>, smoothing: int, colorMap: map<string, string>)
    requires smoothing <= 1
    ensures var r := BuildDatasets(g, dates, false, smoothing, false, colorMap);
      forall idx, i :: 0 <= idx < |r| && 0 <= i < |dates| ==>
        && (Has(g, g.words[idx], dates[i]) ==> r[idx].data[i] == g.counts[g.words[idx]][dates[i]] as real)
        && (!Has(g, g.words[idx], dates[i]) ==> r[idx].data[i] == 0.0)
  {
  }

  /**
   * In absolute mode (neither cohort nor cumulative) each line is the
   * smoothed series of the word's aligned counts, for any smoothing width.
   */
  lemma AbsoluteLines(g: CountTable, dates: seq<string>, smoothing: int, colorMap: map<string, string>)
    ensures var r := BuildDatasets(g, dates, false, smoothing, false, colorMap);
      forall idx :: 0 <= idx < |r| ==> r[idx].data == Smooth(Aligned(g, g.words[idx], dates), smoothing)
  {
  }

  /**
   * In cumulative mode (cohort off) each line is the smoothed running total
   * of the word's aligned counts, and never decreases when the counts are
   * non-negative, whatever the smoothing width.
   */
  lemma CumulativeLines(g: CountTable, dates: seq<string>, smoothing: int, colorMap: map<string, string>)
    ensures var r := BuildDatasets(g, dates, true, smoothing, false, colorMap);
      forall idx :: 0 <= idx < |r| ==> r[idx].data == Smooth(Cumulative(Aligned(g, g.words[idx], dates)), smoothing)
    ensures var r := BuildDatasets(g, dates, true, smoothing, false, colorMap);
      (forall w, d :: Has(g, w, d) ==> 0 <= g.counts[w][d]) ==>
        forall idx, i, j :: 0 <= idx < |r| && 0 <= i <= j < |dates| ==> r[idx].data[i] <= r[idx].data[j]
  {
    var r := BuildDatasets(g, dates, true, smoothing, false, colorMap);
    if forall w, d :: Has(g, w, d) ==> 0 <= g.counts[w][d] {
      forall idx | 0 <= idx < |r|
        ensures NonDecreasing(r[idx].data)
      {
        var a := Aligned(g, g.words[idx], dates);
        CumulativeMonotone(a);
        SmoothMonotone(Cumulative(a), smoothing);
      }
    }
  }

  /** Cohort mode takes precedence: the cumulative flag has no effect when it is on. */
  lemma CohortWins(g: CountTable, dates: seq<string>, smoothing: int, colorMap: map<string, string>)
    ensures BuildDatasets(g, dates, true, smoothing, true, colorMap) == BuildDatasets(g, dates, false, smoothing, true, colorMap)
  {
  }

  /**
   * In cohort mode without smoothing, on every day the values of all lines
   * sum to 1 when some word has a non-zero count that day, and are all 0
   * when the day's total is 0.
   */
  lemma CohortDays(g: CountTable, dates: seq<string>, cum: bool, smoothing: int, colorMap: map<string, string>, i: int)
    requires smoothing <= 1 && 0 <= i < |dates|
    ensures var r := BuildDatasets(g, dates, cum, smoothing, true, colorMap);
      var total := Sum(Column(Raw(g, dates), |dates|, i));
      && (total != 0.0 ==> Sum(Column(DataRows(r), |dates|, i)) == 1.0)
      && (total == 0.0 ==> forall idx :: 0 <= idx < |r| ==> r[idx].data[i] == 0.0)
  {
    var n := |dates|;
    var raw := Raw(g, dates);
    var r := BuildDatasets(g, dates, cum, smoothing, true, colorMap);
    assert DataRows(r) == Cohort(raw, n);
    CohortShares(raw, n, i);
  }

  /** With non-negative counts, every cohort value lies in [0, 1], whatever the smoothing width. */
  lemma CohortBounded(g: CountTable, dates: seq<string>, cum: bool, smoothing: int, colorMap: map<string, string>)
    requires forall w, d :: Has(g, w, d) ==> 0 <= g.counts[w][d]
    ensures var r := BuildDatasets(g, dates, cum, smoothing, true, colorMap);
      forall idx, i :: 0 <= idx < |r| && 0 <= i < |dates| ==> 0.0 <= r[idx].data[i] <= 1.0
  {
    var n := |dates|;
    var raw := Raw(g, dates);
    var shares := Cohort(raw, n);
    CohortUnitInterval(raw, n);
    forall idx | 0 <= idx < |g.words|
      ensures forall i :: 0 <= i < n ==> 0.0 <= Smooth(shares[idx], smoothing)[i] <= 1.0
    {
      SmoothBounds(shares[idx], smoothing, 0.0, 1.0);
    }
  }
}
