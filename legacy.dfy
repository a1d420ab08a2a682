/**
 * The older component in `src/App.jsx`: the same grouping and transforms,
 * but the axis is the sorted date keys of the first grouped word (no day
 * range, no zero-fill) and lines are coloured by position only; plus the
 * clamped smoothing-width buttons.
 */
module Legacy {
  import opened Text
  import opened Grouping
  import opened Datasets

  /**
   * `Object.values(grouped)[0] ? Object.keys(Object.values(grouped)[0]).sort() : []`:
   * the first word's date keys in ascending order, or nothing when the
   * table is empty.
   */
  function FirstWordAxis(g: CountTable): seq<string>
  {
    if g.words == [] then [] else SortedStrings(Row(g, g.words[0]).Keys)
  }

  /**
   * The axis of a grouped response: strictly ascending, empty exactly when
   * the response is, and holding exactly the dates that the word of the
   * response's first key carries; a date only other words carry is not on it.
   */
  lemma FirstWordAxisSpec(json: seq<Entry>)
    ensures var axis := FirstWordAxis(Group(json));
      && StrictlyAscending(axis)
      && (axis == [] <==> json == [])
      && (forall d :: d in axis <==> json != [] && Sent(json, WordOf(json[0]), d))
  {
    GroupSpec(json);
    var g := Group(json);
    if json != [] {
      assert Words(json)[0] == WordOf(json[0]);
      var w := g.words[0];
      assert w == WordOf(json[0]);
      assert Has(g, w, DateOf(json[0])) by {
        assert Sent(json, w, DateOf(json[0]));
      }
      forall d
        ensures d in FirstWordAxis(g) <==> Sent(json, w, d)
      {
        assert d in FirstWordAxis(g) <==> Has(g, w, d);
      }
    }
  }

  /**
   * The fetch handler of `src/App.jsx` once the response has arrived: group,
   * take the first word's sorted dates as the axis, build positionally
   * coloured lines.
   */
  method FetchLegacy(json: seq<Entry>, cumulative: bool, smooth: int, cohort: bool) returns (chart: Chart)
    ensures chart.labels == FirstWordAxis(Group(json))
    ensures chart.datasets == BuildDatasetsPositional(Group(json), chart.labels, cumulative, smooth, cohort)
    ensures StrictlyAscending(chart.labels)
    ensures forall d :: d in chart.labels <==> json != [] && Sent(json, WordOf(json[0]), d)
  {
    var grouped := GroupResponse(json);
    var dates: seq<string>;
    if |grouped.words| > 0 {
      dates := SortedStrings(Row(grouped, grouped.words[0]).Keys);
    } else {
      dates := [];
    }
    var datasets := BuildDatasetsPositional(grouped, dates, cumulative, smooth, cohort);
    chart := Chart(dates, datasets);
    FirstWordAxisSpec(json);
  }

  // ---------------------------------------------------------------------
  // The smoothing-width buttons
  // ---------------------------------------------------------------------

  /** The "-" button: `s => Math.max(1, s - 1)`. */
  function SmoothDown(s: int): int
  {
    if s - 1 > 1 then s - 1 else 1
  }

  /** The "+" button: `s => Math.min(31, s + 1)`. */
  function SmoothUp(s: int): int
  {
    if s + 1 < 31 then s + 1 else 31
  }

  /** The width after a sequence of clicks, `true` for "+" and `false` for "-". */
  function AfterClicks(s: int, clicks: seq<bool>): int
  {
    if clicks == [] then s
    else
      var before := AfterClicks(s, clicks[..|clicks| - 1]);
      if clicks[|clicks| - 1] then SmoothUp(before) else SmoothDown(before)
  }

  /**
   * Starting anywhere in [1, 31] (the initial width is 1), no sequence of
   * clicks leaves [1, 31]; each click moves the width by at most one.
   */
  lemma {:induction false} ClicksStayInRange(s: int, clicks: seq<bool>)
    requires 1 <= s <= 31
    ensures 1 <= AfterClicks(s, clicks) <= 31
    ensures clicks != [] ==>
      var before := AfterClicks(s, clicks[..|clicks| - 1]);
      -1 <= AfterClicks(s, clicks) - before <= 1
  {
    if clicks != [] {
      ClicksStayInRange(s, clicks[..|clicks| - 1]);
    }
  }

  /** From the initial width 1, n clicks on "+" (at most thirty) give width 1 + n: thirty clicks reach the maximum of 31. */
  lemma {:induction false} ClicksReachMaximum(n: nat)
    requires n <= 30
    ensures AfterClicks(1, seq(n, _ => true)) == 1 + n
  {
    if n > 0 {
      assert seq(n, _ => true)[..n - 1] == seq(n - 1, _ => true);
      ClicksReachMaximum(n - 1);
    }
  }
}
