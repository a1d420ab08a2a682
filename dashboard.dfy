/**
 * The reference component: the state it keeps between renders, the fetch
 * handler after the response has arrived, and the effect that rebuilds the
 * chart when a display option or the colour map changes.
 */
module Dashboard {
  import opened Text
  import opened Calendar
  import opened Grouping
  import opened Colors
  import opened Query
  import opened Datasets

  /** The retained state: `rawGrouped`, `allDates`, the three options, `wordColorMap` and `data`. */
  datatype View = View(
    rawGrouped: Option<CountTable>,
    allDates: seq<string>,
    cumulative: bool,
    smooth: int,
    cohort: bool,
    colorMap: map<string, string>,
    data: Option<Chart>)

  /** The state before any fetch. */
  const Initial: View := View(None, [], false, 1, false, map[], None)

  /**
   * The effect body: with a grouped table and a non-empty axis, rebuild the
   * chart from the retained state; otherwise leave the state alone.
   */
  function Refresh(v: View): (r: View)
    ensures r.rawGrouped == v.rawGrouped && r.allDates == v.allDates && r.colorMap == v.colorMap
    ensures r.cumulative == v.cumulative && r.smooth == v.smooth && r.cohort == v.cohort
  {
    if v.rawGrouped.Some? && |v.allDates| > 0 then
      v.(data := Some(Chart(v.allDates,
        BuildDatasets(v.rawGrouped.value, v.allDates, v.cumulative, v.smooth, v.cohort, v.colorMap))))
    else v
  }

  /** Rebuilding twice gives what rebuilding once gives. */
  lemma RefreshIdempotent(v: View)
    ensures Refresh(Refresh(v)) == Refresh(v)
  {
  }

  /**
   * The fetch handler once the response `json` has arrived: parse the
   * query words, build the day axis, group the response, zero-fill,
   * extend the colour map and build the chart with that map. The chart is
   * built even on an empty axis (one line per grouped word, no points);
   * the effect then leaves it alone.
   */
  method FetchData(v: View, input: string, startDate: Date, endDate: Date, json: seq<Entry>) returns (next: View)
    requires Valid(startDate) && Valid(endDate) && FourDigitYear(startDate) && FourDigitYear(endDate)
    ensures var words := QueryWords(input);
      var axis := AxisKeys(startDate, endDate);
      && next.rawGrouped == Some(Densify(Group(json), words, axis))
      && next.allDates == axis
      && next.colorMap == Assign(words, v.colorMap).colors
      && next.cumulative == v.cumulative && next.smooth == v.smooth && next.cohort == v.cohort
      && next.data.Some? && next.data.value.labels == axis
    ensures next.rawGrouped.Some? && next.rawGrouped.value.Valid()
    ensures forall w, d :: w in QueryWords(input) && d in next.allDates ==> Has(next.rawGrouped.value, w, d)
    ensures var ds := next.data.value.datasets;
      forall idx :: 0 <= idx < |ds| && ds[idx].legend in QueryWords(input) ==>
        ds[idx].borderColor == next.colorMap[ds[idx].legend]
    ensures next.data.value.datasets ==
      BuildDatasets(next.rawGrouped.value, next.allDates, v.cumulative, v.smooth, v.cohort, next.colorMap)
    ensures |next.allDates| > 0 ==> Refresh(next) == next
  {
    var words := QueryWords(input);
    var dateRange := DayRange(startDate, endDate);
    var grouped := GroupResponse(json);
    grouped := FillZeros(grouped, words, dateRange);
    var newColorMap := AssignColors(words, v.colorMap);
    var datasets := FirstRender(grouped, dateRange, v, newColorMap);
    next := v.(rawGrouped := Some(grouped), allDates := dateRange, colorMap := newColorMap,
               data := Some(Chart(dateRange, datasets)));
  }

  // ---------------------------------------------------------------------
  // The first render after a fetch, as the call is written
  // ---------------------------------------------------------------------

  /**
   * `w` names a property an array has besides its indices: `length`, a
   * member of `Array.prototype` or one of `Object.prototype`. Looking it up
   * yields a number or a function, not a colour string.
   */
  predicate IsArrayProperty(w: string)
  {
    || w == "length" || w == "constructor" || w == "at" || w == "concat" || w == "copyWithin"
    || w == "entries" || w == "every" || w == "fill" || w == "filter" || w == "find" || w == "findIndex"
    || w == "findLast" || w == "findLastIndex" || w == "flat" || w == "flatMap" || w == "forEach"
    || w == "includes" || w == "indexOf" || w == "join" || w == "keys" || w == "lastIndexOf" || w == "map"
    || w == "pop" || w == "push" || w == "reduce" || w == "reduceRight" || w == "reverse" || w == "shift"
    || w == "slice" || w == "some" || w == "sort" || w == "splice" || w == "toLocaleString"
    || w == "toReversed" || w == "toSorted" || w == "toSpliced" || w == "toString" || w == "unshift"
    || w == "values" || w == "with" || w == "hasOwnProperty" || w == "isPrototypeOf"
    || w == "propertyIsEnumerable" || w == "valueOf" || w == "__proto__" || w == "__defineGetter__"
    || w == "__defineSetter__" || w == "__lookupGetter__" || w == "__lookupSetter__"
  }

  /**
   * An array passed where an object is expected, as far as its own index
   * keys go: "0", "1", … read as the elements, and no other key is a decimal
   * numeral. Its other properties are those IsArrayProperty names.
   */
  function ArrayAsObject(words: seq<string>): (m: map<string, string>)
    ensures forall k :: k in m ==> k != "" && AllDigits(k)
    ensures forall i :: 0 <= i < |words| ==> Digits(i) in m && m[Digits(i)] == words[i]
  {
    if words == [] then map[]
    else
      var n := |words| - 1;
      var p := ArrayAsObject(words[..n]);
      forall i | 0 <= i < n
        ensures Digits(i) != Digits(n)
      {
        ValueOfDigits(i);
        ValueOfDigits(n);
      }
      p[Digits(n) := words[n]]
  }

  /**
   * The fetch handler's render as written: the seven-argument call passes
   * `words` in the `colorMap` position (and the assigned map as a surplus
   * argument that is ignored).
   */
  function FirstRenderAsWritten(grouped: CountTable, dateRange: seq<string>, v: View, words: seq<string>,
                                newColorMap: map<string, string>): seq<Dataset>
  {
    BuildDatasets(grouped, dateRange, v.cumulative, v.smooth, v.cohort, ArrayAsObject(words))
  }

  /**
   * As written, a line whose word is neither a decimal index nor an array
   * property name falls back to the colour of its position, whatever colour
   * the word was assigned.
   */
  lemma AsWrittenUsesPositions(grouped: CountTable, dateRange: seq<string>, v: View, words: seq<string>,
                               newColorMap: map<string, string>)
    ensures var r := FirstRenderAsWritten(grouped, dateRange, v, words, newColorMap);
      forall idx :: 0 <= idx < |r| && !AllDigits(grouped.words[idx]) && !IsArrayProperty(grouped.words[idx]) ==>
        r[idx].borderColor == PaletteColor(idx)
  {
    DatasetColors(grouped, dateRange, v.cumulative, v.smooth, v.cohort, ArrayAsObject(words));
  }

  /**
   * A concrete fetch: the query "sushi, pizza" on an empty colour map
   * assigns sushi the red and pizza the blue. When the response lists
   * pizza first, the first render as written draws pizza red, and the
   * effect's re-render then turns it blue.
   */
  lemma AsWrittenFirstRenderDisagrees(input: string, json: seq<Entry>, axis: seq<string>)
    requires input == "sushi, pizza" && json == [Entry("pizza 20200101", 3), Entry("sushi 20200101", 5)]
    requires |axis| > 0
    ensures var words := QueryWords(input);
      var grouped := Densify(Group(json), words, axis);
      var chosen := Assign(words, map[]).colors;
      var v := Initial.(rawGrouped := Some(grouped), allDates := axis, colorMap := chosen);
      && |grouped.words| > 0 && grouped.words[0] == "pizza"
      && FirstRenderAsWritten(grouped, axis, v, words, chosen)[0].borderColor == "rgb(255, 99, 132)"
      && Refresh(v).data.value.datasets[0].borderColor == "rgb(54, 162, 235)"
  {
    var words := SushiPizzaWords(input);
    var grouped := PizzaFirst(json, words, axis);
    var chosen := SushiPizzaColors(words);
    var v := Initial.(rawGrouped := Some(grouped), allDates := axis, colorMap := chosen);
    AsWrittenPizzaRed(grouped, axis, v, words, chosen);
    EffectPizzaBlue(grouped, v);
  }

  lemma AsWrittenPizzaRed(grouped: CountTable, axis: seq<string>, v: View, words: seq<string>, chosen: map<string, string>)
    requires |grouped.words| > 0 && grouped.words[0] == "pizza" && words == ["sushi", "pizza"]
    ensures FirstRenderAsWritten(grouped, axis, v, words, chosen)[0].borderColor == "rgb(255, 99, 132)"
  {
    var w := grouped.words[0];
    assert w[0] == 'p' && |w| == 5;
    NotAnArrayProperty(w);
    AsWrittenUsesPositions(grouped, axis, v, words, chosen);
  }

  /** No array property name has five letters and starts with 'p'. */
  lemma NotAnArrayProperty(w: string)
    requires |w| == 5 && w[0] == 'p'
    ensures !IsArrayProperty(w) && !AllDigits(w)
  {
    assert !IsDigit(w[0]);
  }

  lemma EffectPizzaBlue(grouped: CountTable, v: View)
    requires |grouped.words| > 0 && grouped.words[0] == "pizza"
    requires v.rawGrouped == Some(grouped) && |v.allDates| > 0
    requires v.colorMap == map["sushi" := PaletteColor(0), "pizza" := PaletteColor(1)]
    ensures Refresh(v).data.Some? && |Refresh(v).data.value.datasets| > 0
    ensures Refresh(v).data.value.datasets[0].borderColor == "rgb(54, 162, 235)"
  {
    DatasetColors(grouped, v.allDates, v.cumulative, v.smooth, v.cohort, v.colorMap);
  }

  /** The query text "sushi, pizza" holds the words sushi and pizza. */
  lemma SushiPizzaWords(input: string) returns (words: seq<string>)
    requires input == "sushi, pizza"
    ensures words == QueryWords(input) && words == ["sushi", "pizza"]
  {
    words := ["sushi", "pizza"];
    assert JoinWords(words) == input;
    QueryWordsRoundTrip(words);
  }

  /** The response lists pizza first, so after the fill pizza's line comes first. */
  lemma PizzaFirst(json: seq<Entry>, words: seq<string>, axis: seq<string>) returns (grouped: CountTable)
    requires json == [Entry("pizza 20200101", 3), Entry("sushi 20200101", 5)]
    requires words == ["sushi", "pizza"]
    ensures grouped == Densify(Group(json), words, axis)
    ensures grouped.words == ["pizza", "sushi"]
  {
    var g := Group(json);
    GroupPizzaFirst(json);
    DensifySpec(g, words, axis);
    AppendCovered(g.words, words);
    grouped := Densify(g, words, axis);
  }

  lemma GroupPizzaFirst(json: seq<Entry>)
    requires json == [Entry("pizza 20200101", 3), Entry("sushi 20200101", 5)]
    ensures Group(json).Valid() && Group(json).words == ["pizza", "sushi"]
  {
    PizzaSushiKeys(json);
    KeyWord(json[0], "pizza", "20200101");
    KeyWord(json[1], "sushi", "20200101");
    GroupTwoWords(json, "pizza", "sushi");
  }

  lemma PizzaSushiKeys(json: seq<Entry>)
    requires json == [Entry("pizza 20200101", 3), Entry("sushi 20200101", 5)]
    ensures |json| == 2
    ensures json[0].key == "pizza" + " " + "20200101" && json[1].key == "sushi" + " " + "20200101"
    ensures NoSpace("pizza") && NoSpace("sushi") && NoSpace("20200101") && "pizza" != "sushi"
  {
  }

  /** The word of a key "w d" with space-free parts is w. */
  lemma KeyWord(e: Entry, w: string, d: string)
    requires e.key == w + " " + d && NoSpace(w) && NoSpace(d)
    ensures WordOf(e) == w
  {
    SplitJoin(w, d);
  }

  /** Two entries with different words: the grouped words are those two, in response order. */
  lemma GroupTwoWords(json: seq<Entry>, a: string, b: string)
    requires |json| == 2 && WordOf(json[0]) == a && WordOf(json[1]) == b && a != b
    ensures Group(json).Valid() && Group(json).words == [a, b]
  {
    GroupWordOrder(json);
    var ws := Words(json);
    assert ws == [a, b];
    assert ws[..1][..0] == [] && ws[..1] == [a];
    assert FirstOccurrences(ws[..1]) == [a];
  }

  /** On an empty map sushi gets the first palette entry and pizza the second. */
  lemma SushiPizzaColors(words: seq<string>) returns (chosen: map<string, string>)
    requires words == ["sushi", "pizza"]
    ensures chosen == Assign(words, map[]).colors
    ensures chosen == map["sushi" := PaletteColor(0), "pizza" := PaletteColor(1)]
  {
    var none: map<string, string> := map[];
    var s0: seq<string> := [];
    assert Assign(s0, none) == Assignment(none, 0);
    AssignStep(s0, none, "sushi");
    AssignStep(s0 + ["sushi"], none, "pizza");
    assert s0 + ["sushi"] + ["pizza"] == words;
    chosen := Assign(words, none).colors;
  }

  /**
   * The corrected call passes the assigned map: every queried word's line
   * carries its assigned colour from the first render on, so the effect's
   * re-render reproduces it.
   */
  function FirstRender(grouped: CountTable, dateRange: seq<string>, v: View, newColorMap: map<string, string>): (r: seq<Dataset>)
    ensures |r| == |grouped.words|
    ensures forall idx :: 0 <= idx < |r| && HasColor(newColorMap, grouped.words[idx]) ==>
      r[idx].borderColor == newColorMap[grouped.words[idx]]
  {
    DatasetColors(grouped, dateRange, v.cumulative, v.smooth, v.cohort, newColorMap);
    BuildDatasets(grouped, dateRange, v.cumulative, v.smooth, v.cohort, newColorMap)
  }
}
