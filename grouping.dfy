/**
 * The nested count object `grouped` that every variant of the client builds
 * from the response: word -> (date key -> count), the words in the order the
 * object first received them. Also the zero-fill that makes the table total
 * over (queried words x day axis).
 */
module Grouping {
  import opened Text

  /** One `[key, count]` pair of `Object.entries(json)`; the key reads "<word> <date>". */
  datatype Entry = Entry(key: string, count: int)

  /**
   * The object `grouped`: its own keys in insertion order (`Object.entries`
   * order) and, per word, the date-to-count object (whose key order is
   * never observed, so a map).
   */
  datatype CountTable = CountTable(words: seq<string>, counts: map<string, map<string, int>>)
  {
    ghost predicate Valid()
    {
      && (forall i, j :: 0 <= i < j < |words| ==> words[i] != words[j])
      && (forall w :: w in counts <==> w in words)
    }
  }

  const Empty: CountTable := CountTable([], map[])

  /** `if (!grouped[w]) grouped[w] = {}` */
  function AddWord(g: CountTable, w: string): (r: CountTable)
    ensures w in r.counts
  {
    if w in g.counts then g else CountTable(g.words + [w], g.counts[w := map[]])
  }

  /** `grouped[w][date] = count` */
  function SetCount(g: CountTable, w: string, date: string, count: int): CountTable
    requires w in g.counts
  {
    CountTable(g.words, g.counts[w := g.counts[w][date := count]])
  }

  /** The date object of `w`, empty when `w` has none. */
  function Row(g: CountTable, w: string): map<string, int>
  {
    if w in g.counts then g.counts[w] else map[]
  }

  /** `counts[date] || 0`: an absent count reads as zero. */
  function CountAt(g: CountTable, w: string, date: string): int
  {
    if w in g.counts && date in g.counts[w] then g.counts[w][date] else 0
  }

  // ---------------------------------------------------------------------
  // Grouping the response
  // ---------------------------------------------------------------------

  /** The `forEach` over the response entries, as a fold over its prefixes. */
  function Group(response: seq<Entry>): CountTable
  {
    if response == [] then Empty
    else
      var e := response[|response| - 1];
      Store(Group(response[..|response| - 1]), e)
  }

  /** One step of the loop: create the word's object if needed, then store the entry's count. */
  function Store(g: CountTable, e: Entry): CountTable
  {
    SetCount(AddWord(g, WordOf(e)), WordOf(e), DateOf(e), e.count)
  }

  /** A store adds exactly the entry's (word, date) pair and changes no other count. */
  lemma StoreEffect(g: CountTable, e: Entry)
    ensures var r := Store(g, e);
      && WordOf(e) in r.counts && DateOf(e) in r.counts[WordOf(e)]
      && r.counts[WordOf(e)][DateOf(e)] == e.count
      && (forall w, d :: w in r.counts && d in r.counts[w] <==>
            (w == WordOf(e) && d == DateOf(e)) || (w in g.counts && d in g.counts[w]))
      && (forall w, d :: w in g.counts && d in g.counts[w] && !(w == WordOf(e) && d == DateOf(e)) ==>
            r.counts[w][d] == g.counts[w][d])
  {
  }

  /** The word of a response key. */
  function WordOf(e: Entry): string { SplitKey(e.key).0 }

  /** The date of a response key. */
  function DateOf(e: Entry): string { SplitKey(e.key).1 }

  /**
   * `s` without repetitions, each element where it first occurs: the same
   * elements, each once, ordered by the position of their first
   * occurrence (the key order of an object filled from `s`).
   */
  function FirstOccurrences(s: seq<string>): (r: seq<string>)
    ensures forall x :: x in r <==> x in s
    ensures forall i, j :: 0 <= i < j < |r| ==> r[i] != r[j]
    ensures forall i, j :: 0 <= i < j < |r| ==> FirstIndex(s, r[i]) < FirstIndex(s, r[j])
    ensures |s| > 0 ==> |r| > 0 && r[0] == s[0]
  {
    if s == [] then []
    else
      var n := |s| - 1;
      var p := FirstOccurrences(s[..n]);
      var x := s[n];
      assert forall y :: y in s <==> y in s[..n] || y == x;
      PrefixIndices(s, n, p);
      if x in p then p else p + [x]
  }

  function Words(response: seq<Entry>): (r: seq<string>)
    ensures |r| == |response| && forall i :: 0 <= i < |r| ==> r[i] == WordOf(response[i])
  {
    seq(|response|, i requires 0 <= i < |response| => WordOf(response[i]))
  }

  /** The table holds a count for (w, date). */
  predicate Has(g: CountTable, w: string, date: string)
  {
    w in g.counts && date in g.counts[w]
  }

  /** Some response key splits to (w, date). */
  ghost predicate Sent(response: seq<Entry>, w: string, date: string)
  {
    exists i :: 0 <= i < |response| && WordOf(response[i]) == w && DateOf(response[i]) == date
  }

  /** Among the entries that split to (w, date), entry `i` is the last one. */
  ghost predicate LastFor(response: seq<Entry>, i: int, w: string, date: string)
  {
    && 0 <= i < |response|
    && WordOf(response[i]) == w && DateOf(response[i]) == date
    && forall j :: i < j < |response| ==> !(WordOf(response[j]) == w && DateOf(response[j]) == date)
  }

  /**
   * What grouping stores: the words are the first tokens of the response
   * keys, in order of first appearance; (w, date) holds a count exactly
   * when some key splits to (w, date), and that count is the one of the
   * LAST such entry (a later equal key overwrites an earlier one).
   */
  lemma GroupSpec(response: seq<Entry>)
    ensures var g := Group(response);
      && g.Valid()
      && g.words == FirstOccurrences(Words(response))
      && (forall w, date :: Has(g, w, date) <==> Sent(response, w, date))
      && (forall w, date :: Has(g, w, date) ==> LastWritten(response, g, w, date))
  {
    GroupWordOrder(response);
    GroupDomain(response);
    GroupLastWriter(response);
  }

  lemma {:induction false} GroupWordOrder(response: seq<Entry>)
    ensures Group(response).Valid()
    ensures Group(response).words == FirstOccurrences(Words(response))
  {
    if response != [] {
      var n := |response| - 1;
      var prefix := response[..n];
      GroupWordOrder(prefix);
      assert Words(response)[..n] == Words(prefix);
    }
  }

  lemma {:induction false} GroupDomain(response: seq<Entry>)
    ensures forall w, date :: Has(Group(response), w, date) <==> Sent(response, w, date)
  {
    if response != [] {
      var n := |response| - 1;
      var prefix := response[..n];
      var e := response[n];
      GroupDomain(prefix);
      assert response == prefix + [e];
      forall w, date
        ensures Has(Group(response), w, date) <==> Sent(response, w, date)
      {
        DomainStep(prefix, Group(prefix), e, w, date);
      }
    }
  }

  /** One store keeps "a pair holds a count iff some entry splits to it", for one pair. */
  lemma DomainStep(prefix: seq<Entry>, p: CountTable, e: Entry, w: string, date: string)
    requires Has(p, w, date) <==> Sent(prefix, w, date)
    ensures Has(Store(p, e), w, date) <==> Sent(prefix + [e], w, date)
  {
    var response := prefix + [e];
    var n := |prefix|;
    StoreEffect(p, e);
    if Sent(prefix, w, date) {
      var i :| 0 <= i < |prefix| && WordOf(prefix[i]) == w && DateOf(prefix[i]) == date;
      assert response[i] == prefix[i];
    }
    if w == WordOf(e) && date == DateOf(e) {
      assert response[n] == e;
    }
    if Sent(response, w, date) {
      var i :| 0 <= i < |response| && WordOf(response[i]) == w && DateOf(response[i]) == date;
      if i < n {
        assert prefix[i] == response[i];
      }
    }
  }

  /** The count stored for (w, date) is that of the last entry splitting to (w, date). */
  ghost predicate LastWritten(response: seq<Entry>, g: CountTable, w: string, date: string)
    requires Has(g, w, date)
  {
    exists i :: LastFor(response, i, w, date) && g.counts[w][date] == response[i].count
  }

  lemma {:induction false} GroupLastWriter(response: seq<Entry>)
    ensures forall w, date :: Has(Group(response), w, date) ==> LastWritten(response, Group(response), w, date)
  {
    if response != [] {
      var n := |response| - 1;
      var prefix := response[..n];
      var e := response[n];
      GroupLastWriter(prefix);
      var p := Group(prefix);
      assert response == prefix + [e];
      forall w, date | Has(Group(response), w, date)
        ensures LastWritten(response, Group(response), w, date)
      {
        LastWriterStep(prefix, p, e, w, date);
      }
    }
  }

  /** One store keeps "each count is its pair's last entry", for one pair. */
  lemma LastWriterStep(prefix: seq<Entry>, p: CountTable, e: Entry, w: string, date: string)
    requires Has(p, w, date) ==> LastWritten(prefix, p, w, date)
    requires Has(Store(p, e), w, date)
    ensures LastWritten(prefix + [e], Store(p, e), w, date)
  {
    var response := prefix + [e];
    var n := |prefix|;
    var g := Store(p, e);
    StoreEffect(p, e);
    if w == WordOf(e) && date == DateOf(e) {
      assert response[n] == e;
      assert LastFor(response, n, w, date);
    } else {
      assert Has(p, w, date);
      var i :| LastFor(prefix, i, w, date) && p.counts[w][date] == prefix[i].count;
      assert response[i] == prefix[i];
      assert LastFor(response, i, w, date);
    }
  }

  /** Every response word is a key of the grouped object, and nothing else is. */
  lemma GroupWordsAreFirstTokens(response: seq<Entry>)
    ensures forall w :: w in Group(response).counts <==>
      exists i :: 0 <= i < |response| && Token(response[i].key) == w
  {
    GroupSpec(response);
    var g := Group(response);
    forall w
      ensures w in g.counts <==> exists i :: 0 <= i < |response| && Token(response[i].key) == w
    {
      if w in g.counts {
        assert w in Words(response);
        var i :| 0 <= i < |response| && Words(response)[i] == w;
      }
      if exists i :: 0 <= i < |response| && Token(response[i].key) == w {
        var i :| 0 <= i < |response| && Token(response[i].key) == w;
        assert Words(response)[i] == w;
      }
    }
  }

  /** Every entry of the response leaves a count under its own word and date. */
  lemma GroupHoldsEveryEntry(response: seq<Entry>)
    ensures forall i :: 0 <= i < |response| ==> Has(Group(response), WordOf(response[i]), DateOf(response[i]))
  {
    GroupDomain(response);
    forall i | 0 <= i < |response|
      ensures Has(Group(response), WordOf(response[i]), DateOf(response[i]))
    {
      assert Sent(response, WordOf(response[i]), DateOf(response[i]));
    }
  }

  /**
   * The `Object.entries(json).forEach` loop: split each key, create the
   * word's object on first sight, store the count.
   */
  method GroupResponse(response: seq<Entry>) returns (grouped: CountTable)
    ensures grouped == Group(response) && grouped.Valid()
    ensures grouped.words == FirstOccurrences(Words(response))
    ensures forall w, date :: Has(grouped, w, date) ==> LastWritten(response, grouped, w, date)
    ensures forall i :: 0 <= i < |response| ==> Has(grouped, WordOf(response[i]), DateOf(response[i]))
  {
    grouped := CountTable([], map[]);
    var i := 0;
    while i < |response|
      invariant 0 <= i <= |response|
      invariant grouped == Group(response[..i])
    {
      var (w, date) := SplitKey(response[i].key);
      if w !in grouped.counts {
        grouped := CountTable(grouped.words + [w], grouped.counts[w := map[]]);
      }
      grouped := CountTable(grouped.words, grouped.counts[w := grouped.counts[w][date := response[i].count]]);
      assert response[..i + 1][..i] == response[..i];
      i := i + 1;
    }
    assert response[..i] == response;
    GroupSpec(response);
    GroupHoldsEveryEntry(response);
  }

  // ---------------------------------------------------------------------
  // Zero-filling the queried words over the day axis
  // ---------------------------------------------------------------------

  /** A date object completed with a zero for every axis date it lacks. */
  function Filled(m: map<string, int>, dates: seq<string>): map<string, int>
  {
    map d | d in m.Keys + Elems(dates) :: if d in m then m[d] else 0
  }

  /** The `dateRange.forEach` over one word: insert 0 where the date is missing. */
  function FillDates(g: CountTable, w: string, dates: seq<string>): CountTable
    requires w in g.counts
  {
    CountTable(g.words, g.counts[w := Filled(g.counts[w], dates)])
  }

  /** Filling one more date adds it with a zero when it is missing and changes nothing else. */
  lemma FilledStep(m: map<string, int>, dates: seq<string>, d: string)
    ensures var f := Filled(m, dates);
      Filled(m, dates + [d]) == if d in f then f else f[d := 0]
  {
    assert Elems(dates + [d]) == Elems(dates) + {d};
  }

  /** The `for (const w of words)` loop: add the word if missing, then fill its dates. */
  function Densify(g: CountTable, words: seq<string>, dates: seq<string>): CountTable
  {
    if words == [] then g
    else
      var w := words[|words| - 1];
      FillDates(AddWord(Densify(g, words[..|words| - 1], dates), w), w, dates)
  }

  /** The words of `extra` not yet in `s`, appended in order of first occurrence. */
  function Append(s: seq<string>, extra: seq<string>): seq<string>
  {
    if extra == [] then s
    else
      var p := Append(s, extra[..|extra| - 1]);
      var x := extra[|extra| - 1];
      if x in p then p else p + [x]
  }

  /**
   * What appending gives: `s` stays a prefix, the elements are those of
   * both, the appended words are new and each appears once, and they keep
   * the order of their first occurrence in `extra`.
   */
  lemma {:induction false} AppendSpec(s: seq<string>, extra: seq<string>)
    ensures var r := Append(s, extra);
      && |s| <= |r| && r[..|s|] == s
      && (forall x :: x in r <==> x in s || x in extra)
      && (forall i :: |s| <= i < |r| ==> r[i] in extra && r[i] !in s)
      && (forall i, j :: |s| <= i < j < |r| ==> r[i] != r[j])
      && (forall i, j :: |s| <= i < j < |r| ==> FirstIndex(extra, r[i]) < FirstIndex(extra, r[j]))
  {
    if extra != [] {
      var n := |extra| - 1;
      AppendSpec(s, extra[..n]);
      var p := Append(s, extra[..n]);
      var x := extra[n];
      assert forall y :: y in extra <==> y in extra[..n] || y == x;
      forall i | |s| <= i < |p|
        ensures FirstIndex(extra, p[i]) == FirstIndex(extra[..n], p[i]) < n
      {
        FirstIndexPrefix(extra, n, p[i]);
      }
      if x !in p {
        assert (p + [x])[..|s|] == p[..|s|];
      }
    }
  }

  /** Appending words that are all present already changes nothing. */
  lemma AppendCovered(s: seq<string>, extra: seq<string>)
    requires forall x :: x in extra ==> x in s
    ensures Append(s, extra) == s
  {
    AppendSpec(s, extra);
    var r := Append(s, extra);
    assert r == r[..|s|];
  }

  /** Appending to a sequence without repetitions gives one without repetitions. */
  lemma AppendDistinct(s: seq<string>, extra: seq<string>)
    requires forall i, j :: 0 <= i < j < |s| ==> s[i] != s[j]
    ensures var r := Append(s, extra);
      forall i, j :: 0 <= i < j < |r| ==> r[i] != r[j]
  {
    AppendSpec(s, extra);
    var r := Append(s, extra);
    forall i, j | 0 <= i < j < |r|
      ensures r[i] != r[j]
    {
      if j < |s| {
        assert r[i] == s[i] && r[j] == s[j];
      } else if i < |s| {
        assert r[i] == s[i] && r[i] in s;
      }
    }
  }

  lemma FilledTwice(m: map<string, int>, dates: seq<string>)
    ensures Filled(Filled(m, dates), dates) == Filled(m, dates)
  {
  }

  /**
   * After the fill every queried word has a count for every axis date;
   * counts from the response are kept and only missing pairs read 0;
   * response words outside the query keep their object untouched; the word
   * order is the response's, followed by the queried words it lacked.
   */
  lemma DensifySpec(g: CountTable, words: seq<string>, dates: seq<string>)
    requires g.Valid()
    ensures var r := Densify(g, words, dates);
      && r.Valid()
      && r.words == Append(g.words, words)
      && (forall w :: w in r.counts <==> w in g.counts || w in words)
      && (forall w :: w in words ==> r.counts[w] == Filled(Row(g, w), dates))
      && (forall w :: w in g.counts && w !in words ==> r.counts[w] == g.counts[w])
  {
    DensifyWords(g, words, dates);
    DensifyRows(g, words, dates);
  }

  lemma {:induction false} DensifyWords(g: CountTable, words: seq<string>, dates: seq<string>)
    requires g.Valid()
    ensures Densify(g, words, dates).Valid()
    ensures Densify(g, words, dates).words == Append(g.words, words)
    ensures forall w :: w in Densify(g, words, dates).counts <==> w in g.counts || w in words
  {
    if words != [] {
      var n := |words| - 1;
      DensifyWords(g, words[..n], dates);
      assert forall x :: x in words <==> x in words[..n] || x == words[n];
    }
  }

  lemma DensifyRows(g: CountTable, words: seq<string>, dates: seq<string>)
    requires g.Valid()
    ensures var r := Densify(g, words, dates);
      && (forall w :: w in words ==> w in r.counts && r.counts[w] == Filled(Row(g, w), dates))
      && (forall w :: w in g.counts && w !in words ==> w in r.counts && r.counts[w] == g.counts[w])
  {
    DensifyQueried(g, words, dates);
    DensifyOthers(g, words, dates);
  }

  lemma {:induction false} DensifyQueried(g: CountTable, words: seq<string>, dates: seq<string>)
    requires g.Valid()
    ensures var r := Densify(g, words, dates);
      forall w :: w in words ==> w in r.counts && r.counts[w] == Filled(Row(g, w), dates)
  {
    if words != [] {
      var n := |words| - 1;
      var prefix, w := words[..n], words[n];
      DensifyQueried(g, prefix, dates);
      DensifyOthers(g, prefix, dates);
      DensifyWords(g, prefix, dates);
      assert words == prefix + [w];
      QueriedStep(g, Densify(g, prefix, dates), prefix, w, dates);
    }
  }

  /** Filling one more queried word keeps "every queried word holds its filled row". */
  lemma QueriedStep(g: CountTable, p: CountTable, prefix: seq<string>, w: string, dates: seq<string>)
    requires forall x :: x in prefix ==> x in p.counts && p.counts[x] == Filled(Row(g, x), dates)
    requires forall x :: x in g.counts && x !in prefix ==> x in p.counts && p.counts[x] == g.counts[x]
    requires forall x :: x in p.counts <==> x in g.counts || x in prefix
    ensures var r := FillDates(AddWord(p, w), w, dates);
      forall x :: x in prefix + [w] ==> x in r.counts && r.counts[x] == Filled(Row(g, x), dates)
  {
    var a := AddWord(p, w);
    assert forall x :: x in prefix + [w] <==> x in prefix || x == w;
    if w in prefix {
      FilledTwice(Row(g, w), dates);
      assert a.counts[w] == Filled(Row(g, w), dates);
    } else {
      assert a.counts[w] == Row(g, w);
    }
  }

  lemma {:induction false} DensifyOthers(g: CountTable, words: seq<string>, dates: seq<string>)
    requires g.Valid()
    ensures var r := Densify(g, words, dates);
      forall w :: w in g.counts && w !in words ==> w in r.counts && r.counts[w] == g.counts[w]
  {
    if words != [] {
      var n := |words| - 1;
      var prefix := words[..n];
      DensifyOthers(g, prefix, dates);
      assert forall x :: x in words <==> x in prefix || x == words[n];
    }
  }

  /**
   * The fill, pair by pair: every (queried word, axis date) pair is present,
   * every count of the response survives unchanged, and every pair the fill
   * added reads 0.
   */
  lemma DensifyZeros(g: CountTable, words: seq<string>, dates: seq<string>)
    requires g.Valid()
    ensures var r := Densify(g, words, dates);
      && (forall w, d :: w in words && d in dates ==> Has(r, w, d))
      && (forall w, d :: Has(g, w, d) ==> Has(r, w, d) && r.counts[w][d] == g.counts[w][d])
      && (forall w, d :: Has(r, w, d) && !Has(g, w, d) ==> r.counts[w][d] == 0)
  {
    DensifySpec(g, words, dates);
    var r := Densify(g, words, dates);
    forall w, d | w in words && d in dates
      ensures Has(r, w, d)
    {
      assert d in Elems(dates);
    }
    forall w, d | Has(r, w, d) && !Has(g, w, d)
      ensures r.counts[w][d] == 0
    {
    }
  }

  /** The inner `dateRange.forEach`: give `w` a 0 for every axis date it lacks. */
  method FillRow(g: CountTable, w: string, dateRange: seq<string>) returns (filled: CountTable)
    requires w in g.counts
    ensures filled == FillDates(g, w, dateRange)
    ensures forall d :: d in dateRange ==> Has(filled, w, d)
    ensures forall d :: Has(g, w, d) ==> Has(filled, w, d) && filled.counts[w][d] == g.counts[w][d]
    ensures forall d :: Has(filled, w, d) && !Has(g, w, d) ==> filled.counts[w][d] == 0
  {
    filled := g;
    assert Filled(g.counts[w], []) == g.counts[w];
    assert dateRange[..0] == [];
    for j := 0 to |dateRange|
      invariant w in filled.counts
      invariant filled == FillDates(g, w, dateRange[..j])
    {
      var date := dateRange[j];
      assert dateRange[..j + 1] == dateRange[..j] + [date];
      FilledStep(g.counts[w], dateRange[..j], date);
      if date !in filled.counts[w] {
        filled := CountTable(filled.words, filled.counts[w := filled.counts[w][date := 0]]);
      }
    }
    assert dateRange[..|dateRange|] == dateRange;
    forall d | d in dateRange
      ensures Has(filled, w, d)
    {
      assert d in Elems(dateRange);
    }
  }

  /**
   * The fill loops of the fetch: for each queried word create its object if
   * the response had none, then insert 0 for every axis date it lacks.
   */
  method FillZeros(grouped: CountTable, words: seq<string>, dateRange: seq<string>) returns (filled: CountTable)
    requires grouped.Valid()
    ensures filled == Densify(grouped, words, dateRange) && filled.Valid()
    ensures filled.words == Append(grouped.words, words)
    ensures forall w, d :: w in words && d in dateRange ==> Has(filled, w, d)
    ensures forall w, d :: Has(grouped, w, d) ==> Has(filled, w, d) && filled.counts[w][d] == grouped.counts[w][d]
    ensures forall w, d :: Has(filled, w, d) && !Has(grouped, w, d) ==> filled.counts[w][d] == 0
    ensures forall w :: w in grouped.counts && w !in words ==> w in filled.counts && filled.counts[w] == grouped.counts[w]
  {
    filled := grouped;
    for k := 0 to |words|
      invariant filled == Densify(grouped, words[..k], dateRange)
    {
      var w := words[k];
      assert words[..k + 1][..k] == words[..k];
      if w !in filled.counts {
        filled := CountTable(filled.words + [w], filled.counts[w := map[]]);
      }
      filled := FillRow(filled, w, dateRange);
    }
    assert words[..|words|] == words;
    DensifySpec(grouped, words, dateRange);
    DensifyZeros(grouped, words, dateRange);
  }
}
