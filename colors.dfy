/**
 * Line colours: the six-entry palette and `assignColors`, which gives every
 * queried word that has no colour yet the next palette entry, continuing
 * from the number of keys the colour map already holds.
 */
module Colors {
  import opened Text

  /** `colorPalette`: red, blue, yellow, green, purple, orange. */
  const Palette: seq<string> := [
    "rgb(255, 99, 132)",
    "rgb(54, 162, 235)",
    "rgb(255, 206, 86)",
    "rgb(75, 192, 192)",
    "rgb(153, 102, 255)",
    "rgb(255, 159, 64)"
  ]

  /** `colorPalette[idx % colorPalette.length]` for a non-negative counter or position. */
  function PaletteColor(idx: nat): (c: string)
    ensures c != ""
  {
    Palette[idx % |Palette|]
  }

  /** The palette entries are pairwise different. */
  lemma PaletteDistinct()
    ensures |Palette| == 6
    ensures forall i, j :: 0 <= i < j < |Palette| ==> Palette[i] != Palette[j]
  {
  }

  /** `map[w]` is truthy: the word is a key and its colour is not the empty string. */
  predicate HasColor(m: map<string, string>, w: string)
  {
    w in m && m[w] != ""
  }

  /** The state of the `forEach`: the map built so far and `colorIndex`. */
  datatype Assignment = Assignment(colors: map<string, string>, next: nat)

  /** `assignColors(words, existingMap)` as a fold over the prefixes of `words`. */
  function Assign(words: seq<string>, existing: map<string, string>): (r: Assignment)
    ensures existing.Keys <= r.colors.Keys
    ensures forall w :: w in words ==> w in r.colors
  {
    if words == [] then Assignment(existing, |existing.Keys|)
    else
      var a := Assign(words[..|words| - 1], existing);
      var w := words[|words| - 1];
      if HasColor(a.colors, w) then a
      else Assignment(a.colors[w := PaletteColor(a.next)], a.next + 1)
  }

  /**
   * The words that receive a fresh colour: those without a truthy colour in
   * the existing map, each once, ordered by their first appearance in
   * `words` (the order in which the `forEach` reaches them).
   */
  function NewWords(words: seq<string>, existing: map<string, string>): (r: seq<string>)
    ensures forall i, j :: 0 <= i < j < |r| ==> r[i] != r[j]
    ensures forall w :: w in r <==> w in words && !HasColor(existing, w)
    ensures forall i, j :: 0 <= i < j < |r| ==> FirstIndex(words, r[i]) < FirstIndex(words, r[j])
  {
    if words == [] then []
    else
      var n := |words| - 1;
      var p := NewWords(words[..n], existing);
      var w := words[n];
      assert forall x :: x in words <==> x in words[..n] || x == w;
      PrefixIndices(words, n, p);
      if HasColor(existing, w) || w in p then p else p + [w]
  }

  /**
   * What `assignColors` returns: the keys are the existing ones plus the
   * words; a word keeps its colour when it already had a truthy one; the
   * j-th new word gets palette entry (|existing| + j) mod 6; every other
   * existing key is untouched; afterwards every word has a truthy colour.
   */
  lemma AssignSpec(words: seq<string>, existing: map<string, string>)
    ensures var a := Assign(words, existing);
      var added := NewWords(words, existing);
      && a.next == |existing.Keys| + |added|
      && (forall w :: w in a.colors <==> w in existing || w in words)
      && (forall j :: 0 <= j < |added| ==> a.colors[added[j]] == PaletteColor(|existing.Keys| + j))
      && (forall w :: w in existing && w !in added ==> a.colors[w] == existing[w])
      && (forall w :: HasColor(a.colors, w) <==> HasColor(existing, w) || w in added)
  {
    AssignCore(words, existing);
    AssignKeys(words, existing);
    AssignAdded(words, existing);
    AssignUntouched(words, existing);
  }

  /** The counter advances once per new word; a word is coloured exactly when it had a colour or is new. */
  lemma {:induction false} AssignCore(words: seq<string>, existing: map<string, string>)
    ensures var a := Assign(words, existing);
      var added := NewWords(words, existing);
      && a.next == |existing.Keys| + |added|
      && (forall w :: HasColor(a.colors, w) <==> HasColor(existing, w) || w in added)
  {
    if words != [] {
      AssignCore(words[..|words| - 1], existing);
    }
  }

  lemma {:induction false} AssignKeys(words: seq<string>, existing: map<string, string>)
    ensures forall w :: w in Assign(words, existing).colors <==> w in existing || w in words
  {
    if words != [] {
      var n := |words| - 1;
      AssignKeys(words[..n], existing);
      assert forall x :: x in words <==> x in words[..n] || x == words[n];
    }
  }

  /** The k-th of `added` is a key of `m` coloured with palette entry `base + k`. */
  predicate PaletteRun(m: map<string, string>, added: seq<string>, base: nat)
  {
    forall k :: 0 <= k < |added| ==> added[k] in m && m[added[k]] == PaletteColor(base + k)
  }

  lemma {:induction false} AssignAdded(words: seq<string>, existing: map<string, string>)
    ensures PaletteRun(Assign(words, existing).colors, NewWords(words, existing), |existing.Keys|)
  {
    if words != [] {
      var n := |words| - 1;
      var prefix, w := words[..n], words[n];
      AssignAdded(prefix, existing);
      AssignCore(prefix, existing);
      AddedStep(Assign(prefix, existing), NewWords(prefix, existing), existing, w);
    }
  }

  /** Colouring one more word keeps "the j-th new word has palette entry |existing| + j". */
  lemma AddedStep(a: Assignment, p: seq<string>, existing: map<string, string>, w: string)
    requires a.next == |existing.Keys| + |p|
    requires forall x :: HasColor(a.colors, x) <==> HasColor(existing, x) || x in p
    requires forall j :: 0 <= j < |p| ==> p[j] in a.colors && a.colors[p[j]] == PaletteColor(|existing.Keys| + j)
    ensures var r := if HasColor(a.colors, w) then a else Assignment(a.colors[w := PaletteColor(a.next)], a.next + 1);
      var added := if HasColor(existing, w) || w in p then p else p + [w];
      forall j :: 0 <= j < |added| ==> added[j] in r.colors && r.colors[added[j]] == PaletteColor(|existing.Keys| + j)
  {
    if !HasColor(a.colors, w) {
      var added := p + [w];
      forall j | 0 <= j < |added|
        ensures added[j] in a.colors[w := PaletteColor(a.next)]
        ensures a.colors[w := PaletteColor(a.next)][added[j]] == PaletteColor(|existing.Keys| + j)
      {
        if j < |p| {
          assert added[j] == p[j] && HasColor(a.colors, p[j]);
        }
      }
    }
  }

  lemma {:induction false} AssignUntouched(words: seq<string>, existing: map<string, string>)
    ensures var a := Assign(words, existing);
      forall w :: w in existing && w !in NewWords(words, existing) ==> a.colors[w] == existing[w]
  {
    if words != [] {
      var n := |words| - 1;
      AssignUntouched(words[..n], existing);
      AssignCore(words[..n], existing);
    }
  }

  /** Every queried word ends up with a truthy colour. */
  lemma AssignCoversWords(words: seq<string>, existing: map<string, string>)
    ensures forall w :: w in words ==> HasColor(Assign(words, existing).colors, w)
  {
    AssignSpec(words, existing);
  }

  /**
   * The `assignColors` loop: copy the existing map, start `colorIndex` at
   * its key count, and colour each word whose colour is not truthy.
   */
  method AssignColors(words: seq<string>, existingMap: map<string, string>) returns (newMap: map<string, string>)
    ensures newMap == Assign(words, existingMap).colors
    ensures forall w :: w in newMap <==> w in existingMap || w in words
    ensures forall w :: HasColor(existingMap, w) ==> newMap[w] == existingMap[w]
    ensures forall w :: w in words ==> HasColor(newMap, w)
    ensures var added := NewWords(words, existingMap);
      forall j :: 0 <= j < |added| ==> newMap[added[j]] == PaletteColor(|existingMap.Keys| + j)
  {
    newMap := existingMap;
    var colorIndex: nat := |existingMap.Keys|;
    for i := 0 to |words|
      invariant Assign(words[..i], existingMap) == Assignment(newMap, colorIndex)
    {
      var w := words[i];
      assert words[..i + 1][..i] == words[..i];
      if !(w in newMap && newMap[w] != "") {
        newMap := newMap[w := Palette[colorIndex % |Palette|]];
        colorIndex := colorIndex + 1;
      }
    }
    assert words[..|words|] == words;
    AssignSpec(words, existingMap);
  }

  /** Assigning the same words again changes nothing: every one of them already has a colour. */
  lemma AssignIdempotent(words: seq<string>, existing: map<string, string>)
    ensures var m := Assign(words, existing).colors;
      Assign(words, m).colors == m
  {
    var m := Assign(words, existing).colors;
    AssignCoversWords(words, existing);
    AssignSpec(words, m);
    NewWordsNone(words, m);
  }

  lemma {:induction false} NewWordsNone(words: seq<string>, existing: map<string, string>)
    requires forall w :: w in words ==> HasColor(existing, w)
    ensures NewWords(words, existing) == []
  {
    if words != [] {
      NewWordsNone(words[..|words| - 1], existing);
    }
  }

  /** Up to six consecutive new words get pairwise different colours. */
  lemma NewColorsDistinct(words: seq<string>, existing: map<string, string>)
    ensures var a := Assign(words, existing);
      var added := NewWords(words, existing);
      forall i, j :: 0 <= i < j < |added| && j - i < 6 ==> a.colors[added[i]] != a.colors[added[j]]
  {
    AssignAdded(words, existing);
    SpacedColorsDiffer(Assign(words, existing).colors, NewWords(words, existing), |existing.Keys|);
  }

  /** Keys coloured with consecutive palette entries from `base` differ when fewer than six apart. */
  lemma SpacedColorsDiffer(m: map<string, string>, added: seq<string>, base: nat)
    requires PaletteRun(m, added, base)
    ensures forall i, j :: 0 <= i < j < |added| && j - i < 6 ==> m[added[i]] != m[added[j]]
  {
    forall i, j | 0 <= i < j < |added| && j - i < 6
      ensures m[added[i]] != m[added[j]]
    {
      PaletteColorsDiffer(base + i, base + j);
    }
  }

  /** Fewer than six steps apart, two counter values pick different palette entries. */
  lemma PaletteColorsDiffer(x: nat, y: nat)
    requires x < y < x + 6
    ensures PaletteColor(x) != PaletteColor(y)
  {
    PaletteDistinct();
    var i, j := x % 6, y % 6;
    assert i != j;
    if i < j {
      assert Palette[i] != Palette[j];
    } else {
      assert Palette[j] != Palette[i];
    }
  }

  /** Colours are never released: the seventh new word shares the colour of the first. */
  lemma NewColorsWrap(words: seq<string>, existing: map<string, string>)
    requires |NewWords(words, existing)| > 6
    ensures var a := Assign(words, existing);
      var added := NewWords(words, existing);
      a.colors[added[0]] == a.colors[added[6]]
  {
    AssignSpec(words, existing);
    var b := |existing.Keys|;
    assert (b + 6) % 6 == b % 6;
  }

  /**
   * Colour stability: when the retained colours are the first |existing|
   * palette entries and the new words fit in the rest of the palette, no
   * new word takes the colour of a word that keeps its own.
   */
  lemma NewColorsAvoidRetained(words: seq<string>, existing: map<string, string>)
    requires |existing.Keys| + |NewWords(words, existing)| <= |Palette|
    requires forall w :: w in existing ==> existing[w] in Palette[..|existing.Keys|]
    ensures var a := Assign(words, existing);
      var added := NewWords(words, existing);
      forall w, x :: w in existing && w !in added && x in added ==> a.colors[w] != a.colors[x]
  {
    AssignAdded(words, existing);
    AssignUntouched(words, existing);
    RunAvoidsRetained(Assign(words, existing).colors, NewWords(words, existing), existing);
  }

  lemma RunAvoidsRetained(m: map<string, string>, added: seq<string>, existing: map<string, string>)
    requires |existing.Keys| + |added| <= |Palette|
    requires PaletteRun(m, added, |existing.Keys|)
    requires existing.Keys <= m.Keys
    requires forall w :: w in existing && w !in added ==> m[w] == existing[w]
    requires forall w :: w in existing ==> existing[w] in Palette[..|existing.Keys|]
    ensures forall w, x :: w in existing && w !in added && x in added ==> m[w] != m[x]
  {
    forall w, x | w in existing && w !in added && x in added
      ensures m[w] != m[x]
    {
      AvoidsOne(m, added, existing, w, x);
    }
  }

  lemma AvoidsOne(m: map<string, string>, added: seq<string>, existing: map<string, string>, w: string, x: string)
    requires |existing.Keys| + |added| <= |Palette|
    requires PaletteRun(m, added, |existing.Keys|)
    requires w in existing && w in m && m[w] == existing[w] && existing[w] in Palette[..|existing.Keys|]
    requires x in added
    ensures m[w] != m[x]
  {
    var n := |existing.Keys|;
    var j :| 0 <= j < |added| && added[j] == x;
    var i := SlotOf(n, existing[w]);
    EarlierSlotDiffers(i, n + j);
  }

  /** A colour among the first n palette entries sits in one of those n slots. */
  lemma SlotOf(n: int, c: string) returns (i: int)
    requires 0 <= n <= |Palette| && c in Palette[..n]
    ensures 0 <= i < n && Palette[i] == c
  {
    i :| 0 <= i < n && Palette[..n][i] == c;
  }

  /** A palette slot below `k` holds another colour than counter value `k`, for `k` below six. */
  lemma EarlierSlotDiffers(i: int, k: int)
    requires 0 <= i < k < |Palette|
    ensures Palette[i] != PaletteColor(k)
  {
    PaletteColorsDiffer(i, k);
  }

  /**
   * Because colours are never released, a retained word and a new word can
   * share a colour with only two words queried: after six words on an empty
   * map (say "a" to "f"), querying the first of them with a new word (say
   * "a, g") gives the new word the colour the first one keeps.
   */
  lemma RetainedCollision(first: seq<string>, g: string)
    requires |first| == 6 && g !in first
    requires forall i, j :: 0 <= i < j < |first| ==> first[i] != first[j]
    ensures var m1 := Assign(first, map[]).colors;
      var m2 := Assign([first[0], g], m1).colors;
      first[0] in m2 && g in m2 && m2[g] == m2[first[0]]
  {
    FirstRound(first);
    SecondRound(Assign(first, map[]).colors, first[0], g);
  }

  /** Six distinct words on an empty map: six keys, the first word coloured with entry 0. */
  lemma FirstRound(first: seq<string>)
    requires |first| == 6
    requires forall i, j :: 0 <= i < j < |first| ==> first[i] != first[j]
    ensures var m1 := Assign(first, map[]).colors;
      && |m1.Keys| == 6 && HasColor(m1, first[0]) && m1[first[0]] == PaletteColor(0)
      && forall w :: w in m1 <==> w in first
  {
    var none: map<string, string> := map[];
    var m1 := Assign(first, none).colors;
    NewWordsAll(first, none);
    AssignAdded(first, none);
    AssignKeys(first, none);
    KeysOfWords(m1, first);
    DistinctCount(first);
  }

  /** A map with six keys: a kept colour x and a new word g then get the same palette entry. */
  lemma SecondRound(m1: map<string, string>, x: string, g: string)
    requires |m1.Keys| == 6 && HasColor(m1, x) && m1[x] == PaletteColor(0) && g !in m1
    ensures var m2 := Assign([x, g], m1).colors;
      x in m2 && g in m2 && m2[g] == m2[x]
  {
    var s0: seq<string> := [];
    assert Assign(s0, m1) == Assignment(m1, 6);
    AssignStep(s0, m1, x);
    AssignStep(s0 + [x], m1, g);
    assert s0 + [x] + [g] == [x, g];
    assert PaletteColor(6) == PaletteColor(0);
  }

  /** One more word: kept when it has a colour, else coloured from the counter, which advances. */
  lemma AssignStep(words: seq<string>, existing: map<string, string>, w: string)
    ensures var a := Assign(words, existing);
      Assign(words + [w], existing) ==
        if HasColor(a.colors, w) then a else Assignment(a.colors[w := PaletteColor(a.next)], a.next + 1)
  {
    assert (words + [w])[..|words|] == words;
  }

  /** Distinct words none of which has a colour are all new, in their own order. */
  lemma {:induction false} NewWordsAll(words: seq<string>, existing: map<string, string>)
    requires forall i, j :: 0 <= i < j < |words| ==> words[i] != words[j]
    requires forall w :: w in words ==> !HasColor(existing, w)
    ensures NewWords(words, existing) == words
  {
    if words != [] {
      var n := |words| - 1;
      NewWordsAll(words[..n], existing);
      assert words[..n] + [words[n]] == words;
    }
  }

  lemma KeysOfWords(m: map<string, string>, s: seq<string>)
    requires forall w :: w in m <==> w in [] || w in s
    ensures m.Keys == (set w | w in s)
  {
  }

  /** A sequence without repetitions has as many elements as positions. */
  lemma {:induction false} DistinctCount(s: seq<string>)
    requires forall i, j :: 0 <= i < j < |s| ==> s[i] != s[j]
    ensures |(set w | w in s)| == |s|
  {
    if s != [] {
      var n := |s| - 1;
      DistinctCount(s[..n]);
      assert (set w | w in s) == (set w | w in s[..n]) + {s[n]};
    }
  }
}
