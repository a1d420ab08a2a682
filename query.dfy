/**
 * The query words typed into the input box:
 * `word.split(',').map(w => w.trim()).filter(w => w)`.
 */
module Query {
  import opened Text

  /**
   * The characters `String.prototype.trim` removes: the ECMAScript
   * WhiteSpace set (tab, vertical tab, form feed, space, no-break space,
   * byte order mark and the Unicode space separators) and the line
   * terminators.
   */
  predicate IsSpace(c: char)
  {
    || c == '\t' || c == '\U{000B}' || c == '\U{000C}' || c == ' ' || c == '\U{00A0}' || c == '\U{FEFF}'
    || c == '\U{1680}' || ('\U{2000}' <= c <= '\U{200A}') || c == '\U{202F}' || c == '\U{205F}' || c == '\U{3000}'
    || c == '\n' || c == '\r' || c == '\U{2028}' || c == '\U{2029}'
  }

  /** Neither end of `s` is white space. */
  predicate Trimmed(s: string)
  {
    s == [] || (!IsSpace(s[0]) && !IsSpace(s[|s| - 1]))
  }

  /** `s` without its leading white space. */
  function TrimStart(s: string): (r: string)
    ensures |r| <= |s| && r == s[|s| - |r|..]
    ensures r == [] || !IsSpace(r[0])
    ensures forall i :: 0 <= i < |s| - |r| ==> IsSpace(s[i])
  {
    if s != [] && IsSpace(s[0]) then TrimStart(s[1..]) else s
  }

  /** `s` without its trailing white space. */
  function TrimEnd(s: string): (r: string)
    ensures |r| <= |s| && r == s[..|r|]
    ensures r == [] || !IsSpace(r[|r| - 1])
    ensures forall i :: |r| <= i < |s| ==> IsSpace(s[i])
  {
    if s != [] && IsSpace(s[|s| - 1]) then TrimEnd(s[..|s| - 1]) else s
  }

  /**
   * `s.trim()`: the longest middle part of `s` with no white space at either
   * end. It is a contiguous slice of `s` and everything cut from either side
   * is white space (so an all-blank `s` trims to "").
   */
  function Trim(s: string): (r: string)
    ensures Trimmed(r)
    ensures exists k :: BlankCut(s, r, k)
  {
    var t := TrimStart(s);
    var r := TrimEnd(t);
    assert r != [] ==> r[0] == t[0];
    TrimCut(s, t, r);
    r
  }

  /** Cutting blanks off the front and then off the back leaves a blank-cut slice. */
  lemma TrimCut(s: string, t: string, r: string)
    requires |t| <= |s| && t == s[|s| - |t|..] && forall i :: 0 <= i < |s| - |t| ==> IsSpace(s[i])
    requires |r| <= |t| && r == t[..|r|] && forall i :: |r| <= i < |t| ==> IsSpace(t[i])
    ensures BlankCut(s, r, |s| - |t|)
  {
    var k := |s| - |t|;
    assert forall i :: k + |r| <= i < |s| ==> s[i] == t[i - k];
  }

  /** `r` is the slice of `s` starting at `k`, and all of `s` around it is white space. */
  predicate BlankCut(s: string, r: string, k: int)
  {
    && 0 <= k <= |s| - |r| && r == s[k..k + |r|]
    && (forall i :: 0 <= i < k ==> IsSpace(s[i]))
    && (forall i :: k + |r| <= i < |s| ==> IsSpace(s[i]))
  }

  /** Trimming text that has no white space at either end returns it unchanged. */
  lemma TrimTrimmed(s: string)
    requires Trimmed(s)
    ensures Trim(s) == s
  {
  }

  /** A leading blank, as left by the ", " between two query words, is trimmed away. */
  lemma TrimAfterBlank(s: string)
    requires Trimmed(s)
    ensures Trim(" " + s) == s
  {
    assert (" " + s)[1..] == s;
  }

  /** The position of the first `c` in `s`. */
  function IndexOf(s: string, c: char): (i: nat)
    requires c in s
    ensures i < |s| && s[i] == c && c !in s[..i]
  {
    if s[0] == c then 0
    else
      assert c in s[1..];
      var j := IndexOf(s[1..], c);
      assert s[..j + 1] == [s[0]] + s[1..][..j];
      j + 1
  }

  /** The first occurrence is the only position holding `c` with no `c` before it. */
  lemma IndexOfUnique(s: string, c: char, i: int)
    requires 0 <= i < |s| && s[i] == c && c !in s[..i]
    ensures IndexOf(s, c) == i
  {
  }

  /** The fields written one after another with `sep` between each two. */
  function JoinOn(fields: seq<string>, sep: char): string
  {
    if fields == [] then ""
    else if |fields| == 1 then fields[0]
    else fields[0] + [sep] + JoinOn(fields[1..], sep)
  }

  /** `s.split(sep)` for a one-character separator: at least one field, none holding the separator. */
  function SplitOn(s: string, sep: char): (r: seq<string>)
    ensures |r| >= 1
    ensures forall k :: 0 <= k < |r| ==> sep !in r[k]
    decreases |s|
  {
    if sep !in s then [s]
    else
      var i := IndexOf(s, sep);
      [s[..i]] + SplitOn(s[i + 1..], sep)
  }

  /** The fields joined back with the separator give the text again: nothing is lost or moved. */
  lemma {:induction false} SplitRoundTrip(s: string, sep: char)
    ensures JoinOn(SplitOn(s, sep), sep) == s
    decreases |s|
  {
    if sep in s {
      var i := IndexOf(s, sep);
      var rest := SplitOn(s[i + 1..], sep);
      SplitRoundTrip(s[i + 1..], sep);
      assert s == s[..i] + [sep] + s[i + 1..];
      assert ([s[..i]] + rest)[1..] == rest;
    }
  }

  /** Splitting text made of two parts and a separator: the fields of the first part, then those of the second. */
  lemma {:induction false} SplitOnSeparator(a: string, b: string, sep: char)
    ensures SplitOn(a + [sep] + b, sep) == SplitOn(a, sep) + SplitOn(b, sep)
    decreases |a|
  {
    var t := [sep] + b;
    if sep !in a {
      assert SplitOn(a + [sep] + b, sep) == SplitOn(a, sep) + SplitOn(b, sep) by {
        assert a + [sep] + b == a + t;
        SplitFirstField(a, t, sep);
        assert t[1..] == b;
      }
    } else {
      var rest := a[IndexOf(a, sep) + 1..];
      SplitOnSeparator(rest, b, sep);
      assert SplitOn(a + [sep] + b, sep) == SplitOn(a, sep) + SplitOn(b, sep) by {
        assert a + [sep] + b == a + t;
        assert rest + [sep] + b == rest + t;
        SplitLaterField(a, t, b, sep);
      }
    }
  }

  /** A separator-free first part is the first field. */
  lemma SplitFirstField(a: string, t: string, sep: char)
    requires sep !in a && |t| > 0 && t[0] == sep
    ensures SplitOn(a + t, sep) == [a] + SplitOn(t[1..], sep)
  {
    var s := a + t;
    assert s[..|a|] == a;
    assert s[|a| + 1..] == t[1..];
    SplitAt(s, sep, |a|);
  }

  /** When the first part holds a separator, the first field ends there. */
  lemma SplitLaterField(a: string, t: string, b: string, sep: char)
    requires sep in a
    requires var rest := a[IndexOf(a, sep) + 1..];
      SplitOn(rest + t, sep) == SplitOn(rest, sep) + SplitOn(b, sep)
    ensures SplitOn(a + t, sep) == SplitOn(a, sep) + SplitOn(b, sep)
  {
    var j := IndexOf(a, sep);
    var rest := a[j + 1..];
    SlicesAround(a, t, j);
    SplitAt(a + t, sep, j);
    SplitAt(a, sep, j);
    FieldsJoin(SplitOn(a + t, sep), SplitOn(a, sep), a[..j], SplitOn(rest + t, sep), SplitOn(rest, sep), SplitOn(b, sep));
  }

  lemma SlicesAround(a: string, b: string, j: int)
    requires 0 <= j < |a|
    ensures (a + b)[..j] == a[..j] && (a + b)[j] == a[j] && (a + b)[j + 1..] == a[j + 1..] + b
  {
  }

  /** A split at the first separator: the field before it, then the fields after it. */
  lemma SplitAt(s: string, sep: char, i: int)
    requires 0 <= i < |s| && s[i] == sep && sep !in s[..i]
    ensures SplitOn(s, sep) == [s[..i]] + SplitOn(s[i + 1..], sep)
  {
    IndexOfUnique(s, sep, i);
  }

  lemma FieldsJoin(all: seq<string>, first: seq<string>, head: string, tail: seq<string>, mid: seq<string>, last: seq<string>)
    requires all == [head] + tail && tail == mid + last && first == [head] + mid
    ensures all == first + last
  {
  }

  /** `filter(w => w)`: drop the empty strings, keep the order. */
  function NonEmpty(s: seq<string>): (r: seq<string>)
    ensures forall k :: 0 <= k < |r| ==> r[k] != ""
    ensures forall w :: w in r <==> w in s && w != ""
  {
    if s == [] then []
    else
      var rest := NonEmpty(s[1..]);
      assert forall w :: w in s <==> w == s[0] || w in s[1..];
      if s[0] == "" then rest else [s[0]] + rest
  }

  /** Filtering one string keeps it exactly when it is not empty. */
  lemma NonEmptySingle(x: string)
    ensures NonEmpty([x]) == if x == "" then [] else [x]
  {
    assert [x][1..] == [];
  }

  /** Filtering distributes over concatenation, so it keeps order and repetitions. */
  lemma {:induction false} NonEmptyConcat(a: seq<string>, b: seq<string>)
    ensures NonEmpty(a + b) == NonEmpty(a) + NonEmpty(b)
  {
    if a == [] {
      assert a + b == b;
    } else {
      assert (a + b)[0] == a[0];
      assert (a + b)[1..] == a[1..] + b;
      NonEmptyConcat(a[1..], b);
    }
  }

  /** Trimming never introduces a character, in particular no comma. */
  lemma TrimKeepsOut(s: string, c: char)
    requires c !in s
    ensures c !in Trim(s)
  {
    var t := TrimStart(s);
    assert t == s[|s| - |t|..];
    assert Trim(s) == t[..|Trim(s)|];
  }

  /** `map(w => w.trim())` over the comma-free fields of a split. */
  function TrimAll(fields: seq<string>): (r: seq<string>)
    requires forall k :: 0 <= k < |fields| ==> ',' !in fields[k]
    ensures |r| == |fields|
    ensures forall k :: 0 <= k < |r| ==> r[k] == Trim(fields[k]) && ',' !in r[k]
  {
    seq(|fields|, k requires 0 <= k < |fields| => TrimKeepsOut(fields[k], ','); Trim(fields[k]))
  }

  lemma NoCommaFields(a: seq<string>, b: seq<string>)
    requires forall k :: 0 <= k < |a| ==> ',' !in a[k]
    requires forall k :: 0 <= k < |b| ==> ',' !in b[k]
    ensures forall k :: 0 <= k < |a + b| ==> ',' !in (a + b)[k]
  {
    var ab := a + b;
    forall k | 0 <= k < |ab|
      ensures ',' !in ab[k]
    {
      if k < |a| { assert ab[k] == a[k]; } else { assert ab[k] == b[k - |a|]; }
    }
  }

  lemma TrimAllConcat(a: seq<string>, b: seq<string>)
    requires forall k :: 0 <= k < |a| ==> ',' !in a[k]
    requires forall k :: 0 <= k < |b| ==> ',' !in b[k]
    requires forall k :: 0 <= k < |a + b| ==> ',' !in (a + b)[k]
    ensures TrimAll(a + b) == TrimAll(a) + TrimAll(b)
  {
    var ab := a + b;
    var l, ta, tb := TrimAll(ab), TrimAll(a), TrimAll(b);
    forall k | 0 <= k < |l|
      ensures l[k] == (ta + tb)[k]
    {
      if k < |a| {
        assert ab[k] == a[k] && l[k] == Trim(a[k]) && ta[k] == Trim(a[k]);
      } else {
        assert ab[k] == b[k - |a|] && l[k] == Trim(b[k - |a|]) && tb[k - |a|] == Trim(b[k - |a|]);
      }
    }
  }

  /** The query words of the input text. */
  function QueryWords(input: string): (r: seq<string>)
    ensures forall k :: 0 <= k < |r| ==> r[k] != "" && ',' !in r[k] && Trimmed(r[k])
  {
    var trimmed := TrimAll(SplitOn(input, ','));
    assert forall w :: w in trimmed ==> ',' !in w && Trimmed(w);
    NonEmpty(trimmed)
  }

  /** Text without a comma is one field: one query word, its trimmed self, unless that is empty. */
  lemma QueryWordsField(s: string)
    requires ',' !in s
    ensures QueryWords(s) == if Trim(s) == "" then [] else [Trim(s)]
  {
    assert TrimAll([s]) == [Trim(s)];
    NonEmptySingle(Trim(s));
  }

  /**
   * A comma separates: the words of `a,b` are those of `a` followed by those
   * of `b`, in order and with repetitions kept. With QueryWordsField this
   * fixes the words of every input: the trimmed non-empty comma-separated
   * fields, in order.
   */
  lemma QueryWordsConcat(a: string, b: string)
    ensures QueryWords(a + "," + b) == QueryWords(a) + QueryWords(b)
  {
    var fa, fb := SplitOn(a, ','), SplitOn(b, ',');
    assert a + "," + b == a + [','] + b;
    SplitOnSeparator(a, b, ',');
    NoCommaFields(fa, fb);
    TrimAllConcat(fa, fb);
    NonEmptyConcat(TrimAll(fa), TrimAll(fb));
  }

  /** A canonical query text for the words: `words.join(', ')`. */
  function JoinWords(words: seq<string>): string
  {
    if words == [] then ""
    else if |words| == 1 then words[0]
    else words[0] + ", " + JoinWords(words[1..])
  }

  /**
   * Splitting `p` followed by joined words on commas: the first field is `p`
   * and the first word, each later field a blank and the next word.
   */
  lemma {:induction false} SplitJoined(p: string, words: seq<string>)
    requires |words| >= 1 && ',' !in p
    requires forall k :: 0 <= k < |words| ==> ',' !in words[k]
    ensures SplitOn(p + JoinWords(words), ',') == [p + words[0]] + Blanked(words[1..])
    decreases |words|
  {
    var head := p + words[0];
    NoCommaConcat(p, words[0]);
    if |words| == 1 {
      assert p + JoinWords(words) == head;
    } else {
      var rest := JoinWords(words[1..]);
      assert p + JoinWords(words) == head + ", " + rest;
      SplitAtComma(head, rest);
      SplitJoined(" ", words[1..]);
      BlankedCons(words[1..]);
    }
  }

  /** Each word behind the blank that follows a comma in `words.join(', ')`. */
  function Blanked(words: seq<string>): (r: seq<string>)
    ensures |r| == |words|
  {
    seq(|words|, k requires 0 <= k < |words| => " " + words[k])
  }

  lemma BlankedCons(words: seq<string>)
    requires |words| >= 1
    ensures Blanked(words) == [" " + words[0]] + Blanked(words[1..])
  {
  }

  lemma NoCommaConcat(a: string, b: string)
    requires ',' !in a && ',' !in b
    ensures ',' !in a + b
  {
    forall i | 0 <= i < |a + b|
      ensures (a + b)[i] != ','
    {
      if i < |a| { assert (a + b)[i] == a[i]; } else { assert (a + b)[i] == b[i - |a|]; }
    }
  }

  /** A comma-free head, a comma, then the rest: the head is the first field. */
  lemma SplitAtComma(head: string, rest: string)
    requires ',' !in head
    ensures SplitOn(head + ", " + rest, ',') == [head] + SplitOn(" " + rest, ',')
  {
    var s := head + ", " + rest;
    assert s[|head|] == ',';
    var i := IndexOf(s, ',');
    assert s[..|head|] == head;
    assert i == |head|;
    assert s[i + 1..] == " " + rest;
  }

  /**
   * Words that are non-empty, comma-free and carry no white space at either
   * end come back unchanged from the text `words.join(', ')`.
   */
  lemma QueryWordsRoundTrip(words: seq<string>)
    requires forall k :: 0 <= k < |words| ==> words[k] != "" && ',' !in words[k] && Trimmed(words[k])
    ensures QueryWords(JoinWords(words)) == words
  {
    if words == [] {
      EmptyQuery();
    } else {
      JoinedFields(words);
      NonEmptyKeeps(words);
    }
  }

  /** An empty input box gives no words. */
  lemma EmptyQuery()
    ensures QueryWords("") == []
  {
    assert SplitOn("", ',') == [""];
    assert TrimAll([""]) == [""];
  }

  lemma JoinedFields(words: seq<string>)
    requires |words| >= 1
    requires forall k :: 0 <= k < |words| ==> words[k] != "" && ',' !in words[k] && Trimmed(words[k])
    ensures TrimAll(SplitOn(JoinWords(words), ',')) == words
  {
    var fields := SplitOn(JoinWords(words), ',');
    SplitJoined("", words);
    assert "" + JoinWords(words) == JoinWords(words);
    assert "" + words[0] == words[0];
    TrimFields(fields, words);
  }

  lemma TrimFields(fields: seq<string>, words: seq<string>)
    requires |words| >= 1
    requires forall k :: 0 <= k < |words| ==> ',' !in words[k] && Trimmed(words[k])
    requires fields == [words[0]] + Blanked(words[1..])
    ensures forall k :: 0 <= k < |fields| ==> ',' !in fields[k]
    ensures TrimAll(fields) == words
  {
    forall k | 0 <= k < |words|
      ensures ',' !in fields[k] && Trim(fields[k]) == words[k]
    {
      if k == 0 {
        TrimTrimmed(words[0]);
      } else {
        assert fields[k] == " " + words[k];
        TrimAfterBlank(words[k]);
      }
    }
  }

  lemma {:induction false} NonEmptyKeeps(s: seq<string>)
    requires forall k :: 0 <= k < |s| ==> s[k] != ""
    ensures NonEmpty(s) == s
  {
    if s != [] {
      NonEmptyKeeps(s[1..]);
    }
  }
}
