/**
 * Strings as the charting client handles them: decimal digits (the
 * `toString`/`parseInt` pair and zero-padded date fields), the hyphen
 * stripper `format`, the `key.split(' ')` destructuring of response keys,
 * and the default string order used by `Array.prototype.sort`.
 */
module Text {

  datatype Option<T> = None | Some(value: T)

  /** The elements of a sequence of strings. */
  function Elems(s: seq<string>): set<string>
  {
    set x | x in s
  }

  // ---------------------------------------------------------------------
  // Decimal digits
  // ---------------------------------------------------------------------

  predicate IsDigit(c: char) { '0' <= c <= '9' }

  predicate AllDigits(s: string) { forall i :: 0 <= i < |s| ==> IsDigit(s[i]) }

  function DigitChar(d: nat): (c: char)
    requires d < 10
    ensures IsDigit(c)
  {
    ('0' as int + d) as char
  }

  function DigitValue(c: char): (d: nat)
    requires IsDigit(c)
    ensures d < 10 && DigitChar(d) == c
  {
    c as int - '0' as int
  }

  function Pow10(n: nat): (p: nat)
    ensures p >= 1
  {
    if n == 0 then 1 else 10 * Pow10(n - 1)
  }

  /** The shortest decimal numeral of `n` ("0" for zero), as `Number.prototype.toString` writes it. */
  function Digits(n: nat): (s: string)
    ensures |s| > 0 && AllDigits(s)
  {
    if n < 10 then [DigitChar(n)] else Digits(n / 10) + [DigitChar(n % 10)]
  }

  /** The number a string of decimal digits denotes (leading zeros allowed). */
  function ValueOf(s: string): nat
    requires AllDigits(s)
  {
    if s == [] then 0 else ValueOf(s[..|s| - 1]) * 10 + DigitValue(s[|s| - 1])
  }

  lemma {:induction false} ValueOfDigits(n: nat)
    ensures ValueOf(Digits(n)) == n
  {
    if n >= 10 {
      var s := Digits(n);
      assert s[..|s| - 1] == Digits(n / 10);
      ValueOfDigits(n / 10);
    }
  }

  lemma {:induction false} DigitsLength(n: nat, w: nat)
    requires w >= 1 && n < Pow10(w)
    ensures |Digits(n)| <= w
  {
    if n >= 10 {
      assert w > 1;
      DigitsLength(n / 10, w - 1);
    }
  }

  lemma {:induction false} ValueOfConcat(a: string, b: string)
    requires AllDigits(a) && AllDigits(b)
    ensures AllDigits(a + b)
    ensures ValueOf(a + b) == ValueOf(a) * Pow10(|b|) + ValueOf(b)
    decreases |b|
  {
    var ab := a + b;
    assert AllDigits(ab);
    if b != [] {
      var b' := b[..|b| - 1];
      assert ab[..|ab| - 1] == a + b';
      assert ab[|ab| - 1] == b[|b| - 1];
      ValueOfConcat(a, b');
      var va, vb', p, d := ValueOf(a), ValueOf(b'), Pow10(|b'|), DigitValue(b[|b| - 1]);
      assert ValueOf(b) == vb' * 10 + d;
      assert Pow10(|b|) == 10 * p;
      ShiftDigit(va, p, vb', d, ValueOf(ab), ValueOf(b), Pow10(|b|));
    } else {
      assert ab == a;
    }
  }

  lemma ShiftDigit(va: int, p: int, vb: int, d: int, x: int, y: int, q: int)
    requires x == (va * p + vb) * 10 + d && y == vb * 10 + d && q == 10 * p
    ensures x == va * q + y
  {
  }

  function Zeros(k: nat): (s: string)
    ensures |s| == k && AllDigits(s) && ValueOf(s) == 0
  {
    if k == 0 then [] else
      var z := Zeros(k - 1) + ['0'];
      assert z[..k - 1] == Zeros(k - 1);
      z
  }

  /** `n` written with at least `w` digits, padded on the left with zeros (the date fields of an ISO string). */
  function Padded(n: nat, w: nat): (s: string)
    requires w >= 1 && n < Pow10(w)
    ensures |s| == w && AllDigits(s) && ValueOf(s) == n
  {
    DigitsLength(n, w);
    ValueOfDigits(n);
    var z := Zeros(w - |Digits(n)|);
    ValueOfConcat(z, Digits(n));
    z + Digits(n)
  }

  /** Two numbers padded to the same width are equal exactly when their numerals are. */
  lemma PaddedInjective(m: nat, n: nat, w: nat)
    requires w >= 1 && m < Pow10(w) && n < Pow10(w)
    ensures Padded(m, w) == Padded(n, w) <==> m == n
  {
  }

  // ---------------------------------------------------------------------
  // Signed numerals: `(n).toString()` and `parseInt`
  // ---------------------------------------------------------------------

  /** The numeral `(n).toString()` produces for an integer `n`. */
  function IntToString(n: int): string
  {
    if n < 0 then "-" + Digits(-n) else Digits(n)
  }

  /** `parseInt` of a well-formed signed decimal numeral (malformed text is outside the model). */
  function ParseInt(s: string): Option<int>
  {
    if |s| > 0 && s[0] == '-' && AllDigits(s[1..]) then Some(-(ValueOf(s[1..]) as int))
    else if AllDigits(s) && |s| > 0 then Some(ValueOf(s))
    else None
  }

  lemma IntToStringRoundTrip(n: int)
    ensures ParseInt(IntToString(n)) == Some(n)
  {
    if n < 0 {
      var s := IntToString(n);
      assert s[1..] == Digits(-n);
      ValueOfDigits(-n);
    } else {
      var s := Digits(n);
      assert !IsDigit('-');
      assert s[0] != '-';
      ValueOfDigits(n);
    }
  }

  // ---------------------------------------------------------------------
  // `date.replace(/-/g, '')`
  // ---------------------------------------------------------------------

  /** Every hyphen removed, every other character kept in order. */
  function StripHyphens(s: string): (r: string)
    ensures forall i :: 0 <= i < |r| ==> r[i] != '-'
    ensures |r| <= |s|
  {
    if s == [] then []
    else if s[0] == '-' then StripHyphens(s[1..])
    else [s[0]] + StripHyphens(s[1..])
  }

  lemma {:induction false} StripHyphensConcat(a: string, b: string)
    ensures StripHyphens(a + b) == StripHyphens(a) + StripHyphens(b)
  {
    if a != [] {
      var ab := a + b;
      assert ab[0] == a[0] && ab[1..] == a[1..] + b;
      StripHyphensConcat(a[1..], b);
      if a[0] == '-' {
        assert StripHyphens(ab) == StripHyphens(a[1..] + b);
      } else {
        assert StripHyphens(ab) == [a[0]] + StripHyphens(a[1..] + b);
        assert StripHyphens(a) == [a[0]] + StripHyphens(a[1..]);
      }
    } else {
      assert a + b == b;
    }
  }

  /** A string with no hyphen is left as it is; in particular the stripper is idempotent. */
  lemma {:induction false} StripHyphensNoHyphen(s: string)
    requires forall i :: 0 <= i < |s| ==> s[i] != '-'
    ensures StripHyphens(s) == s
  {
    if s != [] {
      StripHyphensNoHyphen(s[1..]);
    }
  }

  /** "YYYY-MM-DD" loses exactly its two hyphens. */
  lemma StripDateHyphens(y: string, m: string, d: string)
    requires AllDigits(y) && AllDigits(m) && AllDigits(d)
    ensures StripHyphens(y + "-" + m + "-" + d) == y + m + d
  {
    var s1 := y + "-";
    var s2 := s1 + m;
    var s3 := s2 + "-";
    assert StripHyphens("-") == [];
    StripHyphensNoHyphen(y);
    StripHyphensConcat(y, "-");
    assert StripHyphens(s1) == y;
    StripHyphensNoHyphen(m);
    StripHyphensConcat(s1, m);
    assert StripHyphens(s2) == y + m;
    StripHyphensConcat(s2, "-");
    assert StripHyphens(s3) == y + m;
    StripHyphensNoHyphen(d);
    StripHyphensConcat(s3, d);
  }

  // ---------------------------------------------------------------------
  // `const [w, date] = key.split(' ')`
  // ---------------------------------------------------------------------

  predicate NoSpace(s: string) { forall i :: 0 <= i < |s| ==> s[i] != ' ' }

  /** The text before the first space (all of `s` when it has none). */
  function Token(s: string): (t: string)
    ensures |t| <= |s| && t == s[..|t|] && NoSpace(t)
    ensures |t| < |s| ==> s[|t|] == ' '
  {
    if s == [] || s[0] == ' ' then [] else [s[0]] + Token(s[1..])
  }

  /** The text after the first space, if there is one: all of `s` past its token and that space. */
  function AfterSpace(s: string): (r: Option<string>)
    ensures r.None? <==> NoSpace(s)
    ensures r.Some? ==> |Token(s)| < |s| && r.value == s[|Token(s)| + 1..]
  {
    if s == [] then None
    else if s[0] == ' ' then Some(s[1..])
    else
      var r := AfterSpace(s[1..]);
      assert Token(s) == [s[0]] + Token(s[1..]);
      r
  }

  /**
   * The pair bound by `const [w, date] = key.split(' ')`: the first and the
   * second space-separated piece. A key without a space leaves `date`
   * undefined, and a property keyed by `undefined` is keyed by the string
   * "undefined".
   */
  function SplitKey(key: string): (string, string)
  {
    (Token(key), match AfterSpace(key) case None => "undefined" case Some(rest) => Token(rest))
  }

  lemma {:induction false} TokenOfJoin(w: string, rest: string)
    requires NoSpace(w)
    ensures Token(w + " " + rest) == w
    ensures AfterSpace(w + " " + rest) == Some(rest)
  {
    if w != [] {
      assert (w + " " + rest)[1..] == w[1..] + " " + rest;
      TokenOfJoin(w[1..], rest);
    }
  }

  /** The response key "<word> <date>" splits back into its word and its date. */
  lemma SplitJoin(w: string, d: string)
    requires NoSpace(w) && NoSpace(d)
    ensures SplitKey(w + " " + d) == (w, d)
  {
    TokenOfJoin(w, d);
    TokenOfJoin(d, "");
    assert d + " " + "" == d + " ";
    assert Token(d) == Token(d + " ") by {
      TokenPrefix(d, " ");
    }
  }

  lemma {:induction false} TokenPrefix(s: string, tail: string)
    requires NoSpace(s) && |tail| > 0 && tail[0] == ' '
    ensures Token(s) == s && Token(s + tail) == s
  {
    if s != [] {
      assert (s + tail)[1..] == s[1..] + tail;
      TokenPrefix(s[1..], tail);
    }
  }

  // ---------------------------------------------------------------------
  // Default `sort()` order: lexicographic by character
  // ---------------------------------------------------------------------

  predicate Less(a: string, b: string)
  {
    if a == [] then b != []
    else if b == [] then false
    else if a[0] != b[0] then a[0] < b[0]
    else Less(a[1..], b[1..])
  }

  lemma {:induction false} LessIrreflexive(a: string)
    ensures !Less(a, a)
  {
    if a != [] {
      LessIrreflexive(a[1..]);
    }
  }

  lemma {:induction false} LessTransitive(a: string, b: string, c: string)
    requires Less(a, b) && Less(b, c)
    ensures Less(a, c)
  {
    if a != [] && b != [] && c != [] && a[0] == b[0] && b[0] == c[0] {
      LessTransitive(a[1..], b[1..], c[1..]);
    }
  }

  lemma {:induction false} LessTotal(a: string, b: string)
    ensures a == b || Less(a, b) || Less(b, a)
  {
    if a != [] && b != [] && a[0] == b[0] {
      LessTotal(a[1..], b[1..]);
      if a[1..] == b[1..] {
        assert a == [a[0]] + a[1..] && b == [b[0]] + b[1..];
      }
    }
  }

  lemma LessAsymmetric(a: string, b: string)
    requires Less(a, b)
    ensures !Less(b, a)
  {
    if Less(b, a) {
      LessTransitive(a, b, a);
      LessIrreflexive(a);
    }
  }

  predicate IsLeast(x: string, s: set<string>)
  {
    x in s && forall y :: y in s && y != x ==> Less(x, y)
  }

  lemma {:induction false} LeastExists(s: set<string>)
    requires s != {}
    ensures exists x :: IsLeast(x, s)
    decreases |s|
  {
    var y :| y in s;
    if s != {y} {
      LeastExists(s - {y});
      var x :| IsLeast(x, s - {y});
      LessTotal(x, y);
      if Less(x, y) {
        assert IsLeast(x, s);
      } else {
        forall z | z in s && z != y
          ensures Less(y, z)
        {
          if z != x {
            LessTransitive(y, x, z);
          }
        }
        assert IsLeast(y, s);
      }
    } else {
      assert IsLeast(y, s);
    }
  }

  lemma LeastUnique(s: set<string>)
    ensures forall x, x' :: IsLeast(x, s) && IsLeast(x', s) ==> x == x'
  {
    forall x, x' | IsLeast(x, s) && IsLeast(x', s)
      ensures x == x'
    {
      if x != x' {
        LessAsymmetric(x, x');
      }
    }
  }

  predicate StrictlyAscending(r: seq<string>)
  {
    forall i, j :: 0 <= i < j < |r| ==> Less(r[i], r[j])
  }

  /** The elements of a finite set of strings in ascending order: `Object.keys(o).sort()`. */
  function SortedStrings(s: set<string>): (r: seq<string>)
    ensures forall x :: x in r <==> x in s
    ensures |r| == |s|
    ensures StrictlyAscending(r)
    decreases |s|
  {
    if s == {} then []
    else
      LeastExists(s);
      LeastUnique(s);
      var x :| IsLeast(x, s);
      var rest := SortedStrings(s - {x});
      [x] + rest
  }

  // ---------------------------------------------------------------------
  // First occurrences: the key order of an object filled from a sequence
  // ---------------------------------------------------------------------

  /** The position where `x` first occurs in `s`. */
  function FirstIndex(s: seq<string>, x: string): (i: nat)
    requires x in s
    ensures i < |s| && s[i] == x && x !in s[..i]
  {
    if s[0] == x then 0
    else
      assert x in s[1..];
      var j := FirstIndex(s[1..], x);
      assert s[..j + 1] == [s[0]] + s[1..][..j];
      j + 1
  }

  /** An element of a prefix first occurs in the whole sequence where it first occurs in the prefix. */
  lemma FirstIndexPrefix(s: seq<string>, n: int, x: string)
    requires 0 <= n <= |s| && x in s[..n]
    ensures x in s && FirstIndex(s, x) == FirstIndex(s[..n], x)
  {
    var i := FirstIndex(s[..n], x);
    assert s[i] == x;
  }

  /** Elements of a prefix keep their first positions, all before the prefix's end. */
  lemma PrefixIndices(s: seq<string>, n: int, p: seq<string>)
    requires 0 <= n <= |s| && forall y :: y in p ==> y in s[..n]
    ensures forall y :: y in p ==> y in s && FirstIndex(s, y) == FirstIndex(s[..n], y) < n
  {
    forall y | y in p
      ensures y in s && FirstIndex(s, y) == FirstIndex(s[..n], y) < n
    {
      FirstIndexPrefix(s, n, y);
    }
  }
}
