/**
 * Proleptic Gregorian dates, the successor the day-range loop steps with
 * (`curr.setDate(curr.getDate() + 1)`), and the 8-digit day key the loop
 * pushes (`toISOString().split('T')[0].replace(/-/g, '')`).
 */
module Calendar {
  import opened Text

  datatype Date = Date(year: int, month: int, day: int)

  predicate IsLeapYear(y: int)
  {
    (y % 4 == 0 && y % 100 != 0) || y % 400 == 0
  }

  function DaysInMonth(y: int, m: int): (n: int)
    requires 1 <= m <= 12
    ensures 28 <= n <= 31
  {
    if m == 2 then (if IsLeapYear(y) then 29 else 28)
    else if m == 4 || m == 6 || m == 9 || m == 11 then 30
    else 31
  }

  function YearLength(y: int): int
  {
    if IsLeapYear(y) then 366 else 365
  }

  /** A real calendar day from year 0 on (the years a date input produces). */
  predicate Valid(d: Date)
  {
    0 <= d.year && 1 <= d.month <= 12 && 1 <= d.day <= DaysInMonth(d.year, d.month)
  }

  /** The day after `d`. */
  function NextDay(d: Date): (r: Date)
    requires Valid(d)
    ensures Valid(r) && Before(d, r)
  {
    if d.day < DaysInMonth(d.year, d.month) then Date(d.year, d.month, d.day + 1)
    else if d.month < 12 then Date(d.year, d.month + 1, 1)
    else Date(d.year + 1, 1, 1)
  }

  /** Chronological order, as `curr <= end` compares two dates. */
  predicate Before(a: Date, b: Date)
  {
    a.year < b.year || (a.year == b.year && (a.month < b.month || (a.month == b.month && a.day < b.day)))
  }

  predicate NotAfter(a: Date, b: Date)
  {
    a == b || Before(a, b)
  }

  // ---------------------------------------------------------------------
  // Day numbers: a count of days since 0000-01-01
  // ---------------------------------------------------------------------

  function DaysBeforeYear(y: nat): nat
  {
    if y == 0 then 0 else DaysBeforeYear(y - 1) + YearLength(y - 1)
  }

  function DaysBeforeMonth(y: int, m: int): nat
    requires 1 <= m <= 12
  {
    [0, 31, 59, 90, 120, 151, 181, 212, 243, 273, 304, 334][m - 1]
      + (if m > 2 && IsLeapYear(y) then 1 else 0)
  }

  function DayNumber(d: Date): nat
    requires Valid(d)
  {
    DaysBeforeYear(d.year) + DaysBeforeMonth(d.year, d.month) + d.day - 1
  }

  lemma MonthStep(y: int, m: int)
    requires 1 <= m < 12
    ensures DaysBeforeMonth(y, m + 1) == DaysBeforeMonth(y, m) + DaysInMonth(y, m)
  {
  }

  lemma LastMonth(y: int)
    ensures DaysBeforeMonth(y, 12) + DaysInMonth(y, 12) == YearLength(y)
  {
  }

  /** The successor is exactly one day later. */
  lemma NextDayNumber(d: Date)
    requires Valid(d)
    ensures DayNumber(NextDay(d)) == DayNumber(d) + 1
  {
    if d.day == DaysInMonth(d.year, d.month) {
      if d.month < 12 {
        MonthStep(d.year, d.month);
      } else {
        LastMonth(d.year);
      }
    }
  }

  lemma {:induction false} DaysBeforeYearMonotone(x: nat, y: nat)
    requires x <= y
    ensures DaysBeforeYear(x) + (if x < y then YearLength(x) else 0) <= DaysBeforeYear(y)
    decreases y - x
  {
    if x < y {
      DaysBeforeYearMonotone(x + 1, y);
    }
  }

  lemma {:induction false} DaysBeforeMonthMonotone(y: int, m: int, n: int)
    requires 1 <= m < n <= 12
    ensures DaysBeforeMonth(y, m) + DaysInMonth(y, m) <= DaysBeforeMonth(y, n)
    decreases n - m
  {
    MonthStep(y, m);
    if m + 1 < n {
      DaysBeforeMonthMonotone(y, m + 1, n);
    }
  }

  lemma DayWithinYear(d: Date)
    requires Valid(d)
    ensures DaysBeforeMonth(d.year, d.month) + d.day <= YearLength(d.year)
  {
    if d.month < 12 {
      DaysBeforeMonthMonotone(d.year, d.month, 12);
    }
    LastMonth(d.year);
  }

  /** Day numbers follow chronological order, in both directions. */
  lemma BeforeIsDayNumberOrder(a: Date, b: Date)
    requires Valid(a) && Valid(b)
    ensures Before(a, b) <==> DayNumber(a) < DayNumber(b)
    ensures a == b <==> DayNumber(a) == DayNumber(b)
  {
    if Before(a, b) {
      OrderedImpliesLess(a, b);
    }
    if Before(b, a) {
      OrderedImpliesLess(b, a);
    }
  }

  lemma OrderedImpliesLess(a: Date, b: Date)
    requires Valid(a) && Valid(b) && Before(a, b)
    ensures DayNumber(a) < DayNumber(b)
  {
    if a.year < b.year {
      DayWithinYear(a);
      DaysBeforeYearMonotone(a.year, b.year);
    } else if a.month < b.month {
      DaysBeforeMonthMonotone(a.year, a.month, b.month);
    }
  }

  // ---------------------------------------------------------------------
  // The days of a range
  // ---------------------------------------------------------------------

  /** Every calendar day from `start` to `end` inclusive, in order. */
  function DaysBetween(start: Date, end: Date): (r: seq<Date>)
    requires Valid(start) && Valid(end)
    decreases DayNumber(end) - DayNumber(start) + 1
  {
    if NotAfter(start, end) then
      BeforeIsDayNumberOrder(start, end);
      NextDayNumber(start);
      [start] + DaysBetween(NextDay(start), end)
    else []
  }

  /**
   * The range is contiguous: its i-th day is `start` advanced i times, its
   * length is the inclusive day count, and a valid date lies in it exactly
   * when it falls between `start` and `end`.
   */
  lemma DaysBetweenSpec(start: Date, end: Date)
    requires Valid(start) && Valid(end)
    ensures var r := DaysBetween(start, end);
      && |r| == (if NotAfter(start, end) then DayNumber(end) - DayNumber(start) + 1 else 0)
      && (forall i :: 0 <= i < |r| ==> Valid(r[i]) && DayNumber(r[i]) == DayNumber(start) + i)
      && (forall i :: 0 <= i < |r| - 1 ==> r[i + 1] == NextDay(r[i]))
      && (forall x :: Valid(x) ==> (x in r <==> NotAfter(start, x) && NotAfter(x, end)))
  {
    DaysBetweenNumbers(start, end);
    DaysBetweenSteps(start, end);
    DaysBetweenMembers(start, end);
  }

  lemma {:induction false} DaysBetweenNumbers(start: Date, end: Date)
    requires Valid(start) && Valid(end)
    ensures var r := DaysBetween(start, end);
      && |r| == (if NotAfter(start, end) then DayNumber(end) - DayNumber(start) + 1 else 0)
      && (forall i :: 0 <= i < |r| ==> Valid(r[i]) && DayNumber(r[i]) == DayNumber(start) + i)
    decreases DayNumber(end) - DayNumber(start) + 1
  {
    BeforeIsDayNumberOrder(start, end);
    if NotAfter(start, end) {
      var next := NextDay(start);
      NextDayNumber(start);
      DaysBetweenNumbers(next, end);
      var tail := DaysBetween(next, end);
      assert DaysBetween(start, end) == [start] + tail;
      BeforeIsDayNumberOrder(next, end);
      BeforeIsDayNumberOrder(end, next);
    }
  }

  lemma {:induction false} DaysBetweenSteps(start: Date, end: Date)
    requires Valid(start) && Valid(end)
    ensures var r := DaysBetween(start, end);
      forall i :: 0 <= i < |r| - 1 ==> Valid(r[i]) && r[i + 1] == NextDay(r[i])
    decreases DayNumber(end) - DayNumber(start) + 1
  {
    if NotAfter(start, end) {
      var next := NextDay(start);
      BeforeIsDayNumberOrder(start, end);
      NextDayNumber(start);
      DaysBetweenSteps(next, end);
      DaysBetweenNumbers(next, end);
      var tail := DaysBetween(next, end);
      assert DaysBetween(start, end) == [start] + tail;
      if |tail| > 0 {
        BeforeIsDayNumberOrder(tail[0], next);
      }
      StepsCons(start, tail);
    }
  }

  /** A day followed by a run of successive days that starts on the next day is such a run too. */
  lemma StepsCons(start: Date, tail: seq<Date>)
    requires Valid(start)
    requires |tail| > 0 ==> tail[0] == NextDay(start)
    requires forall i :: 0 <= i < |tail| - 1 ==> Valid(tail[i]) && tail[i + 1] == NextDay(tail[i])
    ensures var r := [start] + tail;
      forall i :: 0 <= i < |r| - 1 ==> Valid(r[i]) && r[i + 1] == NextDay(r[i])
  {
    var r := [start] + tail;
    forall i | 0 <= i < |r| - 1
      ensures Valid(r[i]) && r[i + 1] == NextDay(r[i])
    {
      if i > 0 {
        assert r[i] == tail[i - 1] && r[i + 1] == tail[i];
      }
    }
  }

  lemma {:induction false} DaysBetweenMembers(start: Date, end: Date)
    requires Valid(start) && Valid(end)
    ensures forall x :: Valid(x) ==> (x in DaysBetween(start, end) <==> NotAfter(start, x) && NotAfter(x, end))
    decreases DayNumber(end) - DayNumber(start) + 1
  {
    BeforeIsDayNumberOrder(start, end);
    if NotAfter(start, end) {
      var next := NextDay(start);
      NextDayNumber(start);
      DaysBetweenMembers(next, end);
      var tail := DaysBetween(next, end);
      assert DaysBetween(start, end) == [start] + tail;
      forall x | Valid(x)
        ensures x in [start] + tail <==> NotAfter(start, x) && NotAfter(x, end)
      {
        RangeMemberStep(start, end, tail, x);
      }
    } else {
      forall x | Valid(x)
        ensures !(NotAfter(start, x) && NotAfter(x, end))
      {
        BeforeIsDayNumberOrder(start, x);
        BeforeIsDayNumberOrder(x, end);
        BeforeIsDayNumberOrder(end, start);
      }
    }
  }

  // ---------------------------------------------------------------------
  // Day keys
  // ---------------------------------------------------------------------

  /** A date the 4-digit ISO year can write. */
  predicate FourDigitYear(d: Date) { 0 <= d.year <= 9999 }

  /** The date part "YYYY-MM-DD" of `toISOString()`. */
  function IsoDate(d: Date): string
    requires Valid(d) && FourDigitYear(d)
  {
    Padded(d.year, 4) + "-" + Padded(d.month, 2) + "-" + Padded(d.day, 2)
  }

  /** The key the range loop pushes: the ISO date with its hyphens stripped, "YYYYMMDD". */
  function DayKey(d: Date): (k: string)
    requires Valid(d) && FourDigitYear(d)
    ensures |k| == 8 && AllDigits(k)
  {
    var y, m, dd := Padded(d.year, 4), Padded(d.month, 2), Padded(d.day, 2);
    ValueOfConcat(y, m);
    ValueOfConcat(y + m, dd);
    y + m + dd
  }

  /** The day key is what the hyphen stripper `format` makes of the ISO date. */
  lemma DayKeyIsStrippedIsoDate(d: Date)
    requires Valid(d) && FourDigitYear(d)
    ensures DayKey(d) == StripHyphens(IsoDate(d))
  {
    StripDateHyphens(Padded(d.year, 4), Padded(d.month, 2), Padded(d.day, 2));
  }

  /** Read as a number, a day key is YYYY * 10000 + MM * 100 + DD. */
  lemma DayKeyValue(d: Date)
    requires Valid(d) && FourDigitYear(d)
    ensures ValueOf(DayKey(d)) == d.year * 10000 + d.month * 100 + d.day
  {
    var y, m, dd := Padded(d.year, 4), Padded(d.month, 2), Padded(d.day, 2);
    ValueOfConcat(y, m);
    ValueOfConcat(y + m, dd);
    assert DayKey(d) == (y + m) + dd;
    assert Pow10(|m|) == 100 && Pow10(|dd|) == 100;
    KeyArithmetic(d.year, d.month, d.day, ValueOf(y + m), ValueOf(DayKey(d)));
  }

  lemma KeyArithmetic(y: int, m: int, d: int, ym: int, k: int)
    requires ym == y * 100 + m && k == ym * 100 + d
    ensures k == y * 10000 + m * 100 + d
  {
  }

  /** Later dates have numerically larger keys, so distinct dates have distinct keys. */
  lemma DayKeyOrder(a: Date, b: Date)
    requires Valid(a) && FourDigitYear(a) && Valid(b) && FourDigitYear(b)
    ensures Before(a, b) <==> ValueOf(DayKey(a)) < ValueOf(DayKey(b))
    ensures a == b <==> DayKey(a) == DayKey(b)
  {
    DayKeyValue(a);
    DayKeyValue(b);
    var ka, kb := DayKey(a), DayKey(b);
    FieldOrder(a.year, a.month, a.day, b.year, b.month, b.day, ValueOf(ka), ValueOf(kb));
    if ka == kb {
      assert ValueOf(ka) == ValueOf(kb);
      assert a.year == b.year && a.month == b.month && a.day == b.day;
    }
  }

  lemma FieldOrder(y: int, m: int, d: int, y': int, m': int, d': int, k: int, k': int)
    requires 1 <= m <= 12 && 1 <= d <= 31 && 1 <= m' <= 12 && 1 <= d' <= 31
    requires k == y * 10000 + m * 100 + d && k' == y' * 10000 + m' * 100 + d'
    ensures (y < y' || (y == y' && (m < m' || (m == m' && d < d')))) <==> k < k'
    ensures (y == y' && m == m' && d == d') <==> k == k'
  {
  }

  function Keys(days: seq<Date>): seq<string>
    requires forall i :: 0 <= i < |days| ==> Valid(days[i]) && FourDigitYear(days[i])
  {
    seq(|days|, i requires 0 <= i < |days| => DayKey(days[i]))
  }

  /** The days of the range all have 4-digit years when its end does. */
  lemma RangeYears(start: Date, end: Date)
    requires Valid(start) && Valid(end) && FourDigitYear(start) && FourDigitYear(end)
    ensures forall i :: 0 <= i < |DaysBetween(start, end)| ==>
      Valid(DaysBetween(start, end)[i]) && FourDigitYear(DaysBetween(start, end)[i])
  {
    DaysBetweenSpec(start, end);
    var r := DaysBetween(start, end);
    forall i | 0 <= i < |r|
      ensures FourDigitYear(r[i])
    {
      assert r[i] in r;
      assert NotAfter(r[i], end);
    }
  }

  /** The key sequence of the range `start..end`: the day axis. */
  function AxisKeys(start: Date, end: Date): seq<string>
    requires Valid(start) && Valid(end) && FourDigitYear(start) && FourDigitYear(end)
  {
    RangeYears(start, end);
    Keys(DaysBetween(start, end))
  }

  /**
   * The day axis is contiguous, ascending and complete: one 8-digit key per
   * calendar day from `start` to `end` inclusive (none when `start` is after
   * `end`), keys strictly increasing as numbers, and the key of a date on
   * the axis exactly when the date lies in the range.
   */
  lemma AxisKeysSpec(start: Date, end: Date)
    requires Valid(start) && Valid(end) && FourDigitYear(start) && FourDigitYear(end)
    ensures var axis := AxisKeys(start, end);
      && |axis| == (if NotAfter(start, end) then DayNumber(end) - DayNumber(start) + 1 else 0)
      && (forall i :: 0 <= i < |axis| ==> |axis[i]| == 8 && AllDigits(axis[i]))
      && (forall i, j :: 0 <= i < j < |axis| ==> ValueOf(axis[i]) < ValueOf(axis[j]))
      && (forall x :: Valid(x) && FourDigitYear(x) ==>
            (DayKey(x) in axis <==> NotAfter(start, x) && NotAfter(x, end)))
  {
    AxisLength(start, end);
    AxisAscending(start, end);
    AxisMembership(start, end);
  }

  lemma AxisLength(start: Date, end: Date)
    requires Valid(start) && Valid(end) && FourDigitYear(start) && FourDigitYear(end)
    ensures |AxisKeys(start, end)| == (if NotAfter(start, end) then DayNumber(end) - DayNumber(start) + 1 else 0)
    ensures forall i :: 0 <= i < |AxisKeys(start, end)| ==> |AxisKeys(start, end)[i]| == 8 && AllDigits(AxisKeys(start, end)[i])
  {
    DaysBetweenSpec(start, end);
  }

  lemma AxisAscending(start: Date, end: Date)
    requires Valid(start) && Valid(end) && FourDigitYear(start) && FourDigitYear(end)
    ensures forall i, j :: 0 <= i < j < |AxisKeys(start, end)| ==> ValueOf(AxisKeys(start, end)[i]) < ValueOf(AxisKeys(start, end)[j])
  {
    RangeYears(start, end);
    DaysAscending(start, end);
    KeysAscending(DaysBetween(start, end));
  }

  lemma AxisMembership(start: Date, end: Date)
    requires Valid(start) && Valid(end) && FourDigitYear(start) && FourDigitYear(end)
    ensures forall x :: Valid(x) && FourDigitYear(x) ==>
            (DayKey(x) in AxisKeys(start, end) <==> NotAfter(start, x) && NotAfter(x, end))
  {
    var days := DaysBetween(start, end);
    DaysBetweenSpec(start, end);
    RangeYears(start, end);
    forall x | Valid(x) && FourDigitYear(x)
      ensures DayKey(x) in Keys(days) <==> x in days
    {
      KeyInKeys(days, x);
    }
  }

  /** Prepending `start` to the range from the next day extends membership by exactly `start`. */
  lemma RangeMemberStep(start: Date, end: Date, tail: seq<Date>, x: Date)
    requires Valid(start) && Valid(end) && Valid(x) && NotAfter(start, end)
    requires Valid(NextDay(start)) && DayNumber(NextDay(start)) == DayNumber(start) + 1
    requires x in tail <==> NotAfter(NextDay(start), x) && NotAfter(x, end)
    ensures x in [start] + tail <==> NotAfter(start, x) && NotAfter(x, end)
  {
    var next := NextDay(start);
    assert x in [start] + tail <==> x == start || x in tail;
    BeforeIsDayNumberOrder(start, end);
    BeforeIsDayNumberOrder(start, x);
    BeforeIsDayNumberOrder(next, x);
    BeforeIsDayNumberOrder(x, next);
    BeforeIsDayNumberOrder(x, end);
    BeforeIsDayNumberOrder(end, x);
    BeforeIsDayNumberOrder(x, start);
  }

  lemma DaysAscending(start: Date, end: Date)
    requires Valid(start) && Valid(end)
    ensures forall i, j :: 0 <= i < j < |DaysBetween(start, end)| ==>
      Before(DaysBetween(start, end)[i], DaysBetween(start, end)[j])
  {
    var r := DaysBetween(start, end);
    DaysBetweenSpec(start, end);
    forall i, j | 0 <= i < j < |r|
      ensures Before(r[i], r[j])
    {
      BeforeIsDayNumberOrder(r[i], r[j]);
    }
  }

  lemma KeysAscending(days: seq<Date>)
    requires forall i :: 0 <= i < |days| ==> Valid(days[i]) && FourDigitYear(days[i])
    requires forall i, j :: 0 <= i < j < |days| ==> Before(days[i], days[j])
    ensures forall i, j :: 0 <= i < j < |days| ==> ValueOf(Keys(days)[i]) < ValueOf(Keys(days)[j])
  {
    forall i, j | 0 <= i < j < |days|
      ensures ValueOf(Keys(days)[i]) < ValueOf(Keys(days)[j])
    {
      DayKeyOrder(days[i], days[j]);
    }
  }

  lemma KeyInKeys(days: seq<Date>, x: Date)
    requires forall i :: 0 <= i < |days| ==> Valid(days[i]) && FourDigitYear(days[i])
    requires Valid(x) && FourDigitYear(x)
    ensures DayKey(x) in Keys(days) <==> x in days
  {
    if DayKey(x) in Keys(days) {
      KeyFound(days, Keys(days), x);
    }
    if x in days {
      var i :| 0 <= i < |days| && days[i] == x;
      assert Keys(days)[i] == DayKey(x);
    }
  }

  lemma KeyFound(days: seq<Date>, keys: seq<string>, x: Date)
    requires forall i :: 0 <= i < |days| ==> Valid(days[i]) && FourDigitYear(days[i])
    requires |keys| == |days| && forall i :: 0 <= i < |days| ==> keys[i] == DayKey(days[i])
    requires Valid(x) && FourDigitYear(x)
    requires DayKey(x) in keys
    ensures x in days
  {
    var i :| 0 <= i < |keys| && keys[i] == DayKey(x);
    DayKeyOrder(x, days[i]);
  }

  /**
   * The `while (curr <= end)` loop of the fetch: push the current day's key,
   * step to the next day.
   */
  method DayRange(start: Date, end: Date) returns (dateRange: seq<string>)
    requires Valid(start) && Valid(end) && FourDigitYear(start) && FourDigitYear(end)
    ensures dateRange == AxisKeys(start, end)
    ensures |dateRange| == if NotAfter(start, end) then DayNumber(end) - DayNumber(start) + 1 else 0
    ensures forall i, j :: 0 <= i < j < |dateRange| ==> ValueOf(dateRange[i]) < ValueOf(dateRange[j])
    ensures forall x :: Valid(x) && FourDigitYear(x) ==>
      (DayKey(x) in dateRange <==> NotAfter(start, x) && NotAfter(x, end))
  {
    ghost var axis := AxisKeys(start, end);
    dateRange := [];
    var curr := start;
    while NotAfter(curr, end)
      invariant Valid(curr) && DayNumber(curr) == DayNumber(start) + |dateRange|
      invariant |dateRange| <= |axis| && dateRange == axis[..|dateRange|]
      decreases DayNumber(end) - DayNumber(curr) + 1
    {
      RangeStep(start, end, curr, |dateRange|);
      var key := DayKey(curr);
      PushKey(axis, dateRange, key);
      dateRange := dateRange + [key];
      NextDayNumber(curr);
      curr := NextDay(curr);
    }
    RangeDone(start, end, curr, |dateRange|);
    assert axis[..|dateRange|] == axis;
    AxisKeysSpec(start, end);
  }

  lemma PushKey(axis: seq<string>, pushed: seq<string>, key: string)
    requires |pushed| < |axis| && pushed == axis[..|pushed|] && axis[|pushed|] == key
    ensures pushed + [key] == axis[..|pushed| + 1]
  {
  }

  /** While `curr <= end`, the day `curr` is the next day of the range. */
  lemma RangeStep(start: Date, end: Date, curr: Date, n: nat)
    requires Valid(start) && Valid(end) && Valid(curr) && FourDigitYear(start) && FourDigitYear(end)
    requires DayNumber(curr) == DayNumber(start) + n && NotAfter(curr, end)
    ensures FourDigitYear(curr) && DayNumber(end) - DayNumber(curr) >= 0
    ensures n < |AxisKeys(start, end)| && AxisKeys(start, end)[n] == DayKey(curr)
  {
    DaysBetweenSpec(start, end);
    RangeYears(start, end);
    BeforeIsDayNumberOrder(curr, end);
    BeforeIsDayNumberOrder(start, end);
    BeforeIsDayNumberOrder(curr, DaysBetween(start, end)[n]);
  }

  /** Once `curr` passes `end`, every day of the range has been pushed. */
  lemma RangeDone(start: Date, end: Date, curr: Date, n: nat)
    requires Valid(start) && Valid(end) && Valid(curr) && FourDigitYear(start) && FourDigitYear(end)
    requires DayNumber(curr) == DayNumber(start) + n && !NotAfter(curr, end)
    requires n <= |AxisKeys(start, end)|
    ensures n == |AxisKeys(start, end)|
  {
    DaysBetweenSpec(start, end);
    BeforeIsDayNumberOrder(curr, end);
    BeforeIsDayNumberOrder(end, curr);
    BeforeIsDayNumberOrder(start, end);
  }
}
