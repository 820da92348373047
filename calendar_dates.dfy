/**
 * Calendar dates of crad-calendar.jsx: the proleptic Gregorian calendar, day numbers,
 * the JavaScript weekday, and the `YYYY-MM-DD` text form produced by `formatDate` and
 * read back by `parseDate`.
 *
 * A date is a day number: day 0 is 1970-01-01.  The rest of the model compares dates as
 * integers; `FormatPreservesOrder` shows that this is the same as comparing their
 * zero-padded text forms, which is what the component does.
 */
module CalendarDates {
  import opened Wrappers

  /** Days since 1970-01-01. */
  type Date = int

  /** The local calendar fields of a JavaScript `Date`, with a 1-based month. */
  datatype Civil = Civil(year: int, month: int, day: int)

  // ---------------------------------------------------------------------------
  // Gregorian calendar and day numbers
  // ---------------------------------------------------------------------------

  predicate IsLeapYear(y: int) {
    y % 4 == 0 && (y % 100 != 0 || y % 400 == 0)
  }

  function DaysInMonth(y: int, m: int): (n: int)
    requires 1 <= m <= 12
    ensures 28 <= n <= 31
    ensures m == 2 ==> (n == 29 <==> IsLeapYear(y))
  {
    if m == 2 then (if IsLeapYear(y) then 29 else 28)
    else if m == 4 || m == 6 || m == 9 || m == 11 then 30
    else 31
  }

  predicate ValidCivil(c: Civil) {
    1 <= c.month <= 12 && 1 <= c.day <= DaysInMonth(c.year, c.month)
  }

  /** Days of year `y` that lie before the first of month `m` (13 stands for the next January). */
  function DaysBeforeMonth(y: int, m: int): int
    requires 1 <= m <= 13
  {
    [0, 31, 59, 90, 120, 151, 181, 212, 243, 273, 304, 334, 365][m - 1]
    + (if IsLeapYear(y) && m > 2 then 1 else 0)
  }

  /** Number of leap years among 1 .. y-1 (a relative count, valid for every integer y). */
  function LeapYearsBefore(y: int): int {
    (y - 1) / 4 - (y - 1) / 100 + (y - 1) / 400
  }

  /** Day number of January 1st of year `y`. */
  function YearStart(y: int): Date {
    365 * (y - 1970) + LeapYearsBefore(y) - LeapYearsBefore(1970)
  }

  /**
   * Day number of a civil date.  As with `new Date(year, month - 1, day)`, a day past the
   * end of the month carries into the following days; day 0 is the last day of the
   * previous month.
   */
  function DayNumber(c: Civil): Date
    requires 1 <= c.month <= 12
  {
    YearStart(c.year) + DaysBeforeMonth(c.year, c.month) + c.day - 1
  }

  /**
   * First and last day of month `m` of year `y`.  From year 100 on these are
   * `new Date(y, m - 1, 1)` and `new Date(y, m, 0)`; `MonthBounds` covers years 0-99.
   */
  function FirstOfMonth(y: int, m: int): (d: Date)
    requires 1 <= m <= 12
    ensures y >= 100 ==> d == DateOf(Civil(y, m, 1))
  {
    DateOfMonth(y, m, 1);
    DayNumber(Civil(y, m, 1))
  }

  function LastOfMonth(y: int, m: int): (d: Date)
    requires 1 <= m <= 12
    ensures d == FirstOfMonth(y, m) + DaysInMonth(y, m) - 1
    ensures y >= 100 ==> d == DateOf(Civil(y, m + 1, 0))
  {
    if m == 12 then
      DateOfNextYear(y, 0);
      YearLength(y);
      DayNumber(Civil(y, m, DaysInMonth(y, m)))
    else
      DateOfMonth(y, m + 1, 0);
      MonthLength(y, m);
      DayNumber(Civil(y, m, DaysInMonth(y, m)))
  }

  /** `Date.prototype.getDay`: 0 is Sunday, 1 Monday, ..., 6 Saturday. */
  function Weekday(d: Date): (w: int)
    ensures 0 <= w < 7
    ensures w == 4 <==> d % 7 == 0
  {
    (d + 4) % 7
  }

  /** The next day is the next weekday, Saturday wrapping round to Sunday. */
  lemma WeekdayStep(d: Date)
    ensures Weekday(d + 1) == (Weekday(d) + 1) % 7
    ensures Weekday(d + 7) == Weekday(d)
  {
  }

  const Sunday := 0
  const Monday := 1
  const Friday := 5

  lemma EpochIsThursday()
    ensures DayNumber(Civil(1970, 1, 1)) == 0 && Weekday(0) == 4
  {
  }

  lemma LeapStep(y: int)
    ensures LeapYearsBefore(y + 1) - LeapYearsBefore(y) == if IsLeapYear(y) then 1 else 0
  {
    DivStep4(y);
    DivStep100(y);
    DivStep400(y);
  }

  lemma DivStep4(y: int)
    ensures y / 4 - (y - 1) / 4 == if y % 4 == 0 then 1 else 0
  {
    var q, r := (y - 1) / 4, (y - 1) % 4;
    assert y - 1 == 4 * q + r && 0 <= r < 4;
  }

  lemma DivStep100(y: int)
    ensures y / 100 - (y - 1) / 100 == if y % 100 == 0 then 1 else 0
  {
    var q, r := (y - 1) / 100, (y - 1) % 100;
    assert y - 1 == 100 * q + r && 0 <= r < 100;
  }

  lemma DivStep400(y: int)
    ensures y / 400 - (y - 1) / 400 == if y % 400 == 0 then 1 else 0
  {
    var q, r := (y - 1) / 400, (y - 1) % 400;
    assert y - 1 == 400 * q + r && 0 <= r < 400;
  }

  /** A year is exactly as long as its twelve months: the next year starts right after December 31st. */
  lemma YearLength(y: int)
    ensures YearStart(y + 1) == YearStart(y) + DaysBeforeMonth(y, 13)
    ensures YearStart(y + 1) == DayNumber(Civil(y, 12, 31)) + 1
  {
    LeapStep(y);
  }

  /** The first of month m + 1 follows the last day of month m. */
  lemma MonthLength(y: int, m: int)
    requires 1 <= m <= 12
    ensures DaysBeforeMonth(y, m + 1) == DaysBeforeMonth(y, m) + DaysInMonth(y, m)
  {
  }

  lemma {:induction false} YearStartMonotone(a: int, b: int)
    requires a < b
    ensures YearStart(a) + 365 <= YearStart(b)
    decreases b - a
  {
    YearLength(a);
    if a + 1 < b {
      YearStartMonotone(a + 1, b);
    }
  }

  lemma {:induction false} DaysBeforeMonthMonotone(y: int, m: int, n: int)
    requires 1 <= m < n <= 13
    ensures DaysBeforeMonth(y, m) + DaysInMonth(y, m) <= DaysBeforeMonth(y, n)
    decreases n - m
  {
    MonthLength(y, m);
    if m + 1 < n {
      DaysBeforeMonthMonotone(y, m + 1, n);
    }
  }

  /** Lexicographic order of (year, month, day). */
  predicate CivilBefore(a: Civil, b: Civil) {
    a.year < b.year
    || (a.year == b.year && (a.month < b.month || (a.month == b.month && a.day < b.day)))
  }

  lemma CivilBeforeImpliesSmaller(a: Civil, b: Civil)
    requires ValidCivil(a) && ValidCivil(b) && CivilBefore(a, b)
    ensures DayNumber(a) < DayNumber(b)
  {
    if a.year < b.year {
      YearLength(a.year);
      DaysBeforeMonthMonotone(a.year, a.month, 13);
      YearStartMonotone(a.year + 1, b.year + 1);
      if a.year + 1 < b.year {
        YearStartMonotone(a.year + 1, b.year);
      }
    } else if a.month < b.month {
      DaysBeforeMonthMonotone(a.year, a.month, b.month);
    }
  }

  /** Day numbering is an order isomorphism between valid civil dates and integers. */
  lemma DayNumberOrder(a: Civil, b: Civil)
    requires ValidCivil(a) && ValidCivil(b)
    ensures CivilBefore(a, b) <==> DayNumber(a) < DayNumber(b)
    ensures a == b <==> DayNumber(a) == DayNumber(b)
  {
    if CivilBefore(a, b) {
      CivilBeforeImpliesSmaller(a, b);
    } else if CivilBefore(b, a) {
      CivilBeforeImpliesSmaller(b, a);
    }
  }

  // ---------------------------------------------------------------------------
  // Text: decimal digits, JavaScript string order, split
  // ---------------------------------------------------------------------------

  function DigitChar(d: int): char
    requires 0 <= d < 10
  {
    "0123456789"[d]
  }

  predicate IsDigit(ch: char) {
    '0' <= ch <= '9'
  }

  /** `String(n)` for a non-negative integer. */
  function Decimal(n: nat): (s: string)
    ensures |s| >= 1
    ensures forall i :: 0 <= i < |s| ==> IsDigit(s[i])
  {
    if n < 10 then [DigitChar(n)] else Decimal(n / 10) + [DigitChar(n % 10)]
  }

  /** `String(n)` for any integer. */
  function IntString(n: int): string {
    if n < 0 then "-" + Decimal(-n) else Decimal(n)
  }

  /** `String(n).padStart(2, '0')`. */
  function Pad2(n: int): string {
    var s := IntString(n);
    if |s| < 2 then "0" + s else s
  }

  /** Exactly `w` decimal digits of `n`, high-order first, with leading zeros. */
  function Fixed(n: nat, w: nat): (s: string)
    ensures |s| == w
  {
    if w == 0 then [] else Fixed(n / 10, w - 1) + [DigitChar(n % 10)]
  }

  function Pow10(w: nat): (p: nat)
    ensures p >= 1
  {
    if w == 0 then 1 else 10 * Pow10(w - 1)
  }

  /** JavaScript's `<` on strings: lexicographic on code units. */
  predicate TextLess(a: string, b: string) {
    if |a| == 0 then |b| > 0
    else if |b| == 0 then false
    else if a[0] != b[0] then a[0] < b[0]
    else TextLess(a[1..], b[1..])
  }

  /** `s.split(sep)`. */
  function Split(s: string, sep: char): (parts: seq<string>)
    ensures |parts| >= 1
  {
    if |s| == 0 then [""]
    else
      var rest := Split(s[1..], sep);
      if s[0] == sep then [""] + rest else [[s[0]] + rest[0]] + rest[1..]
  }

  /** The value of a non-empty string of decimal digits (`Number(s)` on such a string). */
  function DigitsValue(s: string): (n: nat)
    requires forall i :: 0 <= i < |s| ==> IsDigit(s[i])
  {
    if |s| == 0 then 0 else 10 * DigitsValue(s[..|s| - 1]) + DigitValue(s[|s| - 1])
  }

  function DigitValue(ch: char): (d: nat)
    requires IsDigit(ch)
    ensures d < 10
  {
    ch as int - '0' as int
  }

  predicate AllDigits(s: string) {
    |s| > 0 && forall i :: 0 <= i < |s| ==> IsDigit(s[i])
  }

  // ---------------------------------------------------------------------------
  // formatDate and parseDate
  // ---------------------------------------------------------------------------

  /**
   * `formatDate`: year as written by `String`, month and day padded to two digits.  For a
   * four-digit year this is the fixed-width `YYYY-MM-DD` form.
   */
  function FormatDate(c: Civil): (s: string)
    ensures 1000 <= c.year <= 9999 && 1 <= c.month <= 12 && 1 <= c.day <= 31 ==>
      s == Fixed(c.year, 4) + "-" + Fixed(c.month, 2) + "-" + Fixed(c.day, 2)
  {
    if 1000 <= c.year <= 9999 && 1 <= c.month <= 12 && 1 <= c.day <= 31 then
      assert Pow10(3) == 1000 && Pow10(4) == 10000;
      DecimalIsFixed(c.year, 4);
      Pad2IsFixed(c.month);
      Pad2IsFixed(c.day);
      IntString(c.year) + "-" + Pad2(c.month) + "-" + Pad2(c.day)
    else
      IntString(c.year) + "-" + Pad2(c.month) + "-" + Pad2(c.day)
  }

  /**
   * The three numbers `parseDate` hands to the `Date` constructor: the first three
   * `-`-separated fields of the text, read as decimal numbers.  Text whose first three
   * fields are not all digit runs gives `None`.
   */
  function DateFields(s: string): (r: Option<Civil>)
    ensures r.Some? ==> r.value.year >= 0 && r.value.month >= 0 && r.value.day >= 0
  {
    var parts := Split(s, '-');
    if |parts| >= 3 && AllDigits(parts[0]) && AllDigits(parts[1]) && AllDigits(parts[2]) then
      Some(Civil(DigitsValue(parts[0]), DigitsValue(parts[1]), DigitsValue(parts[2])))
    else None
  }

  /**
   * `new Date(year, month - 1, day)` as a day number.  A year argument 0 .. 99 stands for
   * 1900 + year; a month past December carries into the next year and month 0 is the
   * previous December; a day past the end of the month carries into the next month.
   */
  function DateOf(c: Civil): (d: Date)
    ensures 1 <= c.month <= 12 && c.year >= 100 ==> d == DayNumber(c)
    ensures 1 <= c.month <= 12 && 0 <= c.year <= 99 ==> d == DayNumber(Civil(1900 + c.year, c.month, c.day))
    ensures c.month == 13 && c.year >= 100 ==> d == DayNumber(Civil(c.year + 1, 1, c.day))
    ensures c.month == 0 && c.year >= 100 ==> d == DayNumber(Civil(c.year - 1, 12, c.day))
  {
    var monthIndex := c.month - 1;
    DayNumber(Civil(FullYear(c.year) + monthIndex / 12, monthIndex % 12 + 1, c.day))
  }

  /** The year the `Date` constructor uses: 0-99 stand for 1900-1999. */
  function FullYear(y: int): int {
    if 0 <= y <= 99 then 1900 + y else y
  }

  /**
   * `new Date(y, m - 1, 1)` and `new Date(y, m, 0)`, as `getMonthDates` builds them, are the
   * first and last day of month `m` of `FullYear(y)`: for years 0-99, of the 1900s.
   */
  lemma MonthBounds(y: int, m: int)
    requires 1 <= m <= 12
    ensures DateOf(Civil(y, m, 1)) == FirstOfMonth(FullYear(y), m)
    ensures DateOf(Civil(y, m + 1, 0)) == LastOfMonth(FullYear(y), m)
  {
    DateOfMonth(y, m, 1);
    if m == 12 {
      DateOfNextYear(y, 0);
      NewYearsEve(FullYear(y));
    } else {
      DateOfMonth(y, m + 1, 0);
      DayZero(FullYear(y), m);
    }
  }

  /** Day 0 of a month is the last day of the month before it. */
  lemma DayZero(y: int, m: int)
    requires 1 <= m < 12
    ensures DayNumber(Civil(y, m + 1, 0)) == LastOfMonth(y, m)
  {
    MonthLength(y, m);
  }

  /** Day 0 of January is the last day of the previous December. */
  lemma NewYearsEve(y: int)
    ensures DayNumber(Civil(y + 1, 1, 0)) == LastOfMonth(y, 12)
  {
    YearLength(y);
  }

  lemma DateOfMonth(y: int, m: int, day: int)
    requires 1 <= m <= 12
    ensures DateOf(Civil(y, m, day)) == DayNumber(Civil(FullYear(y), m, day))
  {
    assert (m - 1) / 12 == 0 && (m - 1) % 12 == m - 1;
  }

  lemma DateOfNextYear(y: int, day: int)
    ensures DateOf(Civil(y, 13, day)) == DayNumber(Civil(FullYear(y) + 1, 1, day))
  {
    assert 12 / 12 == 1 && 12 % 12 == 0;
  }

  /**
   * A `YYYY-MM-DD` text naming a real date with a four-digit year, the only kind the
   * component writes into its events and reminders.
   */
  predicate IsDateText(s: string) {
    |s| == 10 && s[4] == '-' && s[7] == '-'
    && AllDigits(s[..4]) && AllDigits(s[5..7]) && AllDigits(s[8..])
    && DigitsValue(s[..4]) >= 1000
    && ValidCivil(Civil(DigitsValue(s[..4]), DigitsValue(s[5..7]), DigitsValue(s[8..])))
  }

  /**
   * `parseDate`: the `Date` built from the text's fields.  On a `YYYY-MM-DD` text it is
   * the day the text names, and `formatDate` of that day gives the text back.
   */
  function ParseDate(s: string): (r: Option<Date>)
    ensures r.Some? <==> DateFields(s).Some?
    ensures IsDateText(s) ==>
      && DateFields(s).Some? && ValidCivil(DateFields(s).value)
      && r == Some(DayNumber(DateFields(s).value))
      && FormatDate(DateFields(s).value) == s
  {
    var fields := DateFields(s);
    var r := if fields.Some? then Some(DateOf(fields.value)) else None;
    if IsDateText(s) then FormatParse(s); r else r
  }

  // ---------------------------------------------------------------------------
  // Lemmas: the text form is a faithful, order-preserving encoding
  // ---------------------------------------------------------------------------

  lemma {:induction false} DecimalValue(n: nat)
    ensures DigitsValue(Decimal(n)) == n
  {
    if n >= 10 {
      var s := Decimal(n);
      assert s[..|s| - 1] == Decimal(n / 10);
      DecimalValue(n / 10);
    }
  }

  lemma {:induction false} SplitNoSep(a: string, sep: char)
    requires forall i :: 0 <= i < |a| ==> a[i] != sep
    ensures Split(a, sep) == [a]
  {
    if |a| > 0 {
      SplitNoSep(a[1..], sep);
      assert [a[0]] + a[1..] == a;
    }
  }

  lemma {:induction false} SplitAt(a: string, sep: char, b: string)
    requires forall i :: 0 <= i < |a| ==> a[i] != sep
    ensures Split(a + [sep] + b, sep) == [a] + Split(b, sep)
  {
    var s := a + [sep] + b;
    if |a| == 0 {
      assert s[1..] == b;
    } else {
      assert s[1..] == a[1..] + [sep] + b;
      SplitAt(a[1..], sep, b);
      assert [a[0]] + a[1..] == a;
    }
  }

  /** The fields `parseDate` reads from `formatDate(d)` are the calendar fields of `d`. */
  lemma FieldsRoundTrip(c: Civil)
    requires c.year >= 0 && 1 <= c.month <= 12 && 1 <= c.day <= 31
    ensures DateFields(FormatDate(c)) == Some(c)
  {
    var y, m, d := Decimal(c.year), Pad2(c.month), Pad2(c.day);
    assert forall i :: 0 <= i < |y| ==> y[i] != '-';
    assert forall i :: 0 <= i < |m| ==> m[i] != '-';
    assert forall i :: 0 <= i < |d| ==> d[i] != '-';
    assert FormatDate(c) == y + ['-'] + (m + ['-'] + d);
    SplitAt(y, '-', m + ['-'] + d);
    SplitAt(m, '-', d);
    SplitNoSep(d, '-');
    DecimalValue(c.year);
    Pad2Value(c.month);
    Pad2Value(c.day);
  }

  /**
   * `parseDate(formatDate(d))` is `d` again from the year 100 on.  The day may lie past
   * the end of its month (as in 2026-02-31): both sides then carry into the next month.
   */
  lemma ParseFormat(c: Civil)
    requires c.year >= 100 && 1 <= c.month <= 12 && 1 <= c.day <= 31
    ensures ParseDate(FormatDate(c)) == Some(DayNumber(c))
  {
    FieldsRoundTrip(c);
  }

  /** Years 0 .. 99 do not survive the round trip: the `Date` constructor reads them as 19xx. */
  lemma TwoDigitYears(c: Civil)
    requires 0 <= c.year <= 99 && 1 <= c.month <= 12 && 1 <= c.day <= 31
    ensures ParseDate(FormatDate(c)) == Some(DayNumber(Civil(1900 + c.year, c.month, c.day)))
    ensures ParseDate(FormatDate(c)) != Some(DayNumber(c))
  {
    FieldsRoundTrip(c);
    YearStartMonotone(c.year, 1900 + c.year);
  }

  /** A day past the end of the month carries over: "2026-02-31" is read as 3 March 2026. */
  lemma OverflowExample()
    ensures ParseDate(FormatDate(Civil(2026, 2, 31))) == Some(DayNumber(Civil(2026, 3, 3)))
  {
    ParseFormat(Civil(2026, 2, 31));
    assert !IsLeapYear(2026);
    assert DaysBeforeMonth(2026, 2) == 31 && DaysBeforeMonth(2026, 3) == 59;
    assert DayNumber(Civil(2026, 2, 31)) == YearStart(2026) + 61;
    assert DayNumber(Civil(2026, 3, 3)) == YearStart(2026) + 61;
  }

  /** Reading a `YYYY-MM-DD` text and writing its fields back gives the same text. */
  lemma FormatParse(s: string)
    requires IsDateText(s)
    ensures DateFields(s) == Some(Civil(DigitsValue(s[..4]), DigitsValue(s[5..7]), DigitsValue(s[8..])))
    ensures FormatDate(DateFields(s).value) == s
  {
    var y, m, d := s[..4], s[5..7], s[8..];
    SplitDateText(s);
    var c := Civil(DigitsValue(y), DigitsValue(m), DigitsValue(d));
    assert DateFields(s) == Some(c);
    FormatDigits(y, m, d);
    assert y + "-" + m + "-" + d == s;
  }

  /** Writing the values of three digit runs of widths 4, 2 and 2 gives those runs back. */
  lemma FormatDigits(y: string, m: string, d: string)
    requires |y| == 4 && |m| == 2 && |d| == 2
    requires AllDigits(y) && AllDigits(m) && AllDigits(d)
    requires DigitsValue(y) >= 1000
    requires 1 <= DigitsValue(m) <= 12 && 1 <= DigitsValue(d) <= 31
    ensures FormatDate(Civil(DigitsValue(y), DigitsValue(m), DigitsValue(d))) == y + "-" + m + "-" + d
  {
    FixedDigits(y);
    FixedDigits(m);
    FixedDigits(d);
    assert Pow10(4) == 10000 && Pow10(2) == 100;
  }

  lemma SplitDateText(s: string)
    requires |s| == 10 && s[4] == '-' && s[7] == '-'
    requires AllDigits(s[..4]) && AllDigits(s[5..7]) && AllDigits(s[8..])
    ensures Split(s, '-') == [s[..4], s[5..7], s[8..]]
  {
    var y, m, d := s[..4], s[5..7], s[8..];
    assert s == y + ['-'] + (m + ['-'] + d);
    SplitAt(y, '-', m + ['-'] + d);
    SplitAt(m, '-', d);
    SplitNoSep(d, '-');
  }

  /** A run of `w` digits is the `w`-digit form of its own value. */
  lemma {:induction false} FixedDigits(t: string)
    requires forall i :: 0 <= i < |t| ==> IsDigit(t[i])
    ensures DigitsValue(t) < Pow10(|t|)
    ensures Fixed(DigitsValue(t), |t|) == t
  {
    if |t| > 0 {
      var p, last := t[..|t| - 1], t[|t| - 1];
      FixedDigits(p);
      var n := DigitsValue(t);
      assert n / 10 == DigitsValue(p) && n % 10 == DigitValue(last);
      DigitRoundTrip(last);
      assert t == p + [last];
    }
  }

  lemma DigitRoundTrip(ch: char)
    requires IsDigit(ch)
    ensures DigitChar(DigitValue(ch)) == ch
  {
    var k := DigitValue(ch);
    assert k == 0 || k == 1 || k == 2 || k == 3 || k == 4 || k == 5 || k == 6 || k == 7 || k == 8 || k == 9;
  }

  lemma Pad2Value(n: int)
    requires 1 <= n <= 99
    ensures AllDigits(Pad2(n)) && DigitsValue(Pad2(n)) == n
  {
    DecimalValue(n);
    if n < 10 {
      var s := Pad2(n);
      assert s == "0" + Decimal(n);
      assert s[..1] == "0";
    }
  }

  /** On valid dates, the text form and the calendar fields determine each other. */
  lemma FormatInjective(a: Civil, b: Civil)
    requires a.year >= 0 && 1 <= a.month <= 12 && 1 <= a.day <= 31
    requires b.year >= 0 && 1 <= b.month <= 12 && 1 <= b.day <= 31
    ensures FormatDate(a) == FormatDate(b) <==> a == b
  {
    FieldsRoundTrip(a);
    FieldsRoundTrip(b);
  }

  lemma {:induction false} TextLessConcat(x: string, y: string, x': string, y': string)
    requires |x| == |x'|
    ensures TextLess(x + y, x' + y') <==> TextLess(x, x') || (x == x' && TextLess(y, y'))
  {
    if |x| > 0 {
      assert (x + y)[1..] == x[1..] + y;
      assert (x' + y')[1..] == x'[1..] + y';
      TextLessConcat(x[1..], y, x'[1..], y');
      if x[0] == x'[0] {
        assert x == x' <==> x[1..] == x'[1..];
      }
    } else {
      assert x + y == y && x' + y' == y';
    }
  }

  lemma {:induction false} FixedOrder(a: nat, b: nat, w: nat)
    requires a < Pow10(w) && b < Pow10(w)
    ensures TextLess(Fixed(a, w), Fixed(b, w)) <==> a < b
    ensures Fixed(a, w) == Fixed(b, w) <==> a == b
  {
    if w > 0 {
      FixedOrder(a / 10, b / 10, w - 1);
      TextLessConcat(Fixed(a / 10, w - 1), [DigitChar(a % 10)], Fixed(b / 10, w - 1), [DigitChar(b % 10)]);
      var fa, fb := Fixed(a, w), Fixed(b, w);
      if fa == fb {
        assert fa[w - 1] == fb[w - 1] && fa[..w - 1] == fb[..w - 1];
        assert Fixed(a / 10, w - 1) == fa[..w - 1];
        assert Fixed(b / 10, w - 1) == fb[..w - 1];
      }
    }
  }

  lemma {:induction false} DecimalIsFixed(n: nat, w: nat)
    requires w >= 1 && Pow10(w - 1) <= n < Pow10(w)
    ensures Decimal(n) == Fixed(n, w)
  {
    if w > 1 {
      DecimalIsFixed(n / 10, w - 1);
    } else {
      assert Fixed(n / 10, 0) == [];
    }
  }

  lemma Pad2IsFixed(n: int)
    requires 1 <= n <= 99
    ensures Pad2(n) == Fixed(n, 2)
  {
    if n < 10 {
      DecimalIsFixed(n, 1);
      assert Fixed(n / 10, 1) == "0";
    } else {
      DecimalIsFixed(n, 2);
    }
  }

  /** Strings of the shape `Y-M-D` with fields of equal widths compare field by field. */
  lemma FieldsOrder(ya: string, ma: string, da: string, yb: string, mb: string, db: string)
    requires |ya| == |yb| && |ma| == |mb|
    ensures TextLess(ya + "-" + ma + "-" + da, yb + "-" + mb + "-" + db)
        <==> TextLess(ya, yb) || (ya == yb && (TextLess(ma, mb) || (ma == mb && TextLess(da, db))))
  {
    assert ya + "-" + ma + "-" + da == ya + ("-" + (ma + ("-" + da)));
    assert yb + "-" + mb + "-" + db == yb + ("-" + (mb + ("-" + db)));
    TextLessConcat(ya, "-" + (ma + ("-" + da)), yb, "-" + (mb + ("-" + db)));
    TextLessConcat("-", ma + ("-" + da), "-", mb + ("-" + db));
    TextLessConcat(ma, "-" + da, mb, "-" + db);
    TextLessConcat("-", da, "-", db);
    assert "-" + (ma + ("-" + da)) == "-" + (mb + ("-" + db)) <==> ma + ("-" + da) == mb + ("-" + db);
    assert "-" + da == "-" + db <==> da == db;
  }

  /** With four-digit years, comparing `formatDate` strings compares the calendar fields. */
  lemma FormatOrderIsCivilOrder(a: Civil, b: Civil)
    requires 1000 <= a.year <= 9999 && 1 <= a.month <= 12 && 1 <= a.day <= 31
    requires 1000 <= b.year <= 9999 && 1 <= b.month <= 12 && 1 <= b.day <= 31
    ensures TextLess(FormatDate(a), FormatDate(b)) <==> CivilBefore(a, b)
  {
    assert Pow10(2) == 100 && Pow10(4) == 10000;
    FixedOrder(a.year, b.year, 4);
    FixedOrder(a.month, b.month, 2);
    FixedOrder(a.day, b.day, 2);
    FieldsOrder(Fixed(a.year, 4), Fixed(a.month, 2), Fixed(a.day, 2), Fixed(b.year, 4), Fixed(b.month, 2), Fixed(b.day, 2));
  }

  /**
   * The component compares dates as `YYYY-MM-DD` strings; for valid dates with four-digit
   * years that is exactly the comparison of their day numbers, so the model compares
   * day numbers.
   */
  lemma FormatPreservesOrder(a: Civil, b: Civil)
    requires ValidCivil(a) && ValidCivil(b)
    requires 1000 <= a.year <= 9999 && 1000 <= b.year <= 9999
    ensures TextLess(FormatDate(a), FormatDate(b)) <==> DayNumber(a) < DayNumber(b)
    ensures FormatDate(a) == FormatDate(b) <==> DayNumber(a) == DayNumber(b)
  {
    FormatOrderIsCivilOrder(a, b);
    DayNumberOrder(a, b);
    FormatInjective(a, b);
  }
}
