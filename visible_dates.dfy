/**
 * The runs of visible days for each view of crad-calendar.jsx: `getWeekDates`,
 * `getBiWeeklyDates` and `getMonthDates`.  All views start their weeks on Monday.
 */
module VisibleDates {
  import opened CalendarDates

  /** Consecutive days starting at `first`. */
  predicate ConsecutiveFrom(dates: seq<Date>, first: Date) {
    forall i :: 0 <= i < |dates| ==> dates[i] == first + i
  }

  /** The Monday on or before `d`: a Sunday steps back six days, never forward. */
  method MondayOnOrBefore(d: Date) returns (monday: Date)
    ensures Weekday(monday) == Monday
    ensures monday <= d <= monday + 6
  {
    var dayOfWeek := Weekday(d);
    var diff := if dayOfWeek == Sunday then -6 else 1 - dayOfWeek;
    monday := d + diff;
    assert d + 4 == 7 * ((d + 4) / 7) + dayOfWeek;
  }

  /** The `for` loop that pushes `count` days from `start`, stepping `curr` by one day. */
  method DaysFrom(start: Date, count: nat) returns (dates: seq<Date>)
    ensures |dates| == count
    ensures ConsecutiveFrom(dates, start)
  {
    var curr := start;
    dates := [];
    for i := 0 to count
      invariant |dates| == i && curr == start + i
      invariant ConsecutiveFrom(dates, start)
    {
      dates := dates + [curr];
      curr := curr + 1;
    }
  }

  /** `getWeekDates`: the Monday-first week that holds `anchor`. */
  method WeekDates(anchor: Date) returns (week: seq<Date>)
    ensures |week| == 7
    ensures ConsecutiveFrom(week, week[0])
    ensures Weekday(week[0]) == Monday
    ensures week[0] <= anchor <= week[6]
  {
    var monday := MondayOnOrBefore(anchor);
    week := DaysFrom(monday, 7);
  }

  /** `getBiWeeklyDates`: that week and the following one. */
  method BiWeeklyDates(anchor: Date) returns (dates: seq<Date>)
    ensures |dates| == 14
    ensures ConsecutiveFrom(dates, dates[0])
    ensures Weekday(dates[0]) == Monday
    ensures dates[0] <= anchor <= dates[6]
  {
    var monday := MondayOnOrBefore(anchor);
    dates := DaysFrom(monday, 14);
  }

  /** The Sunday on or after `d`. */
  method SundayOnOrAfter(d: Date) returns (sunday: Date)
    ensures Weekday(sunday) == Sunday
    ensures d <= sunday <= d + 6
  {
    var dayOfWeek := Weekday(d);
    var diff := if dayOfWeek == Sunday then 0 else 7 - dayOfWeek;
    sunday := d + diff;
    assert d + 4 == 7 * ((d + 4) / 7) + dayOfWeek;
  }

  /**
   * `getMonthDates` for the anchor's `year` and 1-based `month`: from the Monday on or
   * before `new Date(year, month - 1, 1)` through the Sunday on or after
   * `new Date(year, month, 0)`, the month's last day.
   */
  method MonthDates(year: int, month: int) returns (dates: seq<Date>)
    requires 1 <= month <= 12
    ensures |dates| > 0 && |dates| % 7 == 0
    ensures ConsecutiveFrom(dates, dates[0])
    ensures Weekday(dates[0]) == Monday && Weekday(dates[|dates| - 1]) == Sunday
    ensures dates[0] <= DateOf(Civil(year, month, 1)) < dates[0] + 7
    ensures DateOf(Civil(year, month + 1, 0)) <= dates[|dates| - 1] < DateOf(Civil(year, month + 1, 0)) + 7
  {
    var firstDay := DateOf(Civil(year, month, 1));
    var lastDay := DateOf(Civil(year, month + 1, 0));
    MonthBounds(year, month);
    var startDate := MondayOnOrBefore(firstDay);
    var endDate := SundayOnOrAfter(lastDay);

    dates := [];
    var curr := startDate;
    while curr <= endDate
      invariant startDate <= curr <= endDate + 1
      invariant curr == startDate + |dates|
      invariant ConsecutiveFrom(dates, startDate)
      decreases endDate - curr
    {
      dates := dates + [curr];
      curr := curr + 1;
    }
    WholeWeeks(startDate, endDate);
  }

  lemma WholeWeeks(monday: Date, sunday: Date)
    requires Weekday(monday) == Monday && Weekday(sunday) == Sunday && monday <= sunday
    ensures (sunday - monday + 1) % 7 == 0
  {
    var p, q := (monday + 4) / 7, (sunday + 4) / 7;
    assert monday + 4 == 7 * p + 1 && sunday + 4 == 7 * q;
    assert sunday - monday + 1 == 7 * (q - p);
  }

  /**
   * Every day of the month is visible in the monthly view; for an anchor year 0-99 the
   * month shown is the one in the 1900s.
   */
  lemma MonthDatesCoverMonth(year: int, month: int, dates: seq<Date>, d: Date)
    requires 1 <= month <= 12 && |dates| > 0 && ConsecutiveFrom(dates, dates[0])
    requires dates[0] <= DateOf(Civil(year, month, 1))
    requires DateOf(Civil(year, month + 1, 0)) <= dates[|dates| - 1]
    requires FirstOfMonth(FullYear(year), month) <= d <= LastOfMonth(FullYear(year), month)
    ensures d in dates && dates[d - dates[0]] == d
  {
    MonthBounds(year, month);
    var last := |dates| - 1;
    assert dates[last] == dates[0] + last;
    var k := d - dates[0];
    assert 0 <= k <= last;
    assert dates[k] == d;
  }
}
