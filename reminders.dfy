/** Recurring reminders of crad-calendar.jsx (`REMINDERS` and `getRemindersForDate`). */
module Reminders {
  import opened CalendarDates

  /** `startDate` is the first occurrence; the reminder repeats every `intervalDays` days. */
  datatype Reminder = Reminder(id: string, caption: string, startDate: Date, intervalDays: int, color: string)

  /**
   * `REMINDERS`, in configuration order: the time card every 14 days from Monday
   * 2026-01-05, payday every 14 days from Friday 2026-01-09.
   */
  function Configured(): (rs: seq<Reminder>)
    ensures |rs| == 2 && rs[0].id == "timecard" && rs[1].id == "payday"
    ensures rs[0].startDate == DayNumber(Civil(2026, 1, 5)) && rs[1].startDate == DayNumber(Civil(2026, 1, 9))
    ensures forall r :: r in rs ==> r.intervalDays == 14
    ensures Weekday(rs[0].startDate) == Monday && Weekday(rs[1].startDate) == Friday
  {
    [
      Reminder("timecard", "Time Card", DayNumber(Civil(2026, 1, 5)), 14, "bg-amber-500"),
      Reminder("payday", "Payday", DayNumber(Civil(2026, 1, 9)), 14, "bg-emerald-500")
    ]
  }

  /**
   * The filter test: the day difference is non-negative and a multiple of the interval.
   * JavaScript's `%` by zero is NaN, so an interval of 0 never fires; with a non-negative
   * difference, truncating and Euclidean remainders agree.
   */
  predicate FiresOn(r: Reminder, date: Date) {
    var diffDays := date - r.startDate;
    diffDays >= 0 && r.intervalDays != 0 && diffDays % r.intervalDays == 0
  }

  /** `getRemindersForDate`: the reminders that fire on `date`, in configuration order. */
  function RemindersForDate(reminders: seq<Reminder>, date: Date): (fired: seq<Reminder>)
    ensures |fired| <= |reminders|
    ensures forall r :: r in fired <==> r in reminders && FiresOn(r, date)
  {
    if |reminders| == 0 then []
    else
      var rest := RemindersForDate(reminders[1..], date);
      if FiresOn(reminders[0], date) then [reminders[0]] + rest else rest
  }

  /** Filtering keeps configuration order: it distributes over concatenation. */
  lemma {:induction false} RemindersInConfigurationOrder(a: seq<Reminder>, b: seq<Reminder>, date: Date)
    ensures RemindersForDate(a + b, date) == RemindersForDate(a, date) + RemindersForDate(b, date)
  {
    if |a| > 0 {
      assert (a + b)[1..] == a[1..] + b;
      RemindersInConfigurationOrder(a[1..], b, date);
    } else {
      assert a + b == b;
    }
  }

  /** A reminder with a positive interval fires exactly on its start plus whole intervals. */
  lemma FiresOnSchedule(r: Reminder, date: Date)
    requires r.intervalDays > 0
    ensures FiresOn(r, date) <==> exists k: nat :: date == r.startDate + k * r.intervalDays
  {
    if FiresOn(r, date) {
      var k := (date - r.startDate) / r.intervalDays;
      assert date == r.startDate + k * r.intervalDays;
    }
    if exists k: nat :: date == r.startDate + k * r.intervalDays {
      var k: nat :| date == r.startDate + k * r.intervalDays;
      ModUnique(date - r.startDate, r.intervalDays, k, 0);
    }
  }

  lemma {:induction false} MulAtLeast(a: int, n: int)
    requires a >= 1 && n > 0
    ensures n * a >= n
    decreases a
  {
    if a > 1 {
      MulAtLeast(a - 1, n);
      assert n * a == n * (a - 1) + n;
    }
  }

  /** Euclidean division is unique: the quotient and remainder are determined. */
  lemma ModUnique(x: int, n: int, q: int, r: int)
    requires n > 0 && x == n * q + r && 0 <= r < n
    ensures x % n == r && x / n == q
  {
    var q', r' := x / n, x % n;
    assert x == n * q' + r' && 0 <= r' < n;
    assert n * (q - q') == r' - r;
    if q > q' {
      MulAtLeast(q - q', n);
    } else if q < q' {
      MulAtLeast(q' - q, n);
    }
  }

  /** The time card reminder fires on 2026-01-05 and 2026-01-19 but not on 2026-01-12. */
  lemma TimecardSchedule()
    ensures RemindersForDate(Configured(), DayNumber(Civil(2026, 1, 19))) == [Configured()[0]]
    ensures RemindersForDate(Configured(), DayNumber(Civil(2026, 1, 5))) == [Configured()[0]]
    ensures RemindersForDate(Configured(), DayNumber(Civil(2026, 1, 12))) == []
    ensures FiresOn(Configured()[0], DayNumber(Civil(2026, 2, 2)))
  {
  }

  /** A reminder repeating every 14 days always falls on the weekday of its first occurrence. */
  lemma FortnightlyWeekday(r: Reminder, date: Date)
    requires r.intervalDays == 14 && FiresOn(r, date)
    ensures Weekday(date) == Weekday(r.startDate)
  {
    var k := (date - r.startDate) / 14;
    assert date + 4 == (r.startDate + 4) + 7 * (2 * k);
  }

  /** So the time card reminder only ever shows on Mondays and payday only on Fridays. */
  lemma ConfiguredWeekdays(date: Date)
    ensures FiresOn(Configured()[0], date) ==> Weekday(date) == Monday
    ensures FiresOn(Configured()[1], date) ==> Weekday(date) == Friday
  {
    var rs := Configured();
    assert rs[0] in rs && rs[1] in rs;
    if FiresOn(rs[0], date) {
      FortnightlyWeekday(rs[0], date);
    }
    if FiresOn(rs[1], date) {
      FortnightlyWeekday(rs[1], date);
    }
  }
}
