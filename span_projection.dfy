/**
 * `getEventSpanInfo` of crad-calendar.jsx: clip an event's `[startDate, endDate]` onto
 * the visible dates, giving its first column, how many columns it covers and whether its
 * true start and end fall inside the window.
 */
module SpanProjection {
  import opened Wrappers
  import opened CalendarDates
  import opened Events

  datatype SpanInfo = SpanInfo(startCol: int, spanLength: int, isStart: bool, isEnd: bool)

  /** `Array.prototype.findIndex`: the first index satisfying `p`, or -1. */
  function FindIndex(dates: seq<Date>, p: Date -> bool): (i: int)
    ensures -1 <= i < |dates|
    ensures i >= 0 ==> p(dates[i]) && forall k :: 0 <= k < i ==> !p(dates[k])
    ensures i == -1 ==> forall k :: 0 <= k < |dates| ==> !p(dates[k])
  {
    if |dates| == 0 then -1
    else if p(dates[0]) then 0
    else
      var j := FindIndex(dates[1..], p);
      if j == -1 then -1 else j + 1
  }

  /** `Array.prototype.findLastIndex`: the last index satisfying `p`, or -1. */
  function FindLastIndex(dates: seq<Date>, p: Date -> bool): (i: int)
    ensures -1 <= i < |dates|
    ensures i >= 0 ==> p(dates[i]) && forall k :: i < k < |dates| ==> !p(dates[k])
    ensures i == -1 ==> forall k :: 0 <= k < |dates| ==> !p(dates[k])
  {
    if |dates| == 0 then -1
    else if p(dates[|dates| - 1]) then |dates| - 1
    else FindLastIndex(dates[..|dates| - 1], p)
  }

  function Max(a: int, b: int): int {
    if a < b then b else a
  }

  /** The fallback's test: a visible date inside `[startDate, endDate]`. */
  predicate Inside(e: Event, d: Date) {
    e.startDate <= d <= e.endDate
  }

  /**
   * The fallback of `getEventSpanInfo` is reached when no date is on or after the start,
   * none is on or before the end, or the last of the latter comes before the first of
   * the former.  Then no date lies inside the event, so the fallback's search for one
   * returns -1 and the fallback returns null, whatever the order of the dates.
   */
  lemma FallbackFindsNothing(e: Event, dates: seq<Date>)
    requires var startIdx := FindIndex(dates, d => d >= e.startDate);
      var endIdx := FindLastIndex(dates, d => d <= e.endDate);
      startIdx == -1 || endIdx == -1 || endIdx < startIdx
    ensures forall k :: 0 <= k < |dates| ==> !Inside(e, dates[k])
    ensures FindIndex(dates, d => Inside(e, d)) == -1
  {
    var startIdx := FindIndex(dates, d => d >= e.startDate);
    var endIdx := FindLastIndex(dates, d => d <= e.endDate);
    forall k | 0 <= k < |dates| ensures !Inside(e, dates[k]) {
      if startIdx >= 0 && endIdx >= 0 && dates[k] >= e.startDate {
        assert startIdx <= k;
      }
    }
  }

  /**
   * `getEventSpanInfo`.  The main branch takes the first date on or after the start and
   * the last date on or before the end.  When either is missing or they cross, the
   * fallback scans for a date inside `[startDate, endDate]`; it finds none
   * (`FallbackFindsNothing`), so it returns null.
   */
  function EventSpanInfo(e: Event, dates: seq<Date>): (r: Option<SpanInfo>)
    ensures r.Some? ==> |dates| > 0 && 0 <= r.value.startCol && r.value.spanLength >= 1
    ensures r.Some? ==> r.value.startCol + r.value.spanLength <= |dates|
    ensures r.Some? ==> r.value.isStart == (e.startDate >= dates[0])
    ensures r.Some? ==> r.value.isEnd == (e.endDate <= dates[|dates| - 1])
  {
    var startIdx := FindIndex(dates, d => d >= e.startDate);
    var endIdx := FindLastIndex(dates, d => d <= e.endDate);
    if startIdx == -1 || endIdx == -1 || endIdx < startIdx then
      None
    else
      Some(SpanInfo(Max(0, startIdx), endIdx - Max(0, startIdx) + 1,
                    e.startDate >= dates[0], e.endDate <= dates[|dates| - 1]))
  }

  predicate StrictlyIncreasing(dates: seq<Date>) {
    forall i, j :: 0 <= i < j < |dates| ==> dates[i] < dates[j]
  }

  /**
   * On increasing visible dates the projection is exact: it is `None` iff no visible date
   * lies in `[startDate, endDate]`, and otherwise the covered columns are exactly the
   * visible dates inside the event.
   */
  lemma SpanInfoExact(e: Event, dates: seq<Date>)
    requires StrictlyIncreasing(dates)
    ensures EventSpanInfo(e, dates).None? <==>
      forall k :: 0 <= k < |dates| ==> !(e.startDate <= dates[k] <= e.endDate)
    ensures EventSpanInfo(e, dates).Some? ==>
      var s := EventSpanInfo(e, dates).value;
      forall k :: 0 <= k < |dates| ==>
        (s.startCol <= k < s.startCol + s.spanLength <==> e.startDate <= dates[k] <= e.endDate)
  {
    var startIdx := FindIndex(dates, d => d >= e.startDate);
    var endIdx := FindLastIndex(dates, d => d <= e.endDate);
    if startIdx == -1 || endIdx == -1 || endIdx < startIdx {
      FallbackFindsNothing(e, dates);
    } else {
      assert e.startDate <= dates[startIdx] <= dates[endIdx] <= e.endDate;
    }
  }

  /** A one-day event on the sixth day of a visible week. */
  lemma SpanInfoExample(e: Event, monday: Date)
    requires e.startDate == monday + 5 && e.endDate == monday + 5
    ensures EventSpanInfo(e, [monday, monday + 1, monday + 2, monday + 3, monday + 4, monday + 5, monday + 6])
      == Some(SpanInfo(5, 1, true, true))
  {
    var dates := [monday, monday + 1, monday + 2, monday + 3, monday + 4, monday + 5, monday + 6];
    assert FindIndex(dates, d => d >= e.startDate) == 5;
    assert FindLastIndex(dates, d => d <= e.endDate) == 5;
  }
}
