/**
 * The monthly view of crad-calendar.jsx: the visible dates are cut into weeks; in each
 * week the matching events are clipped to columns 0..6, sorted by first column and then
 * longest first, and packed into rows; rows 2 and up stay hidden behind a "+N more"
 * button until the week is expanded.
 */
module MonthLane {
  import opened Sequences
  import opened CalendarDates
  import opened Events
  import opened RowPacking
  import opened LaneOrder
  import opened VisibleDates

  // ---------------------------------------------------------------------------
  // Weeks
  // ---------------------------------------------------------------------------

  function Min(a: int, b: int): int {
    if a < b then a else b
  }

  /** The `for (i = 0; i < length; i += 7)` loop pushing `slice(i, i + 7)`. */
  method SplitWeeks(dates: seq<Date>) returns (weeks: seq<seq<Date>>)
    ensures |weeks| == (|dates| + 6) / 7
    ensures forall w :: 0 <= w < |weeks| ==> weeks[w] == dates[7 * w .. Min(7 * w + 7, |dates|)]
  {
    weeks := [];
    var i := 0;
    while i < |dates|
      invariant i == 7 * |weeks| && i <= |dates| + 6
      invariant forall w :: 0 <= w < |weeks| ==> weeks[w] == dates[7 * w .. Min(7 * w + 7, |dates|)]
    {
      weeks := weeks + [dates[i .. Min(i + 7, |dates|)]];
      i := i + 7;
    }
  }

  /**
   * On the dates of the monthly view (whole Monday-to-Sunday weeks) every week has seven
   * consecutive days starting on a Monday.
   */
  lemma MonthWeeksAreWholeWeeks(dates: seq<Date>, weeks: seq<seq<Date>>, w: int)
    requires |dates| % 7 == 0 && |dates| > 0 && ConsecutiveFrom(dates, dates[0]) && Weekday(dates[0]) == Monday
    requires |weeks| == (|dates| + 6) / 7
    requires forall v :: 0 <= v < |weeks| ==> weeks[v] == dates[7 * v .. Min(7 * v + 7, |dates|)]
    requires 0 <= w < |weeks|
    ensures |weeks[w]| == 7 && ConsecutiveFrom(weeks[w], dates[0] + 7 * w)
    ensures Weekday(weeks[w][0]) == Monday
  {
    var q := (dates[0] + 4) / 7;
    assert dates[0] + 4 == 7 * q + 1;
    assert weeks[w][0] + 4 == 7 * (q + w) + 1;
  }

  // ---------------------------------------------------------------------------
  // One week's events
  // ---------------------------------------------------------------------------

  /** `weekEvents`: events overlapping `week[0] .. week[6]` that pass both filters. */
  function EventsInWeek(events: seq<Event>, week: seq<Date>, employeeFilter: Filter, typeFilter: Filter): (r: seq<Event>)
    requires |week| == 7
    ensures forall e :: e in r <==>
      e in events && e.startDate <= week[6] && e.endDate >= week[0]
      && EmployeeMatches(employeeFilter, e) && TypeMatches(typeFilter, e)
  {
    Keep(events, (e: Event) => e.startDate <= week[6] && e.endDate >= week[0]
                               && EmployeeMatches(employeeFilter, e) && TypeMatches(typeFilter, e))
  }

  /** An event clipped to a week: the `processedEvents` record. */
  datatype WeekSpan = WeekSpan(event: Event, startCol: int, endCol: int, span: int,
                               startsThisWeek: bool, endsThisWeek: bool)

  /**
   * What the column scan promises for one event: columns within 0..6, the flags, and, on
   * a week of consecutive days overlapping the event, columns that are exactly the
   * event's first and last day inside the week.
   */
  predicate ClippedTo(week: seq<Date>, w: WeekSpan)
    requires |week| == 7
  {
    && ScannedColumns(week, w.event.startDate, w.event.endDate, w.startCol, w.endCol)
    && w.span == w.endCol - w.startCol + 1
    && w.startsThisWeek == (w.event.startDate >= week[0])
    && w.endsThisWeek == (w.event.endDate <= week[6])
    && (ConsecutiveFrom(week, week[0]) && w.event.startDate <= w.event.endDate
        && w.event.startDate <= week[6] && w.event.endDate >= week[0] ==>
          && w.startCol <= w.endCol
          && week[w.startCol] == (if w.event.startDate < week[0] then week[0] else w.event.startDate)
          && week[w.endCol] == Min(w.event.endDate, week[6]))
  }

  /**
   * What the two column scans find: `startCol` is the first day on or after the event's
   * start (0 when there is none, or when the event starts before the week); `endCol` is
   * the last day on or before the event's end (6 when there is none, or when it ends
   * after the week).
   */
  predicate ScannedColumns(week: seq<Date>, eventStart: Date, eventEnd: Date, startCol: int, endCol: int)
    requires |week| == 7
  {
    && 0 <= startCol <= 6 && 0 <= endCol <= 6
    && (eventStart < week[0] ==> startCol == 0)
    && (eventStart >= week[0] ==>
      || (startCol == 0 && forall k :: 0 <= k < 7 ==> week[k] < eventStart)
      || (week[startCol] >= eventStart && forall k :: 0 <= k < startCol ==> week[k] < eventStart))
    && (eventEnd > week[6] ==> endCol == 6)
    && (eventEnd <= week[6] ==>
      || (endCol == 6 && forall k :: 0 <= k < 7 ==> week[k] > eventEnd)
      || (week[endCol] <= eventEnd && forall k :: endCol < k < 7 ==> week[k] > eventEnd))
  }

  /** The scans have one possible result, whatever the dates of the week. */
  lemma ScannedColumnsUnique(week: seq<Date>, eventStart: Date, eventEnd: Date, s1: int, e1: int, s2: int, e2: int)
    requires |week| == 7
    requires ScannedColumns(week, eventStart, eventEnd, s1, e1)
    requires ScannedColumns(week, eventStart, eventEnd, s2, e2)
    ensures s1 == s2 && e1 == e2
  {
  }

  /** `startCol` and `endCol` of `getWeekEvents`: the two `for` loops over the week's days. */
  method WeekColumns(week: seq<Date>, eventStart: Date, eventEnd: Date) returns (startCol: int, endCol: int)
    requires |week| == 7
    ensures ScannedColumns(week, eventStart, eventEnd, startCol, endCol)
  {
    startCol := 0;
    for i := 0 to 7
      invariant startCol == 0
      invariant forall k :: 0 <= k < i ==> week[k] < eventStart
    {
      if week[i] >= eventStart {
        startCol := i;
        break;
      }
      if i == 6 {
        startCol := 0;
      }
    }
    if eventStart < week[0] {
      startCol := 0;
    }

    endCol := 6;
    for i := 7 downto 0
      invariant endCol == 6
      invariant forall k :: i <= k < 7 ==> week[k] > eventEnd
    {
      if week[i] <= eventEnd {
        endCol := i;
        break;
      }
    }
    if eventEnd > week[6] {
      endCol := 6;
    }
  }

  /** On consecutive days the scans give exactly the clipped first and last columns. */
  lemma {:induction false} ColumnsOnConsecutiveWeek(week: seq<Date>, e: Event, startCol: int, endCol: int)
    requires |week| == 7 && ConsecutiveFrom(week, week[0])
    requires e.startDate <= e.endDate && e.startDate <= week[6] && e.endDate >= week[0]
    requires ScannedColumns(week, e.startDate, e.endDate, startCol, endCol)
    ensures week[startCol] == (if e.startDate < week[0] then week[0] else e.startDate)
    ensures week[endCol] == Min(e.endDate, week[6])
    ensures startCol <= endCol
  {
    if e.startDate >= week[0] {
      var first := e.startDate - week[0];
      assert week[first] == e.startDate;
      assert startCol == first;
    }
    if e.endDate <= week[6] {
      var last := e.endDate - week[0];
      assert week[last] == e.endDate;
      assert endCol == last;
    }
  }

  /**
   * For an event overlapping a week of consecutive days: it starts in column 0 exactly
   * when it starts on or before the week's first day, ends in column 6 exactly when it
   * ends on or after the last, covers at least one column, and its flags say whether its
   * true start and end lie in the week.
   */
  lemma ClippedColumns(week: seq<Date>, w: WeekSpan)
    requires |week| == 7 && ConsecutiveFrom(week, week[0]) && ClippedTo(week, w)
    requires w.event.startDate <= w.event.endDate && w.event.startDate <= week[6] && w.event.endDate >= week[0]
    ensures 0 <= w.startCol <= w.endCol <= 6 && w.span >= 1
    ensures w.startCol == 0 <==> w.event.startDate <= week[0]
    ensures w.endCol == 6 <==> w.event.endDate >= week[6]
    ensures w.startsThisWeek ==> week[w.startCol] == w.event.startDate
    ensures w.endsThisWeek ==> week[w.endCol] == w.event.endDate
  {
  }

  /** `processedEvents`: the `map` calling the column scans for each event. */
  method ClipToWeek(weekEvents: seq<Event>, week: seq<Date>) returns (processed: seq<WeekSpan>)
    requires |week| == 7
    ensures |processed| == |weekEvents|
    ensures forall k :: 0 <= k < |processed| ==> processed[k].event == weekEvents[k] && ClippedTo(week, processed[k])
  {
    processed := [];
    for i := 0 to |weekEvents|
      invariant |processed| == i
      invariant forall k :: 0 <= k < i ==> processed[k].event == weekEvents[k] && ClippedTo(week, processed[k])
    {
      var e := weekEvents[i];
      var startCol, endCol := WeekColumns(week, e.startDate, e.endDate);
      if ConsecutiveFrom(week, week[0]) && e.startDate <= e.endDate && e.startDate <= week[6] && e.endDate >= week[0] {
        ColumnsOnConsecutiveWeek(week, e, startCol, endCol);
      }
      processed := processed + [WeekSpan(e, startCol, endCol, endCol - startCol + 1,
                                         e.startDate >= week[0], e.endDate <= week[6])];
    }
  }

  /** Key of `a.startCol - b.startCol || b.span - a.span`: first column, then longest first. */
  function ColumnThenLength(w: WeekSpan): Key {
    Key(w.startCol, -w.span)
  }

  /** First column ascending, and among equal first columns the longer event first. */
  predicate ColumnThenLengthOrder(items: seq<WeekSpan>) {
    forall a, b :: 0 <= a < b < |items| ==>
      items[a].startCol < items[b].startCol
      || (items[a].startCol == items[b].startCol && items[a].span >= items[b].span)
  }

  /** Every event of `events`, and only those, is the event of some item. */
  ghost predicate HoldsExactly(events: seq<Event>, items: seq<WeekSpan>) {
    forall e :: e in events <==> exists k :: 0 <= k < |items| && items[k].event == e
  }

  predicate AllClipped(week: seq<Date>, items: seq<WeekSpan>)
    requires |week| == 7
  {
    forall k :: 0 <= k < |items| ==> ClippedTo(week, items[k])
  }

  /**
   * `processedEvents.sort(...)`: the one result of a stable sort by first column and then
   * length, so a permutation of the items in that order, ties keeping their order.
   */
  function SortByColumnThenLength(items: seq<WeekSpan>): (sorted: seq<WeekSpan>)
    ensures IsStableSort(Map(items, ColumnThenLength), items, sorted)
    ensures multiset(sorted) == multiset(items)
    ensures |sorted| == |items| && forall x :: x in sorted <==> x in items
    ensures ColumnThenLengthOrder(sorted)
  {
    var sorted := StableSort(Map(items, ColumnThenLength), items);
    StableSortAscends(items, ColumnThenLength, sorted);
    assert forall x :: x in sorted <==> x in multiset(sorted);
    assert forall x :: x in items <==> x in multiset(items);
    sorted
  }

  lemma SortKeepsEvents(weekEvents: seq<Event>, processed: seq<WeekSpan>, sorted: seq<WeekSpan>)
    requires |processed| == |weekEvents| && forall k :: 0 <= k < |processed| ==> processed[k].event == weekEvents[k]
    requires forall x :: x in sorted <==> x in processed
    ensures HoldsExactly(weekEvents, sorted)
  {
    forall e ensures e in weekEvents <==> exists k :: 0 <= k < |sorted| && sorted[k].event == e {
      if e in weekEvents {
        var j :| 0 <= j < |weekEvents| && weekEvents[j] == e;
        assert processed[j] in sorted;
        var k :| 0 <= k < |sorted| && sorted[k] == processed[j];
      }
      if exists k :: 0 <= k < |sorted| && sorted[k].event == e {
        var k :| 0 <= k < |sorted| && sorted[k].event == e;
        assert sorted[k] in sorted;
        var j :| 0 <= j < |processed| && processed[j] == sorted[k];
        assert weekEvents[j] == e;
      }
    }
  }

  /** The columns of a clipped event. */
  function WeekBar(w: WeekSpan): Bar {
    Bar(w.startCol, w.endCol)
  }

  /** `processed` is `processedEvents`: each event of the week, in order, clipped by the scans. */
  ghost predicate ClipsOf(week: seq<Date>, weekEvents: seq<Event>, processed: seq<WeekSpan>)
    requires |week| == 7
  {
    |processed| == |weekEvents|
    && forall k :: 0 <= k < |processed| ==> processed[k].event == weekEvents[k] && ClippedTo(week, processed[k])
  }

  /**
   * `getWeekEvents`: the week's events, each once and clipped to the week, in the order
   * of the comparator, packed so that events of one row share no column and each takes
   * the lowest free row; rows `0 .. rowCount - 1` each hold an event.
   */
  method WeekEvents(events: seq<Event>, week: seq<Date>, employeeFilter: Filter, typeFilter: Filter)
    returns (lane: seq<Placed<WeekSpan>>, rowCount: nat)
    requires |week| == 7
    ensures exists processed ::
              && ClipsOf(week, EventsInWeek(events, week, employeeFilter, typeFilter), processed)
              && Items(lane) == SortByColumnThenLength(processed)
    ensures |lane| == |EventsInWeek(events, week, employeeFilter, typeFilter)|
    ensures AllClipped(week, Items(lane))
    ensures HoldsExactly(EventsInWeek(events, week, employeeFilter, typeFilter), Items(lane))
    ensures ColumnThenLengthOrder(Items(lane))
    ensures NoSharedColumn(Map(Items(lane), WeekBar), Rows(lane))
    ensures LowestFreeRow(Map(Items(lane), WeekBar), Rows(lane))
    ensures RowsUsed(Rows(lane), rowCount) && rowCount <= |lane|
  {
    var weekEvents := EventsInWeek(events, week, employeeFilter, typeFilter);
    var processed := ClipToWeek(weekEvents, week);
    var sorted := SortByColumnThenLength(processed);
    var rowIndex, rowOccupancy := AssignRows(Map(sorted, WeekBar));
    lane := WithRows(sorted, rowIndex);
    rowCount := |rowOccupancy|;
    assert ClipsOf(week, weekEvents, processed);
    SortKeepsEvents(weekEvents, processed, sorted);
    forall k | 0 <= k < |sorted| ensures ClippedTo(week, sorted[k]) {
      assert sorted[k] in processed;
    }
  }

  // ---------------------------------------------------------------------------
  // "+N more"
  // ---------------------------------------------------------------------------

  /** `Math.max(0, ...rowIndex)`. */
  function MaxRow(rows: seq<nat>): (m: nat)
    ensures forall k :: 0 <= k < |rows| ==> rows[k] <= m
    ensures m == 0 || RowHolds(rows, m)
  {
    if |rows| == 0 then 0
    else
      var rest := MaxRow(rows[1..]);
      if rows[0] >= rest then rows[0]
      else
        assert RowHolds(rows[1..], rest);
        var i :| 0 <= i < |rows[1..]| && rows[1..][i] == rest;
        assert rows[i + 1] == rest;
        rest
  }

  /**
   * `hiddenCount = maxRow + 1 - 2`, the number on the "+N more" button: positive exactly
   * when some event sits in row 2 or below, and every row is above `hiddenCount + 2`.
   */
  function HiddenCount(rows: seq<nat>): (n: int)
    ensures n >= -1
    ensures n > 0 <==> exists k :: 0 <= k < |rows| && rows[k] >= 2
    ensures forall k :: 0 <= k < |rows| ==> rows[k] < n + 2
  {
    var m := MaxRow(rows);
    assert m >= 2 ==> RowHolds(rows, m);
    m + 1 - 2
  }

  /**
   * `if (!isExpanded && rowIndex >= 2) return null`: an expanded week draws every event,
   * a collapsed one only those in rows 0 and 1.
   */
  predicate Shown(expanded: bool, rowIndex: nat)
    ensures expanded ==> Shown(expanded, rowIndex)
    ensures !expanded ==> (Shown(expanded, rowIndex) <==> rowIndex <= 1)
  {
    expanded || rowIndex < 2
  }

  /**
   * `visibleRows`: every used row when expanded, two otherwise; either way each drawn
   * event lies within the visible rows.  Expanded, the last visible row is a used one
   * (or row 0), so no smaller count would show every event.
   */
  function VisibleRows(expanded: bool, rows: seq<nat>): (n: nat)
    ensures n >= 1
    ensures !expanded ==> n == 2
    ensures expanded ==> n == 1 || RowHolds(rows, n - 1)
    ensures forall k :: 0 <= k < |rows| && Shown(expanded, rows[k]) ==> rows[k] < n
  {
    if expanded then MaxRow(rows) + 1 else 2
  }

  /**
   * On a packed week the button shows exactly when some event is hidden, and its number
   * is the count of hidden rows, each of which holds at least one event; expanding shows
   * every event.
   */
  lemma MoreButton(rows: seq<nat>, rowCount: nat)
    requires RowsUsed(rows, rowCount)
    ensures HiddenCount(rows) > 0 <==> exists k :: 0 <= k < |rows| && !Shown(false, rows[k])
    ensures HiddenCount(rows) > 0 ==> HiddenCount(rows) == rowCount - 2
    ensures forall r :: 2 <= r < 2 + HiddenCount(rows) ==> RowHolds(rows, r)
    ensures forall k :: 0 <= k < |rows| ==> Shown(true, rows[k]) && rows[k] < VisibleRows(true, rows)
  {
    var m := MaxRow(rows);
    if m > 0 {
      assert RowHolds(rows, m);
    }
    if rowCount > 0 {
      assert RowHolds(rows, rowCount - 1);
      var k :| 0 <= k < |rows| && rows[k] == rowCount - 1;
      assert rows[k] <= m;
    }
  }
}
