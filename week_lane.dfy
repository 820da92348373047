/**
 * One employee's lane in the week and bi-weekly views of crad-calendar.jsx: the
 * employee's events are projected onto the visible dates, those with a span are sorted
 * (stably) by first column, and each is given the lowest row where it overlaps nothing.
 * The lane is at least two rows high.
 */
module WeekLane {
  import opened Wrappers
  import opened Sequences
  import opened CalendarDates
  import opened Events
  import opened SpanProjection
  import opened RowPacking
  import opened LaneOrder
  import opened VisibleDates

  /** The `map` to `spanInfo` followed by `.filter(e => e.spanInfo)`, order kept. */
  function Projected(events: seq<Event>, dates: seq<Date>): (r: seq<(Event, SpanInfo)>)
    ensures |r| <= |events|
    ensures forall p :: p in r <==> p.0 in events && EventSpanInfo(p.0, dates) == Some(p.1)
  {
    if |events| == 0 then []
    else
      var rest := Projected(events[1..], dates);
      assert forall e :: e in events <==> e == events[0] || e in events[1..];
      match EventSpanInfo(events[0], dates)
      case None => rest
      case Some(s) => [(events[0], s)] + rest
  }

  /**
   * Projection distributes over concatenation: the pairs keep the events' relative
   * order, which is the order the stable sort breaks ties by.
   */
  lemma {:induction false} ProjectedConcat(a: seq<Event>, b: seq<Event>, dates: seq<Date>)
    ensures Projected(a + b, dates) == Projected(a, dates) + Projected(b, dates)
  {
    if |a| == 0 {
      assert a + b == b;
    } else {
      assert (a + b)[0] == a[0] && (a + b)[1..] == a[1..] + b;
      ProjectedConcat(a[1..], b, dates);
    }
  }

  /** The columns an event covers, `startCol .. startCol + spanLength - 1`. */
  function SpanBar(s: SpanInfo): Bar {
    Bar(s.startCol, s.startCol + s.spanLength - 1)
  }

  /** Every span starts within, and stays within, the `n` visible columns. */
  predicate SpansWithin(items: seq<(Event, SpanInfo)>, n: int) {
    forall k :: 0 <= k < |items| ==>
      0 <= items[k].1.startCol && 1 <= items[k].1.spanLength && items[k].1.startCol + items[k].1.spanLength <= n
  }

  lemma ProjectedWithin(events: seq<Event>, dates: seq<Date>)
    ensures SpansWithin(SortByStart(Projected(events, dates)), |dates|)
  {
    var projected := Projected(events, dates);
    var sorted := SortByStart(projected);
    forall k | 0 <= k < |sorted|
      ensures 0 <= sorted[k].1.startCol && 1 <= sorted[k].1.spanLength && sorted[k].1.startCol + sorted[k].1.spanLength <= |dates|
    {
      assert sorted[k] in projected;
    }
  }

  /** The columns of a projected event. */
  function PairBar(p: (Event, SpanInfo)): Bar {
    SpanBar(p.1)
  }

  /** Sort key of the week view's comparator `a.spanInfo.startCol - b.spanInfo.startCol`. */
  function StartKey(p: (Event, SpanInfo)): Key {
    Key(p.1.startCol, 0)
  }

  /**
   * `eventsWithSpanInfo.sort(...)`: the one result of a stable sort by first column, so a
   * permutation of the pairs in non-decreasing `startCol`, pairs with the same first
   * column keeping their order.
   */
  function SortByStart(items: seq<(Event, SpanInfo)>): (sorted: seq<(Event, SpanInfo)>)
    ensures IsStableSort(Map(items, StartKey), items, sorted)
    ensures multiset(sorted) == multiset(items)
    ensures |sorted| == |items| && forall p :: p in sorted <==> p in items
    ensures forall a, b :: 0 <= a < b < |sorted| ==> sorted[a].1.startCol <= sorted[b].1.startCol
  {
    var sorted := StableSort(Map(items, StartKey), items);
    StableSortAscends(items, StartKey, sorted);
    assert forall p :: p in sorted <==> p in multiset(sorted);
    assert forall p :: p in items <==> p in multiset(items);
    sorted
  }

  /**
   * The lane of employee `employeeId`: every event of `getEventsForEmployee` that has a
   * span appears once, in stable order of first column; events of one row share no
   * column; each takes the lowest row left free by the events before it; and `maxRows`,
   * `Math.max(rowOccupancy.length, 2)`, covers every row and adds no empty row beyond
   * the first two.
   */
  method EmployeeLane(events: seq<Event>, employeeId: string, dates: seq<Date>, typeFilter: Filter)
    returns (lane: seq<Placed<(Event, SpanInfo)>>, maxRows: nat)
    requires |dates| > 0
    ensures Items(lane) == SortByStart(Projected(EventsForEmployee(events, employeeId, dates, typeFilter), dates))
    ensures SpansWithin(Items(lane), |dates|)
    ensures NoSharedColumn(Map(Items(lane), PairBar), Rows(lane))
    ensures LowestFreeRow(Map(Items(lane), PairBar), Rows(lane))
    ensures maxRows >= 2
    ensures forall k :: 0 <= k < |lane| ==> lane[k].rowIndex < maxRows
    ensures forall r :: 2 <= r < maxRows ==> RowHolds(Rows(lane), r)
  {
    var employeeEvents := EventsForEmployee(events, employeeId, dates, typeFilter);
    var withSpan := Projected(employeeEvents, dates);
    var sorted := SortByStart(withSpan);
    var rowIndex, rowOccupancy := AssignRows(Map(sorted, PairBar));
    lane := WithRows(sorted, rowIndex);
    ProjectedWithin(employeeEvents, dates);
    maxRows := if |rowOccupancy| < 2 then 2 else |rowOccupancy|;
    forall r | 2 <= r < maxRows ensures RowHolds(Rows(lane), r) {
      assert r < |rowOccupancy|;
    }
  }

  /**
   * On consecutive visible dates the `.filter(e => e.spanInfo)` step drops nothing: an
   * event whose start is not after its end overlaps the window exactly when it has a span.
   */
  lemma OverlapIffProjected(e: Event, dates: seq<Date>)
    requires |dates| > 0 && ConsecutiveFrom(dates, dates[0])
    requires e.startDate <= e.endDate
    ensures OverlapsWindow(e, dates[0], dates[|dates| - 1]) <==> EventSpanInfo(e, dates).Some?
  {
    OverlapIffSomeDay(e, dates);
    SpanInfoExact(e, dates);
  }

  /**
   * Hence on consecutive dates the lane holds exactly the employee's events of
   * `getEventsForEmployee`, when each of them starts on or before its end.
   */
  lemma {:induction false} ProjectedKeepsAll(events: seq<Event>, dates: seq<Date>)
    requires |dates| > 0 && ConsecutiveFrom(dates, dates[0])
    requires forall e :: e in events ==> e.startDate <= e.endDate && OverlapsWindow(e, dates[0], dates[|dates| - 1])
    ensures |Projected(events, dates)| == |events|
    ensures forall k :: 0 <= k < |events| ==> Projected(events, dates)[k].0 == events[k]
  {
    if |events| > 0 {
      assert events[0] in events;
      OverlapIffProjected(events[0], dates);
      assert forall e :: e in events[1..] ==> e in events;
      ProjectedKeepsAll(events[1..], dates);
      var rest := Projected(events[1..], dates);
      assert Projected(events, dates) == [(events[0], EventSpanInfo(events[0], dates).value)] + rest;
    }
  }
}
