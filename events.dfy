/**
 * Events of crad-calendar.jsx and the pure rules over them: the visibility filters,
 * colour precedence, save-time validation with add/replace, delete, the legacy record
 * migration, the set-like toggles of the event form and the end-date clamp.
 */
module Events {
  import opened Wrappers
  import opened CalendarDates

  /** A stored event; `id` is the `Date.now()` value it was created with. */
  datatype Event = Event(
    id: int,
    employee: string,
    eventTypes: seq<string>,
    customEventType: string,
    products: seq<string>,
    customer: string,
    location: string,
    notes: string,
    startDate: Date,
    endDate: Date,
    tentative: bool)

  /** A drop-down filter: `'all'` or one selected value. */
  datatype Filter = All | Only(value: string)

  predicate EmployeeMatches(f: Filter, e: Event) {
    f.All? || e.employee == f.value
  }

  predicate TypeMatches(f: Filter, e: Event) {
    f.All? || f.value in e.eventTypes
  }

  // ---------------------------------------------------------------------------
  // Visibility filters
  // ---------------------------------------------------------------------------

  /** `Array.prototype.filter`. */
  function Keep<T(!new)>(xs: seq<T>, p: T -> bool): (r: seq<T>)
    ensures |r| <= |xs|
    ensures forall x :: x in r <==> x in xs && p(x)
  {
    if |xs| == 0 then []
    else if p(xs[0]) then [xs[0]] + Keep(xs[1..], p)
    else Keep(xs[1..], p)
  }

  /** Filtering keeps the original order: it distributes over concatenation. */
  lemma {:induction false} KeepConcat<T(!new)>(a: seq<T>, b: seq<T>, p: T -> bool)
    ensures Keep(a + b, p) == Keep(a, p) + Keep(b, p)
  {
    if |a| > 0 {
      assert (a + b)[1..] == a[1..] + b;
      KeepConcat(a[1..], b, p);
    } else {
      assert a + b == b;
    }
  }

  /**
   * `eventSpansDate`: the date lies in the event's inclusive range.  Only an event that
   * ends on or after its start spans any date, and a one-day event spans just its day.
   */
  predicate EventSpansDate(e: Event, date: Date)
    ensures EventSpansDate(e, date) ==> e.startDate <= e.endDate
    ensures e.startDate == e.endDate ==> (EventSpansDate(e, date) <==> date == e.startDate)
  {
    e.startDate <= date && e.endDate >= date
  }

  /**
   * `eventSpansDate` compares `YYYY-MM-DD` strings; for valid dates with four-digit years
   * that is the comparison of day numbers made by `EventSpansDate`.
   */
  lemma SpansDateAsText(e: Event, start: Civil, end: Civil, date: Civil)
    requires ValidCivil(start) && ValidCivil(end) && ValidCivil(date)
    requires 1000 <= start.year <= 9999 && 1000 <= end.year <= 9999 && 1000 <= date.year <= 9999
    requires e.startDate == DayNumber(start) && e.endDate == DayNumber(end)
    ensures EventSpansDate(e, DayNumber(date)) <==>
      && (TextLess(FormatDate(start), FormatDate(date)) || FormatDate(start) == FormatDate(date))
      && (TextLess(FormatDate(date), FormatDate(end)) || FormatDate(date) == FormatDate(end))
  {
    FormatPreservesOrder(start, date);
    FormatPreservesOrder(date, end);
  }

  /** `getEventsForDate`. */
  function EventsForDate(events: seq<Event>, date: Date, employeeFilter: Filter, typeFilter: Filter): (r: seq<Event>)
    ensures forall e :: e in r <==>
      e in events && e.startDate <= date <= e.endDate && EmployeeMatches(employeeFilter, e) && TypeMatches(typeFilter, e)
  {
    Keep(events, e => EventSpansDate(e, date) && EmployeeMatches(employeeFilter, e) && TypeMatches(typeFilter, e))
  }

  /** Overlap of an event with the window `[first, last]`, as tested by `getEventsForEmployee`. */
  predicate OverlapsWindow(e: Event, first: Date, last: Date) {
    e.startDate <= last && e.endDate >= first
  }

  /**
   * `getEventsForEmployee`: the employee's events that overlap the visible dates; the
   * employee filter is not consulted, the type filter is.
   */
  function EventsForEmployee(events: seq<Event>, employeeId: string, dates: seq<Date>, typeFilter: Filter): (r: seq<Event>)
    requires |dates| > 0
    ensures forall e :: e in r <==>
      e in events && e.employee == employeeId && e.startDate <= dates[|dates| - 1] && e.endDate >= dates[0]
      && TypeMatches(typeFilter, e)
  {
    Keep(events, (e: Event) => e.employee == employeeId && OverlapsWindow(e, dates[0], dates[|dates| - 1]) && TypeMatches(typeFilter, e))
  }

  /**
   * An event overlaps a run of consecutive days exactly when one of those days lies in
   * `[startDate, endDate]`: the interval test of `getEventsForEmployee` and the per-day
   * test of `eventSpansDate` agree.
   */
  lemma OverlapIffSomeDay(e: Event, dates: seq<Date>)
    requires |dates| > 0 && forall i :: 0 <= i < |dates| ==> dates[i] == dates[0] + i
    requires e.startDate <= e.endDate
    ensures OverlapsWindow(e, dates[0], dates[|dates| - 1]) <==> exists i :: 0 <= i < |dates| && EventSpansDate(e, dates[i])
  {
    if OverlapsWindow(e, dates[0], dates[|dates| - 1]) {
      var i := if e.startDate <= dates[0] then 0 else e.startDate - dates[0];
      assert EventSpansDate(e, dates[i]);
    }
  }

  // ---------------------------------------------------------------------------
  // Colour precedence
  // ---------------------------------------------------------------------------

  const TentativeStyle := "bg-gray-200 border-gray-400 text-gray-600 border-dashed"
  const ComboStyle := "bg-cyan-100 border-cyan-300 text-cyan-800"
  const DefaultStyle := "bg-gray-100 border-gray-300 text-gray-800"

  const TypeStyles: map<string, string> := map[
    "Install" := "bg-blue-100 border-blue-300 text-blue-800",
    "PM" := "bg-green-100 border-green-300 text-green-800",
    "Service Visit" := "bg-yellow-100 border-yellow-300 text-yellow-800",
    "Software Upgrade" := "bg-purple-100 border-purple-300 text-purple-800",
    "De Install" := "bg-red-100 border-red-300 text-red-800",
    "Acceptance Test" := "bg-indigo-100 border-indigo-300 text-indigo-800",
    "Remote Service" := "bg-teal-100 border-teal-300 text-teal-800",
    "Site Visit" := "bg-lime-100 border-lime-300 text-lime-800",
    "No Travel" := "bg-slate-100 border-slate-300 text-slate-800",
    "Vacation" := "bg-sky-100 border-sky-300 text-sky-800",
    "First Line" := "bg-orange-100 border-orange-300 text-orange-800",
    "Custom" := "bg-pink-100 border-pink-300 text-pink-800"
  ]

  /** `getEventTypeColor` for an array of types. */
  function EventTypeColor(eventTypes: seq<string>, tentative: bool): (style: string)
    ensures style == TentativeStyle || style == ComboStyle || style == DefaultStyle || style in TypeStyles.Values
  {
    if tentative then TentativeStyle
    else if "PM" in eventTypes && "Software Upgrade" in eventTypes then ComboStyle
    else if |eventTypes| > 0 && eventTypes[0] in TypeStyles then TypeStyles[eventTypes[0]]
    else DefaultStyle
  }

  /**
   * Precedence: tentative wins over everything, then the PM + Software Upgrade
   * combination (in any order, alongside any other types), then the first type's colour,
   * then the default.
   */
  lemma ColorPrecedence(types: seq<string>, tentative: bool)
    ensures tentative ==> EventTypeColor(types, tentative) == TentativeStyle
    ensures !tentative && "PM" in types && "Software Upgrade" in types ==> EventTypeColor(types, tentative) == ComboStyle
    ensures !tentative && !("PM" in types && "Software Upgrade" in types) && |types| > 0 && types[0] in TypeStyles
      ==> EventTypeColor(types, tentative) == TypeStyles[types[0]]
    ensures EventTypeColor(types, tentative) == DefaultStyle <==>
      !tentative && !("PM" in types && "Software Upgrade" in types) && (|types| == 0 || types[0] !in TypeStyles)
  {
    assert TentativeStyle != DefaultStyle && ComboStyle != DefaultStyle;
    assert DefaultStyle !in TypeStyles.Values;
  }

  /** The colour depends only on `tentative`, which types are present, and the first type. */
  lemma ColorDependsOnTypeSetAndFirst(a: seq<string>, b: seq<string>, tentative: bool)
    requires (set t | t in a) == (set t | t in b)
    requires |a| > 0 <==> |b| > 0
    requires |a| > 0 ==> a[0] == b[0]
    ensures EventTypeColor(a, tentative) == EventTypeColor(b, tentative)
  {
    var sa, sb := set t | t in a, set t | t in b;
    assert "PM" in a <==> "PM" in sa;
    assert "PM" in b <==> "PM" in sb;
    assert "Software Upgrade" in a <==> "Software Upgrade" in sa;
    assert "Software Upgrade" in b <==> "Software Upgrade" in sb;
  }

  /** The combination wins over the single-type colour of PM, whichever type is listed first. */
  lemma ComboColorExample()
    ensures EventTypeColor(["PM", "Software Upgrade"], false) == ComboStyle
    ensures EventTypeColor(["Software Upgrade", "PM"], false) == ComboStyle
    ensures EventTypeColor(["PM"], false) == TypeStyles["PM"] != ComboStyle
    ensures EventTypeColor(["PM", "Software Upgrade"], true) == TentativeStyle
  {
  }

  // ---------------------------------------------------------------------------
  // The event form: save, edit, delete, toggles, start-date change
  // ---------------------------------------------------------------------------

  /** The `newEvent` form state; a date input left empty is `None`. */
  datatype Draft = Draft(
    employee: string,
    eventTypes: seq<string>,
    customEventType: string,
    products: seq<string>,
    customer: string,
    location: string,
    notes: string,
    startDate: Option<Date>,
    endDate: Option<Date>,
    tentative: bool)

  /** The three alerts of `handleSaveEvent`. */
  datatype SaveError = MissingRequiredField | MissingCustomType | EndBeforeStart

  /** Characters removed by `String.prototype.trim`. */
  predicate IsTrimmedSpace(ch: char) {
    ch == ' ' || ch == '\t' || ch == '\n' || ch == '\r' || ch == '\U{000B}' || ch == '\U{000C}'
    || ch == '\U{00A0}' || ch == '\U{1680}' || ('\U{2000}' <= ch <= '\U{200A}')
    || ch == '\U{2028}' || ch == '\U{2029}' || ch == '\U{202F}' || ch == '\U{205F}'
    || ch == '\U{3000}' || ch == '\U{FEFF}'
  }

  /** `!s.trim()`: the text is empty after trimming. */
  predicate IsBlank(s: string) {
    forall i :: 0 <= i < |s| ==> IsTrimmedSpace(s[i])
  }

  /** Employee, at least one event type, start date and end date are all filled in. */
  predicate HasRequiredFields(d: Draft) {
    d.employee != "" && |d.eventTypes| > 0 && d.startDate.Some? && d.endDate.Some?
  }

  /** "Custom" is selected but its description is blank. */
  predicate CustomTypeMissing(d: Draft) {
    "Custom" in d.eventTypes && IsBlank(d.customEventType)
  }

  /**
   * The checks of `handleSaveEvent`, in the order the component makes them: a missing
   * field is reported first, then a blank custom type, then an end before the start.
   */
  function ValidateDraft(d: Draft): (err: Option<SaveError>)
    ensures err == None <==>
      HasRequiredFields(d) && !CustomTypeMissing(d) && d.startDate.value <= d.endDate.value
    ensures err == Some(MissingRequiredField) <==> !HasRequiredFields(d)
    ensures err == Some(MissingCustomType) <==> HasRequiredFields(d) && CustomTypeMissing(d)
    ensures err == Some(EndBeforeStart) <==>
      HasRequiredFields(d) && !CustomTypeMissing(d) && d.endDate.value < d.startDate.value
  {
    if d.employee == "" || |d.eventTypes| == 0 || d.startDate.None? || d.endDate.None? then Some(MissingRequiredField)
    else if "Custom" in d.eventTypes && IsBlank(d.customEventType) then Some(MissingCustomType)
    else if d.endDate.value < d.startDate.value then Some(EndBeforeStart)
    else None
  }

  /** `{ ...newEvent, id }`. */
  function EventOf(d: Draft, id: int): (e: Event)
    requires d.startDate.Some? && d.endDate.Some?
  {
    Event(id, d.employee, d.eventTypes, d.customEventType, d.products, d.customer, d.location, d.notes,
          d.startDate.value, d.endDate.value, d.tentative)
  }

  /** `events.map(e => e.id === id ? replacement : e)`. */
  function ReplaceById(events: seq<Event>, id: int, replacement: Event): (r: seq<Event>)
    ensures |r| == |events|
    ensures forall i :: 0 <= i < |r| && events[i].id != id ==> r[i] == events[i]
    ensures forall i :: 0 <= i < |r| && events[i].id == id ==> r[i] == replacement
    ensures forall e :: e in r ==> e in events || e == replacement
  {
    seq(|events|, i requires 0 <= i < |events| => if events[i].id == id then replacement else events[i])
  }

  /**
   * `handleSaveEvent`: a rejected draft leaves the list as it was; otherwise the draft
   * replaces the event being edited (every event with that id) or is appended with the
   * id `now` (the `Date.now()` value).
   */
  function SaveEvent(events: seq<Event>, d: Draft, editingId: Option<int>, now: int): (r: Result<seq<Event>, SaveError>)
    ensures r.Failure? <==> ValidateDraft(d).Some?
    ensures r.Failure? ==> r.error == ValidateDraft(d).value
    ensures r.Success? && editingId.None? ==> r.value == events + [EventOf(d, now)]
    ensures r.Success? && editingId.Some? ==> r.value == ReplaceById(events, editingId.value, EventOf(d, editingId.value))
  {
    match ValidateDraft(d)
    case Some(err) => Failure(err)
    case None =>
      if editingId.Some? then Success(ReplaceById(events, editingId.value, EventOf(d, editingId.value)))
      else Success(events + [EventOf(d, now)])
  }

  /** Whatever a save writes has its end on or after its start, so the stored invariant holds. */
  lemma SavePreservesDateOrder(events: seq<Event>, d: Draft, editingId: Option<int>, now: int)
    requires forall e :: e in events ==> e.startDate <= e.endDate
    requires SaveEvent(events, d, editingId, now).Success?
    ensures forall e :: e in SaveEvent(events, d, editingId, now).value ==> e.startDate <= e.endDate
  {
    var r := SaveEvent(events, d, editingId, now).value;
    forall e | e in r ensures e.startDate <= e.endDate {
      var i :| 0 <= i < |r| && r[i] == e;
      if editingId.None? && i < |events| {
        assert e == events[i];
      }
    }
  }

  /** An event ending before it starts never reaches the list. */
  lemma SaveRejectsInvertedRange(events: seq<Event>, d: Draft, editingId: Option<int>, now: int)
    requires d.employee != "" && |d.eventTypes| > 0 && "Custom" !in d.eventTypes
    requires d.startDate == Some(DayNumber(Civil(2026, 3, 10))) && d.endDate == Some(DayNumber(Civil(2026, 3, 8)))
    ensures SaveEvent(events, d, editingId, now) == Failure(EndBeforeStart)
  {
  }

  /** `handleEditEvent`: the form loaded with an event's fields. */
  function DraftOf(e: Event): (d: Draft)
    ensures d.startDate.Some? && d.endDate.Some? && EventOf(d, e.id) == e
  {
    Draft(e.employee, e.eventTypes, e.customEventType, e.products, e.customer, e.location, e.notes,
          Some(e.startDate), Some(e.endDate), e.tentative)
  }

  /** Opening an event for editing and saving it unchanged leaves the list unchanged. */
  lemma EditSaveUnchanged(events: seq<Event>, e: Event, now: int)
    requires e in events && forall x :: x in events && x.id == e.id ==> x == e
    requires e.employee != "" && |e.eventTypes| > 0 && e.startDate <= e.endDate
    requires !("Custom" in e.eventTypes && IsBlank(e.customEventType))
    ensures SaveEvent(events, DraftOf(e), Some(e.id), now) == Success(events)
  {
    var r := SaveEvent(events, DraftOf(e), Some(e.id), now).value;
    assert |r| == |events|;
    forall i | 0 <= i < |r| ensures r[i] == events[i] {
      assert events[i] in events;
    }
    assert r == events;
  }

  /** `handleDeleteEvent`. */
  function DeleteEvent(events: seq<Event>, id: int): (r: seq<Event>)
    ensures forall e :: e in r <==> e in events && e.id != id
  {
    Keep(events, (e: Event) => e.id != id)
  }

  /** Deleting a freshly added event gives back the list it was added to. */
  lemma {:induction false} DeleteUndoesAdd(events: seq<Event>, d: Draft, now: int)
    requires forall e :: e in events ==> e.id != now
    requires ValidateDraft(d) == None
    ensures DeleteEvent(SaveEvent(events, d, None, now).value, now) == events
  {
    KeepConcat(events, [EventOf(d, now)], (e: Event) => e.id != now);
    KeepAll(events, (e: Event) => e.id != now);
  }

  lemma {:induction false} KeepAll<T(!new)>(xs: seq<T>, p: T -> bool)
    requires forall x :: x in xs ==> p(x)
    ensures Keep(xs, p) == xs
  {
    if |xs| > 0 {
      KeepAll(xs[1..], p);
    }
  }

  /** `toggleProduct` / `toggleEventType`: remove every copy if present, else append. */
  function Toggle(xs: seq<string>, x: string): (r: seq<string>)
    ensures x in r <==> x !in xs
    ensures forall y :: y != x ==> (y in r <==> y in xs)
    ensures x !in xs ==> r == xs + [x]
  {
    if x in xs then Keep(xs, y => y != x) else xs + [x]
  }

  /** Toggling another value never changes the first entry, the one that decides the colour. */
  lemma ToggleKeepsFirst(xs: seq<string>, x: string)
    requires |xs| > 0 && xs[0] != x
    ensures |Toggle(xs, x)| > 0 && Toggle(xs, x)[0] == xs[0]
  {
    if x in xs {
      assert xs == [xs[0]] + xs[1..];
      KeepConcat([xs[0]], xs[1..], y => y != x);
    }
  }

  predicate NoDuplicates<T(==)>(xs: seq<T>) {
    forall i, j :: 0 <= i < j < |xs| ==> xs[i] != xs[j]
  }

  /** Toggling twice restores a selection that did not hold the value. */
  lemma ToggleTwice(xs: seq<string>, x: string)
    requires x !in xs
    ensures Toggle(Toggle(xs, x), x) == xs
  {
    KeepConcat(xs, [x], y => y != x);
    KeepAll(xs, y => y != x);
  }

  /** Toggling keeps a selection free of duplicates. */
  lemma {:induction false} ToggleNoDuplicates(xs: seq<string>, x: string)
    requires NoDuplicates(xs)
    ensures NoDuplicates(Toggle(xs, x))
  {
    if x in xs {
      KeepNoDuplicates(xs, y => y != x);
    }
  }

  lemma {:induction false} KeepNoDuplicates<T(!new)>(xs: seq<T>, p: T -> bool)
    requires NoDuplicates(xs)
    ensures NoDuplicates(Keep(xs, p))
  {
    if |xs| > 0 {
      KeepNoDuplicates(xs[1..], p);
      assert xs[0] !in xs[1..];
    }
  }

  /** `toggleProduct`: only the product selection changes, and only in `product`. */
  function ToggleProduct(d: Draft, product: string): (r: Draft)
    ensures r == d.(products := r.products)
    ensures product in r.products <==> product !in d.products
    ensures forall p :: p != product ==> (p in r.products <==> p in d.products)
  {
    d.(products := Toggle(d.products, product))
  }

  /** `toggleEventType`: only the type selection changes, and only in `eventType`. */
  function ToggleEventType(d: Draft, eventType: string): (r: Draft)
    ensures r == d.(eventTypes := r.eventTypes)
    ensures eventType in r.eventTypes <==> eventType !in d.eventTypes
    ensures forall t :: t != eventType ==> (t in r.eventTypes <==> t in d.eventTypes)
    ensures eventType !in d.eventTypes ==> r.eventTypes == d.eventTypes + [eventType]
    ensures |d.eventTypes| > 0 && d.eventTypes[0] != eventType ==>
      |r.eventTypes| > 0 && r.eventTypes[0] == d.eventTypes[0]
  {
    if |d.eventTypes| > 0 && d.eventTypes[0] != eventType then
      ToggleKeepsFirst(d.eventTypes, eventType);
      d.(eventTypes := Toggle(d.eventTypes, eventType))
    else
      d.(eventTypes := Toggle(d.eventTypes, eventType))
  }

  /**
   * `handleStartDateChange`: set the start; an end already set and earlier than the new
   * start moves up to it.  Comparison with an empty start is false, so clearing the start
   * keeps the end.
   */
  function StartDateChange(d: Draft, value: Option<Date>): (r: Draft)
    ensures r.startDate == value
    ensures r == d.(startDate := value, endDate := r.endDate)
    ensures r.startDate.Some? && r.endDate.Some? ==> r.startDate.value <= r.endDate.value
    ensures r.endDate.None? <==> d.endDate.None?
    ensures d.endDate.Some? && (value.None? || value.value <= d.endDate.value) ==> r.endDate == d.endDate
    ensures d.endDate.Some? && value.Some? && d.endDate.value < value.value ==> r.endDate == value
  {
    d.(startDate := value,
       endDate := if d.endDate.Some? && value.Some? && d.endDate.value < value.value then value else d.endDate)
  }

  // ---------------------------------------------------------------------------
  // Labels
  // ---------------------------------------------------------------------------

  /** `Array.prototype.join`: the parts with `sep` between neighbours. */
  function Join(parts: seq<string>, sep: string): (s: string)
    ensures |parts| == 0 ==> s == ""
    ensures |parts| > 0 ==> |s| >= |parts[0]| && s[..|parts[0]|] == parts[0]
  {
    if |parts| == 0 then ""
    else if |parts| == 1 then parts[0]
    else parts[0] + sep + Join(parts[1..], sep)
  }

  /** The names shown for an event's types: `Custom` shows the custom text when there is one. */
  function TypeNames(e: Event): (names: seq<string>)
    ensures |names| == |e.eventTypes|
    ensures forall i :: 0 <= i < |names| ==>
      if e.eventTypes[i] == "Custom" && e.customEventType != "" then names[i] == e.customEventType
      else names[i] == e.eventTypes[i]
  {
    seq(|e.eventTypes|, i requires 0 <= i < |e.eventTypes| =>
      if e.eventTypes[i] == "Custom" && e.customEventType != "" then e.customEventType else e.eventTypes[i])
  }

  /**
   * `getEventLabel`: the type names joined by ", " come first; a customer, when there is
   * one, ends the label after a space; without one the label is just the names.
   */
  function EventLabel(e: Event): (text: string)
    ensures |text| >= |Join(TypeNames(e), ", ")|
    ensures text[..|Join(TypeNames(e), ", ")|] == Join(TypeNames(e), ", ")
    ensures e.customer != "" ==> |text| == |Join(TypeNames(e), ", ")| + 1 + |e.customer|
    ensures e.customer != "" ==> text[|text| - |e.customer| - 1..] == " " + e.customer
    ensures e.customer == "" ==> text == Join(TypeNames(e), ", ")
  {
    var types := Join(TypeNames(e), ", ");
    if e.customer != "" then types + " " + e.customer else types
  }

  /**
   * `getEventShortLabel`: the type names joined by "/" come first; a customer, when there
   * is one, ends the label after " - "; without one the label is just the names.
   */
  function ShortLabel(e: Event): (text: string)
    ensures |text| >= |Join(TypeNames(e), "/")|
    ensures text[..|Join(TypeNames(e), "/")|] == Join(TypeNames(e), "/")
    ensures e.customer != "" ==> |text| == |Join(TypeNames(e), "/")| + 3 + |e.customer|
    ensures e.customer != "" ==> text[|text| - |e.customer| - 3..] == " - " + e.customer
    ensures e.customer == "" ==> text == Join(TypeNames(e), "/")
  {
    var types := Join(TypeNames(e), "/");
    if e.customer != "" then types + " - " + e.customer else types
  }

  /** Joining with one separator character and splitting on it again gives the parts back. */
  lemma {:induction false} SplitJoin(parts: seq<string>, sep: char)
    requires |parts| > 0
    requires forall p, i :: p in parts && 0 <= i < |p| ==> p[i] != sep
    ensures Split(Join(parts, [sep]), sep) == parts
  {
    if |parts| == 1 {
      SplitNoSep(parts[0], sep);
    } else {
      SplitJoin(parts[1..], sep);
      assert parts[0] in parts;
      SplitAt(parts[0], sep, Join(parts[1..], [sep]));
      assert parts == [parts[0]] + parts[1..];
    }
  }

  /**
   * The short label of an event without customer splits at "/" into its type names, when
   * no name contains "/": the label loses no type and merges none.
   */
  lemma ShortLabelNames(e: Event)
    requires e.customer == "" && |e.eventTypes| > 0
    requires forall p, i :: p in TypeNames(e) && 0 <= i < |p| ==> p[i] != '/'
    ensures Split(ShortLabel(e), '/') == TypeNames(e)
  {
    SplitJoin(TypeNames(e), '/');
  }

  // ---------------------------------------------------------------------------
  // Legacy record migration
  // ---------------------------------------------------------------------------

  /** A record as loaded from storage: any of the date and type fields may be missing. */
  datatype StoredEvent = StoredEvent(
    id: int,
    date: Option<string>,
    startDate: Option<string>,
    endDate: Option<string>,
    eventType: Option<string>,
    eventTypes: Option<seq<string>>)

  /** JavaScript truthiness of an optional string: present and non-empty. */
  predicate Truthy(s: Option<string>) {
    s.Some? && s.value != ""
  }

  /**
   * The migration map: a record with a `date` and no `startDate` gets start and end equal
   * to that date and loses `date`; a record with an `eventType` and no `eventTypes` gets a
   * one-element `eventTypes` and loses `eventType`.  Both tests read the original record.
   */
  function Migrate(e: StoredEvent): (m: StoredEvent)
    ensures m.id == e.id
    ensures Truthy(e.date) && !Truthy(e.startDate) ==>
      m.startDate == e.date && m.endDate == e.date && m.date.None?
    ensures !(Truthy(e.date) && !Truthy(e.startDate)) ==>
      m.startDate == e.startDate && m.endDate == e.endDate && m.date == e.date
    ensures Truthy(e.eventType) && e.eventTypes.None? ==>
      m.eventTypes == Some([e.eventType.value]) && m.eventType.None?
    ensures !(Truthy(e.eventType) && e.eventTypes.None?) ==>
      m.eventTypes == e.eventTypes && m.eventType == e.eventType
  {
    var dated := if Truthy(e.date) && !Truthy(e.startDate)
      then e.(startDate := e.date, endDate := e.date, date := None) else e;
    if Truthy(e.eventType) && e.eventTypes.None?
      then dated.(eventTypes := Some([e.eventType.value]), eventType := None) else dated
  }

  /** A migrated record no longer needs migrating: the map is idempotent. */
  lemma MigrateIdempotent(e: StoredEvent)
    ensures Migrate(Migrate(e)) == Migrate(e)
  {
  }

  /** After migration, a record that has a legacy field also has the modern one. */
  lemma MigratedIsModern(e: StoredEvent)
    ensures Truthy(Migrate(e).date) ==> Truthy(Migrate(e).startDate)
    ensures Truthy(Migrate(e).eventType) ==> Migrate(e).eventTypes.Some?
  {
  }

  /** `{date: '2026-01-01', eventType: 'Install'}` loads as a one-day Install event. */
  lemma LegacyExample(id: int)
    ensures Migrate(StoredEvent(id, Some("2026-01-01"), None, None, Some("Install"), None))
      == StoredEvent(id, None, Some("2026-01-01"), Some("2026-01-01"), None, Some(["Install"]))
  {
  }
}
