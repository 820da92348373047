# CRAD field-service calendar: layout engine

A Dafny model of the layout engine inside the calendar component
`src/crad-calendar.jsx`. The calendar shows field-service employees' date-ranged
events (installs, PMs, service visits, vacations, …) in a week, bi-weekly or monthly
grid. The engine is the component's non-UI logic:

- the runs of visible days for each view (`getWeekDates`, `getBiWeeklyDates`,
  `getMonthDates`), all starting on Monday;
- the `YYYY-MM-DD` text form of dates (`formatDate`, `parseDate`) that every
  comparison in the component goes through;
- the recurring reminders (`REMINDERS`, `getRemindersForDate`);
- the visibility filters (`eventSpansDate`, `getEventsForDate`, `getEventsForEmployee`,
  the monthly `weekEvents` filter);
- the span projector `getEventSpanInfo`, which clips an event onto the visible columns;
- the greedy first-fit row packing of the week/bi-weekly employee lanes and of the
  monthly week lanes, with the stable sorts that order them, the monthly column scans
  and the "+N more" collapse arithmetic;
- the small rules of the event form: colour precedence, labels, save-time validation
  with add/replace, delete, the form toggles, the end-date clamp on start change, and
  the migration of legacy stored records.

Modules, one per file:

| file | module | flavour |
|---|---|---|
| wrappers.dfy | `Wrappers` | `Option`, `Result` |
| sequences.dfy | `Sequences` | `Map`, the `Array.prototype.map` projection of a lane onto keys and bars |
| calendar_dates.dfy | `CalendarDates` | day numbers, civil dates, the text form and its order lemma |
| visible_dates.dfy | `VisibleDates` | the date generators, as methods with loops |
| reminders.dfy | `Reminders` | functions and lemmas |
| events.dfy | `Events` | the event record, filters, colour, labels, form rules, migration |
| span_projection.dfy | `SpanProjection` | `getEventSpanInfo` |
| row_packing.dfy | `RowPacking` | the packing loops as methods, proved equal to a functional first-fit `Pack`; the lane record of packed items |
| lane_order.dfy | `LaneOrder` | the stable sort: an order of positions, its uniqueness, and the permutation it makes |
| week_lane.dfy | `WeekLane` | one employee lane of the week and bi-weekly views |
| month_lane.dfy | `MonthLane` | weeks, column scans, sorting, packing and "+N more" of the monthly view |

Dates are integer day numbers (day 0 is 1970-01-01, a Thursday; `Weekday` is
JavaScript's `getDay`, 0 for Sunday). The component compares dates as `YYYY-MM-DD`
strings. `CalendarDates.FormatPreservesOrder` proves that for four-digit years this
text order is the order of the day numbers, and that equal text means the same day.
So every string comparison of dates is modelled as an integer comparison. This relies on
each day the component compares being the day of a valid date with a four-digit year;
the conversion from a day number back to civil fields is not part of this model.

The packing loops mutate `rowOccupancy` with `push` inside nested `for` loops. They
are methods (`RowPacking.CanFit`, `FindRow`, `PushColumns`, `AssignRows`) whose loop invariants tie
the mutable state to the functional first-fit `RowPacking.Pack`. `Pack` is proved to
place no two events of a row on a shared column, to give each event the lowest free
row, and to use exactly the rows `0 .. rowOccupancy.length - 1`. `Array.prototype.sort`
is stable, so it is modelled as the order of positions sorted by (key, original
position); `LaneOrder.StableSort` returns the items in that order and is a permutation of them;
`LaneOrder.StableSortUnique` shows that it is the only possible result of a stable
sort. `parseDate` hands its three numbers to the `Date` constructor, which
`CalendarDates.DateOf` models with its quirks: years 0 to 99 mean 1900 to 1999, and
months and days past their end carry over.

Two points of the code are easy to misread:

- Colour: `getEventTypeColor` tests whether both `PM` and `Software Upgrade` are among
  the types (any order, other types allowed) and then returns one fixed combo style;
  otherwise the first type's colour decides.
- Span projection: the fallback of `getEventSpanInfo` (lines 259-268) never returns a
  span. It is reached only when no visible date lies inside the event.
  `SpanProjection.EventSpanInfo` therefore returns null there, and
  `SpanProjection.FallbackFindsNothing` proves that the fallback's search finds nothing.

## Model

| member | source | states |
|---|---|---|
| CalendarDates.FormatPreservesOrder | src/crad-calendar.jsx:101-107 | for valid dates with four-digit years, `formatDate` text compares (JavaScript string order) exactly as the day numbers do, and equal text means the same day |
| CalendarDates.FormatDate | src/crad-calendar.jsx:101-107 | for a four-digit year, a month 1..12 and a day 1..31, the text is the fixed-width `YYYY-MM-DD` form |
| CalendarDates.DateOf | src/crad-calendar.jsx:111 | `new Date(year, month - 1, day)`: the day itself from the year 100 on; 1900 + year for years 0 to 99; month 13 is January of the next year and month 0 December of the previous one |
| CalendarDates.ParseDate | src/crad-calendar.jsx:109-112 | a result exactly when the first three `-`-separated fields are digit runs; on `YYYY-MM-DD` text naming a real date with a four-digit year, the day that text names, whose fields format back to the same text |
| CalendarDates.FieldsRoundTrip | src/crad-calendar.jsx:101-112 | the three numbers read from `formatDate` text are the year, month and day written, for every year ≥ 0 |
| CalendarDates.ParseFormat | src/crad-calendar.jsx:101-112 | from the year 100 on, `parseDate(formatDate(c))` is the day of `c`; a day past the month's end gives the day it carries into |
| CalendarDates.TwoDigitYears | src/crad-calendar.jsx:109-112 | for years 0 to 99, `parseDate(formatDate(c))` is the same date in 1900 + year, a different day |
| CalendarDates.OverflowExample | src/crad-calendar.jsx:109-112 | `2026-02-31` is read as 3 March 2026 |
| CalendarDates.FormatParse | src/crad-calendar.jsx:101-112 | reading `YYYY-MM-DD` text of a real date and formatting the fields gives the same text |
| CalendarDates.Weekday | src/crad-calendar.jsx:133 | `getDay` is 0..6, and is 4 (Thursday) exactly on the days a multiple of seven from 1970-01-01 |
| CalendarDates.WeekdayStep | src/crad-calendar.jsx:133 | each next day has the next `getDay` value, Saturday (6) wrapping to Sunday (0), and a week later the weekday repeats; with `Weekday` this fixes every weekday, so `Monday` is `getDay`'s 1 |
| CalendarDates.FormatInjective | src/crad-calendar.jsx:101-107 | two dates have the same text form exactly when they are the same date |
| CalendarDates.DayNumberOrder | src/crad-calendar.jsx:109-112 | for valid civil dates, (year, month, day) order is day-number order, and equal dates have equal day numbers |
| CalendarDates.DaysInMonth | src/crad-calendar.jsx:164-166 | a month has 28 to 31 days; February has 29 exactly in leap years |
| CalendarDates.FirstOfMonth | src/crad-calendar.jsx:164 | from year 100 on, the first of the month is `new Date(year, month, 1)` |
| CalendarDates.LastOfMonth | src/crad-calendar.jsx:166 | the last day of the month is its first plus its length minus one, and from year 100 on it is `new Date(year, month + 1, 0)` |
| CalendarDates.MonthBounds | src/crad-calendar.jsx:164-166 | for every year, `new Date(year, month, 1)` and `new Date(year, month + 1, 0)` are the first and last day of that month of the constructor's full year, so years 0-99 give the month in the 1900s |
| CalendarDates.MonthLength | src/crad-calendar.jsx:164-166 | consecutive months follow each other without gap: month m+1 starts `DaysInMonth` days after month m |
| CalendarDates.EpochIsThursday | src/crad-calendar.jsx:131-133 | day 0 is 1970-01-01 and `getDay` gives 4 (Thursday) on it, fixing the weekday function |
| VisibleDates.MondayOnOrBefore | src/crad-calendar.jsx:131-135 | the start day is a Monday at most six days back and never forward (a Sunday goes back six days) |
| VisibleDates.DaysFrom | src/crad-calendar.jsx:138-141 | the push loop yields `count` consecutive days from the start |
| VisibleDates.WeekDates | src/crad-calendar.jsx:129-142 | seven consecutive days, Monday first, holding the anchor |
| VisibleDates.BiWeeklyDates | src/crad-calendar.jsx:144-157 | fourteen consecutive days, Monday first, with the anchor in the first seven |
| VisibleDates.SundayOnOrAfter | src/crad-calendar.jsx:174-178 | the end day is a Sunday at most six days after the month's last day |
| VisibleDates.MonthDates | src/crad-calendar.jsx:159-187 | consecutive days from a Monday to a Sunday, a whole number of weeks, starting within the week before `new Date(year, month, 1)` and ending within the week after `new Date(year, month + 1, 0)` |
| VisibleDates.MonthDatesCoverMonth | src/crad-calendar.jsx:159-187 | every day of the month appears among the monthly view's dates; for an anchor year 0-99 that is the month in the 1900s |
| Reminders.RemindersForDate | src/crad-calendar.jsx:115-127 | a reminder is kept exactly when the day difference is ≥ 0 and divisible by its interval |
| Reminders.RemindersInConfigurationOrder | src/crad-calendar.jsx:118-126 | the filter keeps configuration order (it distributes over concatenation) |
| Reminders.FiresOnSchedule | src/crad-calendar.jsx:119-125 | with a positive interval a reminder fires exactly on its start plus a whole number of intervals |
| Reminders.Configured | src/crad-calendar.jsx:36-39 | two reminders, time card then payday, every 14 days, first on Monday 2026-01-05 and Friday 2026-01-09 |
| Reminders.FortnightlyWeekday | src/crad-calendar.jsx:115-127 | a reminder repeating every 14 days only fires on the weekday of its first occurrence |
| Reminders.ConfiguredWeekdays | src/crad-calendar.jsx:36-39 | the time card only fires on Mondays, payday only on Fridays |
| Reminders.TimecardSchedule | src/crad-calendar.jsx:36-39 | on the configured reminders, only the time card fires on 2026-01-05 and 2026-01-19, none fires on 2026-01-12, and the time card fires again on 2026-02-02 |
| Events.EventSpansDate | src/crad-calendar.jsx:208-211 | only an event ending on or after its start spans a date; a one-day event spans exactly its day |
| Events.SpansDateAsText | src/crad-calendar.jsx:208-211 | for valid four-digit-year dates, the string comparisons of `eventSpansDate` agree with the day-number test |
| Events.EventsForDate | src/crad-calendar.jsx:208-220 | an event is kept exactly when the date lies in its range and it passes the employee and type filters |
| Events.EventsForEmployee | src/crad-calendar.jsx:223-233 | an event is kept exactly when it is the employee's, overlaps the visible window and passes the type filter (the employee filter is not consulted) |
| Events.OverlapIffSomeDay | src/crad-calendar.jsx:208-233 | on consecutive days, the window-overlap test of `getEventsForEmployee` holds exactly when `eventSpansDate` holds on some visible day |
| Events.KeepConcat | src/crad-calendar.jsx:214-219 | filtering keeps the original order |
| Events.EventTypeColor | src/crad-calendar.jsx:386-419 | the style is always one of the palette styles |
| Events.ColorPrecedence | src/crad-calendar.jsx:386-419 | tentative wins; then PM together with Software Upgrade gives the combo style; then the first type's colour; the default exactly when there is no first type with a colour |
| Events.ColorDependsOnTypeSetAndFirst | src/crad-calendar.jsx:392-418 | the colour depends only on the set of types and the first type, not on order or repeats |
| Events.ComboColorExample | src/crad-calendar.jsx:395-400 | PM + Software Upgrade in either order gives the combo style, not PM's own colour; tentative still wins |
| Events.ValidateDraft | src/crad-calendar.jsx:280-293 | a draft is accepted exactly when employee, a type and both dates are present, a Custom type has non-blank text, and the end is not before the start; otherwise the error is the first failed check: missing field, then blank custom type, then end before start |
| Events.ReplaceById | src/crad-calendar.jsx:297 | the list keeps its length; events with the edited id become the replacement, all others stay as they were |
| Events.SaveEvent | src/crad-calendar.jsx:279-302 | saving fails exactly when validation fails, with its error; otherwise it appends the new event with the given id, or replaces the edited id's events and keeps the rest |
| Events.SavePreservesDateOrder | src/crad-calendar.jsx:290-302 | if every stored event starts on or before its end, so does every event after a save |
| Events.SaveRejectsInvertedRange | src/crad-calendar.jsx:290-293 | a draft ending 2026-03-08 and starting 2026-03-10 is rejected with the end-before-start error |
| Events.DraftOf | src/crad-calendar.jsx:319-331 | loading an event into the form and building the event back gives the same event |
| Events.EditSaveUnchanged | src/crad-calendar.jsx:279-335 | editing a valid event and saving without changes leaves the list unchanged |
| Events.DeleteEvent | src/crad-calendar.jsx:337-339 | the remaining events are exactly those with another id |
| Events.DeleteUndoesAdd | src/crad-calendar.jsx:296-339 | deleting a newly added event (fresh id) restores the list |
| Events.Toggle | src/crad-calendar.jsx:341-357 | the toggled value is present afterwards exactly when it was absent before; other values are unaffected; an absent value is appended after the existing ones, which keep their order |
| Events.ToggleKeepsFirst | src/crad-calendar.jsx:350-357 | toggling a value other than the first entry leaves the first entry in place |
| Events.ToggleProduct | src/crad-calendar.jsx:341-348 | only the product selection changes: the product is selected afterwards exactly when it was not before, every other product is unaffected |
| Events.ToggleEventType | src/crad-calendar.jsx:350-357 | only the type selection changes: the type is selected afterwards exactly when it was not before, every other type is unaffected; a newly selected type goes last, and toggling any other type keeps the first type, the one `EventTypeColor` falls back to |
| Events.ToggleTwice | src/crad-calendar.jsx:341-348 | toggling an absent value twice restores the selection |
| Events.ToggleNoDuplicates | src/crad-calendar.jsx:341-357 | a selection without duplicates keeps none after a toggle |
| Events.StartDateChange | src/crad-calendar.jsx:359-365 | the start is set; an end earlier than the new start becomes exactly the new start, otherwise it is kept; afterwards start ≤ end when both are set |
| Events.TypeNames | src/crad-calendar.jsx:236-238 | each type is shown by its name, except Custom with non-empty text, which shows the text |
| Events.Join | src/crad-calendar.jsx:236-246 | joining no parts gives the empty label; otherwise the label starts with the first part |
| Events.EventLabel | src/crad-calendar.jsx:236-241 | the label starts with the type names joined by ", "; with a customer it ends in " " + customer and is exactly as long as the two, so nothing lies between; without one it is just the names |
| Events.ShortLabel | src/crad-calendar.jsx:244-249 | the label starts with the type names joined by "/"; with a customer it ends in " - " + customer and is exactly as long as the two, so nothing lies between; without one it is just the names |
| Events.SplitJoin | src/crad-calendar.jsx:243-246 | joining parts with a separator character none of them contains, then splitting on it, gives the parts back |
| Events.ShortLabelNames | src/crad-calendar.jsx:243-248 | without customer, the short label splits at "/" back into the type names when none contains "/" |
| Events.Migrate | src/crad-calendar.jsx:73-87 | a record with `date` and no `startDate` gets start = end = date and loses `date`; one with `eventType` and no `eventTypes` gets a one-element `eventTypes`; otherwise those fields are unchanged |
| Events.MigrateIdempotent | src/crad-calendar.jsx:73-87 | migrating a migrated record changes nothing |
| Events.MigratedIsModern | src/crad-calendar.jsx:76-85 | after migration a legacy `date` implies a `startDate` and a legacy `eventType` implies `eventTypes` |
| Events.LegacyExample | src/crad-calendar.jsx:76-85 | `{date: '2026-01-01', eventType: 'Install'}` becomes a one-day Install event |
| SpanProjection.FindIndex | src/crad-calendar.jsx:254 | the index is the first one satisfying the test, or -1 when none does |
| SpanProjection.FindLastIndex | src/crad-calendar.jsx:255 | the index is the last one satisfying the test, or -1 when none does |
| SpanProjection.EventSpanInfo | src/crad-calendar.jsx:252-277 | a span starts at a column ≥ 0, covers ≥ 1 column, ends within the dates, and `isStart`/`isEnd` say whether the event starts/ends inside the window |
| SpanProjection.SpanInfoExact | src/crad-calendar.jsx:252-277 | on increasing dates the result is null exactly when no visible date lies in `[startDate, endDate]`, and otherwise the covered columns are exactly the dates inside the event |
| SpanProjection.FallbackFindsNothing | src/crad-calendar.jsx:257-268 | whenever the fallback is reached, for dates in any order, no visible date lies inside the event and the fallback's search returns -1, so the fallback returns null |
| SpanProjection.SpanInfoExample | src/crad-calendar.jsx:252-277 | a one-day event on the sixth day of a week projects to column 5, length 1, starting and ending inside |
| RowPacking.SharesColumnMeaning | src/crad-calendar.jsx:498-505 | two column ranges share a column exactly when some column lies in both |
| RowPacking.Pack | src/crad-calendar.jsx:489-527 | one row per event, no more rows than events, and no event placed below more rows than there are events before it |
| RowPacking.PackGuarantees | src/crad-calendar.jsx:489-527 | first-fit packing puts no two events sharing a column in one row, gives each event the lowest row not blocked by an earlier event, and uses rows `0 .. rowOccupancy.length - 1`, each holding an event, at most one row per event, the last one used |
| RowPacking.PackInvariant | src/crad-calendar.jsx:489-527 | each row's occupied columns are exactly the columns of the events placed in it, and the packing properties above hold for every prefix of the events |
| RowPacking.CanFit | src/crad-calendar.jsx:498-505 | the scan answers whether none of the event's columns is occupied in the row |
| RowPacking.FindRow | src/crad-calendar.jsx:494-512 | the row scan returns the first row that fits, or `rowOccupancy.length` when none does |
| RowPacking.PushColumns | src/crad-calendar.jsx:522-524 | pushing the columns one by one leaves the row holding its old columns followed by the bar's whole range `startCol..endCol`, in order |
| RowPacking.AssignRows | src/crad-calendar.jsx:489-527 | the nested loops compute exactly the first-fit packing, with its no-shared-column, lowest-row and rows-used guarantees |
| RowPacking.PackExample | src/crad-calendar.jsx:489-527 | columns [0,2], [1,3], [4,5] get rows 0, 1, 0 |
| LaneOrder.StableOrder | src/crad-calendar.jsx:489 | the sorted order lists every position once, by ascending key and, for equal keys, by original position |
| LaneOrder.Insert | src/crad-calendar.jsx:489 | inserting a position into a sorted order keeps it sorted and adds exactly that position |
| LaneOrder.StableOrderUnique | src/crad-calendar.jsx:654 | any two orders of the same positions sorted by key and position are equal: the stable sort has one result |
| LaneOrder.StableSort | src/crad-calendar.jsx:489 | the items in the stable order of their keys, and a permutation of them (same multiset) |
| LaneOrder.StableSortUnique | src/crad-calendar.jsx:654 | any two results of a stable sort of the same items by the same keys are equal |
| LaneOrder.StableSortAscends | src/crad-calendar.jsx:654 | a stable sort's result lists the keys in ascending order |
| WeekLane.Projected | src/crad-calendar.jsx:482-485 | the kept pairs are exactly the events with a span, paired with that span |
| WeekLane.SortByStart | src/crad-calendar.jsx:488-489 | the result of a stable sort by `startCol`: a permutation of the pairs with non-decreasing `startCol`, pairs with equal `startCol` in their original order |
| WeekLane.EmployeeLane | src/crad-calendar.jsx:478-529 | the lane's events are exactly the stable sort by first column of the employee's projected events, inside the dates; no two events in a row share a column; each gets the lowest free row; `maxRows` ≥ 2 exceeds every row index and every row from 2 up holds an event |
| WeekLane.OverlapIffProjected | src/crad-calendar.jsx:223-277 | on consecutive dates an event (start ≤ end) overlaps the window exactly when it has a span |
| WeekLane.ProjectedConcat | src/crad-calendar.jsx:482-486 | projecting two event lists one after the other gives their projections one after the other, so pairs keep the events' order |
| WeekLane.ProjectedKeepsAll | src/crad-calendar.jsx:482-485 | on consecutive dates `.filter(e => e.spanInfo)` drops none of the employee's valid events and keeps their order |
| MonthLane.SplitWeeks | src/crad-calendar.jsx:597-600 | the weeks are the seven-day slices of the dates, in order, the last one possibly short |
| MonthLane.MonthWeeksAreWholeWeeks | src/crad-calendar.jsx:597-600 | on the monthly dates every week has seven consecutive days starting on a Monday |
| MonthLane.EventsInWeek | src/crad-calendar.jsx:610-615 | an event is kept exactly when it overlaps the week and passes both filters |
| MonthLane.WeekColumns | src/crad-calendar.jsx:617-640 | `startCol` is the first day on or after the start (0 when none or when the event starts before the week); `endCol` is the last day on or before the end (6 when none or when it ends after the week); both in 0..6 |
| MonthLane.ScannedColumnsUnique | src/crad-calendar.jsx:617-640 | those conditions fix the two columns: the scans have one possible result for any week |
| MonthLane.ColumnsOnConsecutiveWeek | src/crad-calendar.jsx:617-640 | on a week of consecutive days the columns are exactly the event's first and last day inside the week, with `startCol ≤ endCol` |
| MonthLane.ClippedColumns | src/crad-calendar.jsx:617-649 | for an overlapping event: `0 ≤ startCol ≤ endCol ≤ 6` and `span ≥ 1`; `startCol` is 0 exactly when the event starts on or before the week's first day, `endCol` is 6 exactly when it ends on or after the last; the flags mark a start/end inside the week |
| MonthLane.ClipToWeek | src/crad-calendar.jsx:617-650 | each event becomes one clipped record, in order, with the columns, span and flags above |
| MonthLane.SortByColumnThenLength | src/crad-calendar.jsx:653-654 | the result of a stable sort by `startCol` then longest first: a permutation of the items in that order, ties keeping their original order |
| MonthLane.WeekEvents | src/crad-calendar.jsx:603-690 | the lane's items are the stable sort of the week's events clipped by the column scans, so each event appears once, clipped, in comparator order; no two events in a row share a column; each gets the lowest free row; rows `0 .. rowCount - 1` each hold an event |
| MonthLane.MaxRow | src/crad-calendar.jsx:745 | `Math.max(0, ...rowIndex)` bounds every row index and is 0 or some event's row |
| MonthLane.HiddenCount | src/crad-calendar.jsx:751 | the "+N more" number is positive exactly when some event sits in row 2 or below, and every row index is below N + 2 |
| MonthLane.Shown | src/crad-calendar.jsx:771 | an expanded week draws every event, a collapsed one exactly those in rows 0 and 1 |
| MonthLane.VisibleRows | src/crad-calendar.jsx:750 | collapsed, two rows; expanded, the fewest rows that hold every event (the last visible row is used, or is row 0); either way every drawn event lies within the visible rows |
| MonthLane.MoreButton | src/crad-calendar.jsx:745-771 | on a packed week "+N more" shows exactly when some event is hidden, N is the number of hidden rows and each holds an event; expanded, every event is shown |

## Left out

- React state, JSX rendering, modals, the event-detail popup and the employee list: these are UI.
- `localStorage` load and save are browser I/O. Only the migration map applied on load is modelled (`Events.Migrate`).
- Pixel and percentage geometry (`leftPercent`, `widthPercent`, `eventHeight`, `topPosition`, `totalHeight`, the `calc(...)` styles) is floating-point presentation.
- `toLocaleDateString` labels, `getNavigationLabel`, `navigate` and `goToToday` are locale formatting and JavaScript `Date` library behaviour.
- `getEmployeeColor` is a lookup in the static employee table.
- `getDisplayDates` only dispatches on the view mode to the three generators, which are modelled.
- The configuration files under `src/config` are static data that the component does not read.
- `Date` objects become integer day numbers. `Math.round(diffTime / 86400000)` becomes an exact day difference, so daylight-saving effects are not modelled.
- `VisibleDates.MonthDates` takes the year and month already read off the anchor date (`getFullYear`, `getMonth`). The conversion from a day number back to a civil date is not part of this model. The month bounds are built with `DateOf`, as the source builds them with the `Date` constructor, so an anchor year 0-99 gives the month in the 1900s.
- `Date.now()` ids are a parameter of `Events.SaveEvent`. `alert` becomes the `Failure` result.
- `Events.SaveEvent` takes the edited id as an `Option`. The source tests `editingEventId` for truthiness, so an id of 0 would count as "no edit"; ids come from `Date.now()` and are never 0.
- Events.EventTypeColor: does not model a non-array `eventTypes` value (`Array.isArray` wrapping it in a one-element list). Every record the component saves holds an array; a legacy record with neither `eventType` nor `eventTypes` keeps none (`Events.Migrate`). Every use site treats that missing value as the empty list, which the model's `seq` stands for: no type-filter match, an empty label, the default colour.
- CalendarDates.ParseDate: the model returns `None` for text whose first three `-`-separated fields are not all non-empty digit runs. JavaScript's `Number` reads some such fields as numbers: an empty field or whitespace as 0, a leading `+`, surrounding whitespace, `0x`/`0o`/`0b` prefixes, decimals and exponents. For example `"2026-+3-05"` is 5 March 2026 there. Other fields become `NaN` and give an invalid `Date`. A JavaScript `Date` covers only 100,000,000 days either side of 1970-01-01, so a year past about 275760 gives an invalid `Date`; `DateOf` returns a day for every year. The component parses only text that `formatDate` produced.
- CalendarDates.FormatPreservesOrder: holds for years 1000 to 9999 only. Other years have another number of digits, and their text no longer sorts like the dates.
- The `rowIndex` that the packing writes into each event object is returned as a sequence parallel to the sorted lane (`RowPacking.AssignRows`, `WeekLane.EmployeeLane`, `MonthLane.WeekEvents`). The packed records are fresh spread copies (`{...event, spanInfo}`, `{...event, startCol, ...}`), so the `rowIndex` writes never reach the component's `events` state, and a parallel sequence loses nothing.
- The expanded/collapsed map `expandedCells` and `toggleCellExpand` are UI state. The model takes `expanded` as a parameter (`MonthLane.Shown`, `MonthLane.VisibleRows`).
