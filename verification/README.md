# Month calendar: a Dafny model of its core logic

This project models the logic of a small React month-view calendar. The calendar
shows a grid of whole weeks around the selected month. Users add all-day or timed
events on a day. Each day lists its events with all-day events first, then timed
events by start time. The repository also holds standalone day and event components,
which the rendered app does not use. There, an event opens an edit form with a delete
button, and events that do not fit in a day cell are hidden behind a "+N More" button.
The model covers both.

The DOM, date-fns, `crypto.randomUUID` and localStorage are replaced by plain inputs:
- dates are integer day numbers; day 0 is a Sunday;
- the layout measurement is a predicate `fits(k)`;
- the id generator is an id passed in by the caller.

Modules, one per file:

- `Common` (`common.dfy`): `Option` for JavaScript's `null`/`undefined`, and the
  subsequence relation that says a filter keeps relative order.
- `Time` (`time.dfy`): "HH:MM" time strings and the numeric key `timeToNumber`
  derives from them. `parseFloat("HH.MM")` is modelled as the exact value HH + MM/100.
  The sort uses the integer HH*100+MM, which is that value times 100, so every
  comparison has the same sign.
- `Events` (`events.dfy`): the `TEvent` tagged union and the store operations
  `addEvent`, `updateEvent` and `deleteEvent`. The union is a datatype, so "all-day
  carries no times, timed carries both" holds by construction. `ValidStore` is the
  invariant the app keeps: ids are unique and every event is well formed.
- `DaySort` (`day_sort.dfy`): the day sorter. `Compare` is the comparator.
  `SortEvents` is a stable insertion sort. `StableSortIsSortEvents` shows that any
  stable sort with this comparator returns the same sequence. ECMAScript 2019
  requires `Array.prototype.sort` to be stable (section 22.1.3.27), so the model
  predicts the browser's result exactly.
- `EventForm` (`event_form.dfy`): `handleSubmit`, the initial form state, and where a
  submission goes (`addEvent` for a new event, `updateEvent` for an edit). Callback
  calls are a trace: `[]` on rejection, `[Close, Submit(details)]` on acceptance.
- `Overflow` (`overflow.dfy`): the overflow loop of the ResizeObserver callback, as a
  method that mirrors the loop, plus a recursive reference definition.
- `CalendarGrid` (`calendar_grid.dfy`): `calendarDates`, the per-day event filter,
  the weekday-name flag, and the cells the month view renders.
- `ClassNames` (`class_names.dfy`): `concatClass`, with `split(' ')` as the partner
  that recovers the class names.

The app renders the `Calendar` component (src/App.tsx). Its file holds private copies
of `CalendarDay`, `CalendarEvent` and `EventFormModal`. Their sort and `handleSubmit`
are the same code as in the standalone src/components/CalendarDay.tsx and
src/components/EventFormModal.tsx. Each rule is modelled once; the table cites both
copies. The copies differ in three ways:
- the inner `CalendarDay` lists every sorted event in a plain container, with no
  overflow container;
- the inner `CalendarEvent` is a button with no click handler, so the rendered app
  offers no edit or delete;
- the inner form's name and end-time inputs have no `defaultValue`.

Times on timed events stay strings, as the source stores them. The sorter needs a
timed event's start to be a valid "HH:MM" string (`DaySort.Sortable`). Two things
supply that. First, an `<input type="time">` only ever yields "" or a valid time
string. Second, `handleSubmit` rejects "". `EventForm.AcceptedIsWellFormed` and
`EventForm.SubmissionKeepsStoreValid` connect the two to the store invariant, and
`DaySort.ValidStoreSortable` takes the store invariant to the sorter's precondition.

## Model

| member | source | states |
|---|---|---|
| `Time.TimeToNumber` | src/components/CalendarDay.tsx:31 | a well-formed time gets a key below 2400 |
| `Time.TimeToNumberDigits` | src/components/CalendarDay.tsx:31 | the key reads back as the time: its hundreds are the hour and the remainder the minutes, as in "HH.MM" |
| `Time.TimeToNumberScalesParseFloat` | src/components/CalendarDay.tsx:31 | the integer key is exactly 100 times the number `parseFloat` reads from "HH.MM", so comparing keys and comparing parsed values agree on `<` and `==` |
| `Time.TimeToNumberOrder` | src/components/CalendarDay.tsx:31 | comparing the keys orders times exactly as minutes since midnight do (both `<` and `==`) |
| `Time.TimeToNumberInjective` | src/components/CalendarDay.tsx:31 | two well-formed times with equal keys are the same string |
| `Events.AddEvent` | src/context/Events.tsx:32-34 | the result is the old list followed by exactly one new event, made of the given details and the new id; the id set grows by that id |
| `Events.UpdateEvent` | src/context/Events.tsx:36-41 | same length and same id at every position; each event with the id gets the new details, and every other event is unchanged; the id set is unchanged |
| `Events.DeleteEvent` | src/context/Events.tsx:43-45 | no survivor has the id; every event without the id survives, in its old relative order; the length drops by the number of events with that id |
| `Events.FreshId` | src/context/Events.tsx:33 | an id that no stored event has always exists, so a fresh-id generator can be met |
| `Events.AddPreservesValid` | src/context/Events.tsx:33 | adding well-formed details under a fresh id keeps ids unique and every event well formed |
| `Events.UpdatePreservesValid` | src/context/Events.tsx:37-39 | updating with well-formed details keeps the store valid |
| `Events.DeletePreservesValid` | src/context/Events.tsx:44 | deleting keeps the store valid |
| `Events.UpdateAbsent` | src/context/Events.tsx:37-39 | updating an id that is not stored returns the list unchanged |
| `Events.UpdateIdempotent` | src/context/Events.tsx:38 | applying the same update twice gives the same list as applying it once |
| `Events.UpdateStores` | src/context/Events.tsx:38 | after an update, every event carrying the id is exactly `{id, ...details}` |
| `Events.DeleteAbsent` | src/context/Events.tsx:44 | deleting an id that is not stored returns the list unchanged |
| `Events.DeleteIdempotent` | src/context/Events.tsx:44 | deleting twice gives the same list as deleting once |
| `Events.AddThenDelete` | src/context/Events.tsx:32-45 | adding under a fresh id and then deleting that id restores the original list |
| `Events.DeleteStoredShrinksByOne` | src/context/Events.tsx:44 | in a store with unique ids, deleting a stored id removes exactly one event |
| `DaySort.ValidStoreSortable` | src/components/Calendar.tsx:121-136 | every event of a valid store can be ranked by the day sorter |
| `DaySort.SortKey` | src/components/CalendarDay.tsx:34-43 | the reference rank: -1 exactly for all-day events, and the start-time key, which is at least 0, for timed events |
| `DaySort.Compare` | src/components/CalendarDay.tsx:33-44 | the comparator is negative, zero or positive exactly when the first event's rank is below, equal to or above the second's |
| `DaySort.CompareAntisymmetric` | src/components/CalendarDay.tsx:34-43 | swapping the arguments flips the comparator's sign, and zero stays zero |
| `DaySort.CompareTransitive` | src/components/CalendarDay.tsx:34-43 | the comparator's "not after" relation is transitive, so it is a consistent comparator |
| `DaySort.CompareTimedByStart` | src/components/CalendarDay.tsx:43 | for two timed events, the comparator orders by start time of day |
| `DaySort.SortEvents` | src/components/CalendarDay.tsx:30-45 | the result is a permutation of the day's events and is sorted by rank; within each rank it keeps the input order |
| `DaySort.AllDayFirst` | src/components/CalendarDay.tsx:37-42 | in the sorted day, every all-day event comes before every timed event |
| `DaySort.TimedByStart` | src/components/CalendarDay.tsx:43 | timed events come out in non-decreasing order of start time of day |
| `DaySort.SortIsStable` | src/components/CalendarDay.tsx:34-36 | all-day events keep their input order, and so do timed events with the same start |
| `DaySort.StableSortUnique` | src/components/CalendarDay.tsx:33 | two rank-sorted sequences with the same events of each rank, in the same order, are equal |
| `DaySort.StableSortIsSortEvents` | src/components/Calendar.tsx:121-136 | any sorted, stable result of sorting with this comparator equals `SortEvents`; this covers the copy inside Calendar.tsx as well |
| `EventForm.HandleSubmit` | src/components/EventFormModal.tsx:33-71 | rejects (no callback at all) iff the name is missing or empty, or the event is timed and a time is missing or empty; otherwise calls close once and then submit once, with a non-empty name, the target's day, the selected colour, all-day iff checked, and the times exactly as entered |
| `EventForm.TargetDate` | src/components/EventFormModal.tsx:42 | a new event is filed under the `date` prop of the cell that opened the form; an edit, which gets no `date` prop, keeps the edited event's own date |
| `EventForm.InitialForm` | src/components/EventFormModal.tsx:25-29 | the form state the first time the modal opens: a new event starts with the first palette colour, not all-day, an empty start time and an empty name; an edited event starts from its own name, colour and all-day flag |
| `EventForm.NewFormNeedsName` | src/components/Calendar.tsx:210 | submitting a new-event form before typing a name does nothing |
| `EventForm.EditUnchangedRoundTrip` | src/components/EventFormModal.tsx:25-71 | opening a valid event for editing the first time and submitting unchanged closes the form and resubmits exactly the same details |
| `EventForm.AllDayIgnoresTimes` | src/components/EventFormModal.tsx:48-52 | with all-day checked, the time inputs do not affect the outcome, and an accepted event has no times |
| `EventForm.EndBeforeStartAccepted` | src/components/EventFormModal.tsx:54-67 | an end time before the start time is accepted unchanged; the handler does not check that the end comes after the start |
| `EventForm.AcceptedIsWellFormed` | src/components/Calendar.tsx:205-243 | when the time fields hold values a time input can produce, every accepted submission has a name and, if timed, two valid times |
| `EventForm.Apply` | src/components/CalendarDay.tsx:95-100 | a rejected submission leaves the store alone; a new event is appended under the generated id after the unchanged old list; an edit (`updateEvent` as wired in src/components/CalendarEvent.tsx) gives every event with the edited id the submitted details and leaves every other event unchanged, keeping the length and the ids |
| `EventForm.SubmittedDay` | src/components/EventFormModal.tsx:40-44 | the form has no date field: an accepted new event lands on the day of the cell that opened it, and an accepted edit keeps the event on the day it had |
| `EventForm.SubmissionKeepsStoreValid` | src/components/CalendarEvent.tsx:37-43 | any submission, for a new or an edited event, keeps the store valid, given an unused id for new events |
| `Overflow.Recompute` | src/components/OverFlowContainer.tsx:36-51 | the count passed to `renderOverFlow` is between 0 and n; with k items showing the container does not fit for any k above n - count, and it fits at n - count unless all items are hidden; exactly the last `count` items are hidden; the "+N More" control shows iff count > 0 |
| `Overflow.FewestHidden` | src/components/OverFlowContainer.tsx:41-50 | the reference definition: trying counts upward from a start below which nothing fits, the first count that fits, or all items, meets the overflow-count specification |
| `Overflow.OverflowCount` | src/components/OverFlowContainer.tsx:40-50 | the reference count meets the overflow-count specification |
| `Overflow.OverflowCountUnique` | src/components/OverFlowContainer.tsx:38 | the count depends only on the measurements, so recomputing on an unchanged layout gives the same answer |
| `Overflow.RecomputeMatchesReference` | src/components/OverFlowContainer.tsx:41-49 | the loop computes the reference count |
| `Overflow.AllFitHidesNothing` | src/components/OverFlowContainer.tsx:43-44 | if the container fits with every item showing, nothing is hidden |
| `Overflow.MonotoneLongestFit` | src/components/OverFlowContainer.tsx:41-49 | when fewer items never fit worse, and not all items are hidden, the visible items form the longest prefix that fits |
| `CalendarGrid.StartOfWeek` | src/components/Calendar.tsx:29 | the Sunday on or before the day, less than a week earlier |
| `CalendarGrid.EndOfWeek` | src/components/Calendar.tsx:30 | the Saturday on or after the day, less than a week later |
| `CalendarGrid.EachDayOfInterval` | src/components/Calendar.tsx:31 | consecutive days from the start to the end, both included: a day is in the result iff it lies in the interval |
| `CalendarGrid.CalendarDates` | src/components/Calendar.tsx:28-32 | the grid has 28 to 42 cells, a multiple of 7; it runs from the week-start of the first day of the month to the week-end of the last; cells are consecutive, strictly increasing days; the cell at index i falls on weekday i mod 7; every day of the month is in the grid |
| `CalendarGrid.ShowWeekName` | src/components/Calendar.tsx:68 | the weekday-name flag is set exactly for the cells in the first row of the seven-column grid |
| `CalendarGrid.WeekNamesLabelEachColumnOnce` | src/components/Calendar.tsx:68 | weekday names appear on exactly the first 7 cells, which fall on Sunday to Saturday in order |
| `CalendarGrid.EventsOnDay` | src/components/Calendar.tsx:67 | a day gets exactly the stored events dated that day, each as many times as it is stored, in store order |
| `CalendarGrid.Cells` | src/components/Calendar.tsx:63-71 | one cell per grid day; weekday names only on the first 7; each cell shows the same events as that day's filter, sorted by rank, with each rank in store order |
| `CalendarGrid.DayCell` | src/components/Calendar.tsx:64-70 | one day's cell: its day, the flag for its index, and that day's events in the day sorter's order (a permutation of the filter, sorted by rank, stable within a rank) |
| `CalendarGrid.CellShowsItsDay` | src/components/Calendar.tsx:67 | an event is shown in a cell iff it is stored and dated on that cell's day |
| `CalendarGrid.EventInAtMostOneCell` | src/components/Calendar.tsx:63-71 | no event is shown in two different cells |
| `CalendarGrid.EventShownOnItsDay` | src/components/Calendar.tsx:63-71 | every stored event whose day lies within the grid is shown, in the cell of its own day |
| `ClassNames.StringArgs` | src/utils/concatClass.ts:2 | exactly the string arguments survive; `false`, `null`, `undefined` and numbers are dropped |
| `ClassNames.StringArgsAppend` | src/utils/concatClass.ts:2 | surviving strings keep their argument order: filtering a concatenation gives the concatenated filter results |
| `ClassNames.Join` | src/utils/concatClass.ts:2 | no names join to ""; otherwise the length is the names' total length plus one separator between each neighbouring pair |
| `ClassNames.ConcatClass` | src/utils/concatClass.ts:1-3 | no string arguments give ""; otherwise the length is the strings' total plus one space per gap, and a single string comes back unchanged |
| `ClassNames.SplitJoin` | src/utils/concatClass.ts:2 | splitting the joined string on ' ' gives back a non-empty list of space-free names |
| `ClassNames.ConcatClassRoundTrip` | src/utils/concatClass.ts:1-3 | when there is at least one string argument and none contains a space, splitting the result on ' ' gives back exactly the string arguments, in order |
| `ClassNames.NoStringsGiveEmpty` | src/utils/concatClass.ts:2 | with no string arguments the result is "" |
| `ClassNames.SingleStringUnchanged` | src/utils/concatClass.ts:2 | a single surviving string is returned as it is, with no separator added |
| `ClassNames.EmptyStringKept` | src/utils/concatClass.ts:2 | an empty-string argument between two class names is kept, so the result has two spaces in a row there |

## Left out

- Rendering, hooks, state scheduling and context lookup (`Modal`, `App`, `CalendarEvent`, `ViewMoreCalendarEventsModal`, both `useEvent` hooks) are UI plumbing. The only parts modelled are the two `onSubmit` wirings that feed the store (`EventForm.Apply`).
- `updateEvent` reads `events` from the enclosing render, not from the state updater's argument. That stale closure is a React scheduling matter. The model applies the update to the current list.
- localStorage persistence and JSON/`Date` rehydration (src/hook/localStorage.tsx) are I/O plus foreign parsing. The round trip of the stored list through JSON is not modelled.
- `crypto.randomUUID` is an id passed to `AddEvent`. Uniqueness lemmas assume the id is unused. `Events.FreshId` shows that such an id always exists.
- `Time.TimeToNumber`: models `parseFloat(time.replace(":", "."))` as the exact decimal HH + MM/100. Rounding to a binary64 double is left out. Distinct "HH.MM" values stay distinct as doubles, and a difference of distinct doubles has the correct sign, so the comparator's sign is unaffected.
- DaySort.Sortable: the sort is modelled only for timed events whose start is a valid "HH:MM" string. For other starts, `time.replace(":", ".")` changes only the first ':' and `parseFloat` reads the longest numeric prefix: "09:30:15" reads as 9.3 and "9:5" as 9.5, and only "" or non-numeric text gives NaN. ECMAScript treats a NaN comparator result as 0. When a NaN start is mixed with valid starts, the comparator is inconsistent and the order is implementation-defined. Modelling `parseFloat`'s prefix rule is left out.
- Time.IsTimeString: only "HH:MM" is accepted. A time input with a seconds step can also produce "HH:MM:SS", but this form never sets a step.
- Dates are integer day numbers and weeks start on Sunday. Timezones, DST and the time-of-day part of a `Date` are left out. So are `addMonths`/`subMonths` and their day-of-month clamping: month navigation is not modelled, and the model does not claim that it round-trips.
- A month is the day number of its first day plus a length from 28 to 31. The model does not derive months from a civil calendar.
- ResizeObserver and DOM layout are the oracle `fits(k)`. `Overflow.Recompute` models one callback run. Observer registration and disconnection are left out.
- The styling predicates (`isToday`, `isSameMonth`, `isBefore`), `formatData`, and `console.log` are left out. They have no logic to verify.
- EventForm.InitialForm: models the form state on the first opening only. The form stays mounted while closed (src/components/CalendarDay.tsx:95, src/components/CalendarEvent.tsx:37, src/components/Calendar.tsx:170); only `Modal` renders nothing (src/components/Modal.tsx:19). So the name and end-time inputs remount with their `defaultValue`, but the colour, all-day flag and start time are `useState` values that carry over to later openings: after adding a blue all-day event, the next new-event form opens blue and all-day, and an edit form changed and then cancelled reopens with the changes. `EventForm.EditUnchangedRoundTrip` is about the first opening. `EventForm.NewFormNeedsName` holds on every opening, because the name input remounts empty. It also models the standalone form. There, the name and end-time fields start from the edited event. The copy inside Calendar.tsx has no `defaultValue` on those fields, but it is only ever opened for new events, where both are empty either way.
- EventForm.HandleSubmit: the end-time input's `min` attribute (src/components/EventFormModal.tsx:124) makes an end before the start a range underflow, and the browser's constraint validation then blocks submission before `handleSubmit` runs. The `required` attributes on the name and time inputs block an empty submission the same way. That is browser validation, not part of the handler. The model is of the handler alone, which itself checks neither the order of the times nor anything beyond the early returns.
- The rendered app (src/App.tsx, through src/components/Calendar.tsx:110-178) uses the inner `CalendarDay`, which has no overflow container, and the inner `CalendarEvent`, which opens no edit form. So `Overflow.Recompute` and the rest of `Overflow`, and the edit branch of `EventForm.Apply`, model the standalone components (src/components/CalendarDay.tsx, src/components/CalendarEvent.tsx, src/components/OverFlowContainer.tsx), which no rendered component imports.
