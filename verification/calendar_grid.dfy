/** The month view of src/components/Calendar.tsx: the `calendarDates` grid of
    whole weeks around the selected month, the per-day event filter, the
    weekday-name flag, and what each day cell shows. Dates are integer day
    numbers; day 0 is a Sunday, and weeks start on Sunday (date-fns'
    default `weekStartsOn: 0`). */
module CalendarGrid {
  import opened Common
  import opened Events
  import DaySort

  /** 0 = Sunday ... 6 = Saturday, as `Date.prototype.getDay` numbers them. */
  function Weekday(d: Day): (w: int)
    ensures 0 <= w < 7
  {
    d % 7
  }

  lemma WeekdayShift(start: Day, i: int)
    requires Weekday(start) == 0
    ensures Weekday(start + i) == i % 7
  {
    var q := start / 7;
    assert start == 7 * q;
    assert (7 * q + i) % 7 == i % 7;
  }

  /** `startOfWeek`: the Sunday on or before `d`. */
  function StartOfWeek(d: Day): (s: Day)
    ensures s <= d < s + 7
    ensures Weekday(s) == 0
  {
    d - Weekday(d)
  }

  /** `endOfWeek`: the Saturday on or after `d`. */
  function EndOfWeek(d: Day): (e: Day)
    ensures e - 7 < d <= e
    ensures Weekday(e) == 6
  {
    var e := d + (6 - Weekday(d));
    WeekdayShift(StartOfWeek(d), 6);
    assert e == StartOfWeek(d) + 6;
    e
  }

  /** A month as the day number of its first day and its length. */
  datatype Month = Month(firstDay: Day, length: int)

  predicate ValidMonth(m: Month) {
    28 <= m.length <= 31
  }

  function StartOfMonth(m: Month): (d: Day) {
    m.firstDay
  }

  function EndOfMonth(m: Month): (d: Day) {
    m.firstDay + m.length - 1
  }

  /** `eachDayOfInterval`: every day from `start` to `end`, both included.
      date-fns rejects a reversed interval; this one never is. */
  function EachDayOfInterval(start: Day, end: Day): (r: seq<Day>)
    requires start <= end
    ensures |r| == end - start + 1
    ensures r[0] == start && r[|r| - 1] == end
    ensures forall i :: 0 < i < |r| ==> r[i] == r[i - 1] + 1
    ensures forall d :: d in r <==> start <= d <= end
  {
    var r := seq(end - start + 1, i => start + i);
    forall d | start <= d <= end
      ensures d in r
    {
      assert r[d - start] == d;
    }
    r
  }

  /** `calendarDates`: whole weeks, Sunday to Saturday, covering the month. */
  function CalendarDates(m: Month): (r: seq<Day>)
    requires ValidMonth(m)
    ensures |r| % 7 == 0 && 28 <= |r| <= 42
    ensures r[0] == StartOfWeek(StartOfMonth(m)) && r[|r| - 1] == EndOfWeek(EndOfMonth(m))
    ensures forall i :: 0 < i < |r| ==> r[i] == r[i - 1] + 1
    ensures forall i, j :: 0 <= i < j < |r| ==> r[i] < r[j]
    ensures forall i :: 0 <= i < |r| ==> Weekday(r[i]) == i % 7
    ensures forall d :: StartOfMonth(m) <= d <= EndOfMonth(m) ==> d in r
  {
    var start := StartOfWeek(StartOfMonth(m));
    var end := EndOfWeek(EndOfMonth(m));
    GridLength(start, end);
    GridWeekdays(start, end);
    EachDayOfInterval(start, end)
  }

  lemma GridLength(start: Day, end: Day)
    requires Weekday(start) == 0 && Weekday(end) == 6 && start <= end
    ensures (end - start + 1) % 7 == 0
    ensures end - start + 1 <= 43 ==> end - start + 1 <= 42
  {
    var a, b := start / 7, end / 7;
    assert start == 7 * a && end == 7 * b + 6;
    assert end - start + 1 == 7 * (b - a + 1);
  }

  lemma GridWeekdays(start: Day, end: Day)
    requires Weekday(start) == 0 && start <= end
    ensures forall i :: 0 <= i < |EachDayOfInterval(start, end)| ==>
      Weekday(EachDayOfInterval(start, end)[i]) == i % 7
  {
    var r := EachDayOfInterval(start, end);
    forall i | 0 <= i < |r|
      ensures Weekday(r[i]) == i % 7
    {
      WeekdayShift(start, i);
    }
  }

  /** `showWeekName={index < 7}`: the first row carries the weekday names.
      `WeekNamesLabelEachColumnOnce` ties that row to Sunday through Saturday. */
  function ShowWeekName(index: nat): (named: bool)
    ensures named <==> index / 7 == 0
  {
    index < 7
  }

  /** The named cells are exactly the first week, one per weekday from
      Sunday to Saturday, so each column is labelled once. */
  lemma WeekNamesLabelEachColumnOnce(m: Month)
    requires ValidMonth(m)
    ensures forall i :: 0 <= i < |CalendarDates(m)| && ShowWeekName(i) ==> Weekday(CalendarDates(m)[i]) == i
    ensures forall w :: 0 <= w < 7 ==> ShowWeekName(w) && Weekday(CalendarDates(m)[w]) == w
    ensures forall i :: 7 <= i < |CalendarDates(m)| ==> !ShowWeekName(i)
  {
  }

  /** `events.filter((event) => isSameDay(day, event.date))`. */
  function EventsOnDay(es: seq<Event>, day: Day): (r: seq<Event>)
    ensures forall i :: 0 <= i < |r| ==> r[i].details.date == day && r[i] in es
    ensures forall i :: 0 <= i < |es| && es[i].details.date == day ==> es[i] in r
    ensures IsSubsequence(r, es)
    ensures forall x :: multiset(r)[x] == (if x.details.date == day then multiset(es)[x] else 0)
  {
    if es == [] then []
    else
      var rest := EventsOnDay(es[1..], day);
      OnDayCons(es, rest, day);
      if es[0].details.date == day then
        var r := [es[0]] + rest;
        assert r[1..] == rest;
        r
      else
        SubsequenceOfTail(rest, es);
        rest
  }

  /** The multiplicity step of `EventsOnDay`: the head is counted once more
      exactly when it is dated on the day. */
  lemma OnDayCons(es: seq<Event>, rest: seq<Event>, day: Day)
    requires es != []
    requires forall x :: multiset(rest)[x] == (if x.details.date == day then multiset(es[1..])[x] else 0)
    ensures es[0].details.date == day ==>
      forall x :: multiset([es[0]] + rest)[x] == (if x.details.date == day then multiset(es)[x] else 0)
    ensures es[0].details.date != day ==>
      forall x :: multiset(rest)[x] == (if x.details.date == day then multiset(es)[x] else 0)
  {
    assert es == [es[0]] + es[1..];
    assert multiset(es) == multiset{es[0]} + multiset(es[1..]);
    assert multiset([es[0]] + rest) == multiset{es[0]} + multiset(rest);
  }

  /** What one day cell displays. */
  datatype Cell = Cell(day: Day, showWeekName: bool, events: seq<Event>)

  /** The `days` grid: one cell per calendar date, with that day's events sorted
      for display. */
  function Cells(m: Month, es: seq<Event>): (cells: seq<Cell>)
    requires ValidMonth(m) && DaySort.AllSortable(es)
    ensures |cells| == |CalendarDates(m)|
    ensures forall i :: 0 <= i < |cells| ==>
      && cells[i].day == CalendarDates(m)[i]
      && (cells[i].showWeekName <==> i < 7)
      && multiset(cells[i].events) == multiset(EventsOnDay(es, cells[i].day))
      && DaySort.AllSortable(cells[i].events) && DaySort.SortedByKey(cells[i].events)
    ensures forall i, k :: 0 <= i < |cells| ==>
      DaySort.WithKey(cells[i].events, k) == DaySort.WithKey(EventsOnDay(es, cells[i].day), k)
  {
    var dates := CalendarDates(m);
    seq(|dates|, i requires 0 <= i < |dates| => DayCell(es, dates[i], i))
  }

  /** One `CalendarDay`: the day, the weekday-name flag of its grid index, and
      the day's filtered events in the day sorter's order. */
  function DayCell(es: seq<Event>, day: Day, index: nat): (c: Cell)
    requires DaySort.AllSortable(es)
    ensures c.day == day && (c.showWeekName <==> index < 7)
    ensures multiset(c.events) == multiset(EventsOnDay(es, day))
    ensures DaySort.AllSortable(c.events) && DaySort.SortedByKey(c.events)
    ensures forall k :: DaySort.WithKey(c.events, k) == DaySort.WithKey(EventsOnDay(es, day), k)
  {
    var bucket := EventsOnDay(es, day);
    assert DaySort.AllSortable(bucket);
    Cell(day, ShowWeekName(index), DaySort.SortEvents(bucket))
  }

  /** A cell shows exactly the stored events dated on its day. */
  lemma CellShowsItsDay(m: Month, es: seq<Event>, i: int, x: Event)
    requires ValidMonth(m) && DaySort.AllSortable(es)
    requires 0 <= i < |Cells(m, es)|
    ensures x in Cells(m, es)[i].events <==> x in es && x.details.date == CalendarDates(m)[i]
  {
    var c := Cells(m, es)[i];
    var b := EventsOnDay(es, c.day);
    assert x in c.events <==> x in multiset(c.events);
    assert x in b <==> x in multiset(b);
    if x in b {
      var k :| 0 <= k < |b| && b[k] == x;
    }
    if x in es && x.details.date == c.day {
      var k :| 0 <= k < |es| && es[k] == x;
    }
  }

  /** No event is shown in two cells. */
  lemma EventInAtMostOneCell(m: Month, es: seq<Event>, i: int, j: int, x: Event)
    requires ValidMonth(m) && DaySort.AllSortable(es)
    requires 0 <= i < |Cells(m, es)| && 0 <= j < |Cells(m, es)|
    requires x in Cells(m, es)[i].events && x in Cells(m, es)[j].events
    ensures i == j
  {
    CellShowsItsDay(m, es, i, x);
    CellShowsItsDay(m, es, j, x);
  }

  /** Every stored event dated inside the grid's range is shown, in the cell
      of its own day. */
  lemma EventShownOnItsDay(m: Month, es: seq<Event>, x: Event)
    requires ValidMonth(m) && DaySort.AllSortable(es)
    requires x in es
    requires CalendarDates(m)[0] <= x.details.date <= CalendarDates(m)[|CalendarDates(m)| - 1]
    ensures 0 <= x.details.date - CalendarDates(m)[0] < |Cells(m, es)|
    ensures x in Cells(m, es)[x.details.date - CalendarDates(m)[0]].events
  {
    var r := CalendarDates(m);
    var i := x.details.date - r[0];
    assert r[i] == r[0] + i by { EachDayIsOffset(r, i); }
    CellShowsItsDay(m, es, i, x);
  }

  lemma {:induction false} EachDayIsOffset(r: seq<Day>, i: int)
    requires forall k :: 0 < k < |r| ==> r[k] == r[k - 1] + 1
    requires 0 <= i < |r|
    ensures r[i] == r[0] + i
  {
    if i > 0 {
      EachDayIsOffset(r, i - 1);
    }
  }
}
