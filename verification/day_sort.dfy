/** The day event sorter of src/components/CalendarDay.tsx (`sortedEvent`), with
    its identical copy inside src/components/Calendar.tsx: a copy of the day's
    events, stably sorted with all-day events first and timed events by start. */
module DaySort {
  import opened Events
  import Time

  /** An event the comparator can rank: all-day, or timed with an "HH:MM" start. */
  predicate Sortable(e: Event) {
    e.details.timing.AllDay? || Time.IsTimeString(e.details.timing.startTime)
  }

  predicate AllSortable(s: seq<Event>) {
    forall i :: 0 <= i < |s| ==> Sortable(s[i])
  }

  /** The store invariant is enough for the sorter: every stored event, and so
      every day's share of the store, can be ranked. */
  lemma ValidStoreSortable(es: seq<Event>)
    requires ValidStore(es)
    ensures AllSortable(es)
  {
  }

  /** Reference rank of an event: every all-day event shares the lowest rank,
      a timed event is ranked by its start time. */
  function SortKey(e: Event): (k: int)
    requires Sortable(e)
    ensures k == -1 <==> e.details.timing.AllDay?
    ensures k >= -1
  {
    if e.details.timing.AllDay? then -1 else Time.TimeToNumber(e.details.timing.startTime)
  }

  /** The comparator handed to `Array.prototype.sort`; the float difference of
      the two `timeToNumber` values is replaced by the difference of the integer
      keys, which is 100 times as large and so has the same sign. */
  function Compare(a: Event, b: Event): (r: int)
    requires Sortable(a) && Sortable(b)
    ensures r < 0 <==> SortKey(a) < SortKey(b)
    ensures r == 0 <==> SortKey(a) == SortKey(b)
  {
    if a.details.timing.AllDay? && b.details.timing.AllDay? then 0
    else if a.details.timing.AllDay? then -1
    else if b.details.timing.AllDay? then 1
    else Time.TimeToNumber(a.details.timing.startTime) - Time.TimeToNumber(b.details.timing.startTime)
  }

  /** The comparator is antisymmetric, as `Array.prototype.sort` requires of a
      consistent comparator. */
  lemma CompareAntisymmetric(a: Event, b: Event)
    requires Sortable(a) && Sortable(b)
    ensures Compare(a, b) < 0 <==> Compare(b, a) > 0
    ensures Compare(a, b) == 0 <==> Compare(b, a) == 0
  {
  }

  /** The comparator is transitive, the other consistency requirement. */
  lemma CompareTransitive(a: Event, b: Event, c: Event)
    requires Sortable(a) && Sortable(b) && Sortable(c)
    requires Compare(a, b) <= 0 && Compare(b, c) <= 0
    ensures Compare(a, c) <= 0
  {
  }

  /** For two timed events the comparator orders by start time of day. */
  lemma CompareTimedByStart(a: Event, b: Event)
    requires a.details.timing.Timed? && b.details.timing.Timed?
    requires Sortable(a) && Sortable(b)
    ensures Compare(a, b) < 0 <==>
      Time.MinutesSinceMidnight(a.details.timing.startTime) < Time.MinutesSinceMidnight(b.details.timing.startTime)
    ensures Compare(a, b) == 0 <==>
      Time.MinutesSinceMidnight(a.details.timing.startTime) == Time.MinutesSinceMidnight(b.details.timing.startTime)
  {
    Time.TimeToNumberOrder(a.details.timing.startTime, b.details.timing.startTime);
  }

  predicate SortedByKey(s: seq<Event>)
    requires AllSortable(s)
  {
    forall i, j :: 0 <= i < j < |s| ==> SortKey(s[i]) <= SortKey(s[j])
  }

  /** The events of `s` with rank `k`, in their order in `s`. A sort is stable
      when it keeps every one of these subsequences. */
  function WithKey(s: seq<Event>, k: int): (r: seq<Event>)
    requires AllSortable(s)
    ensures forall i :: 0 <= i < |r| ==> Sortable(r[i]) && SortKey(r[i]) == k
  {
    if s == [] then []
    else (if SortKey(s[0]) == k then [s[0]] else []) + WithKey(s[1..], k)
  }

  lemma {:induction false} WithKeyFrom(s: seq<Event>, k: int)
    requires AllSortable(s)
    ensures forall i :: 0 <= i < |WithKey(s, k)| ==> WithKey(s, k)[i] in s
  {
    if s != [] {
      WithKeyFrom(s[1..], k);
      assert s == [s[0]] + s[1..];
    }
  }

  /** Inserts `e` into a sorted sequence before the first element it does not
      follow, so `e` precedes the elements of equal rank already there. */
  function Insert(e: Event, xs: seq<Event>): (r: seq<Event>)
    requires Sortable(e) && AllSortable(xs) && SortedByKey(xs)
    ensures AllSortable(r) && SortedByKey(r)
    ensures multiset(r) == multiset(xs) + multiset{e}
    ensures forall k :: WithKey(r, k) == (if SortKey(e) == k then [e] + WithKey(xs, k) else WithKey(xs, k))
  {
    if xs == [] || Compare(e, xs[0]) <= 0 then
      WithKeyCons(e, xs);
      SortedCons(e, xs);
      [e] + xs
    else
      var rest := Insert(e, xs[1..]);
      InsertLater(e, xs, rest);
      [xs[0]] + rest
  }

  /** The step of `Insert` that passes over the head `xs[0]`, ranked before `e`. */
  lemma InsertLater(e: Event, xs: seq<Event>, rest: seq<Event>)
    requires Sortable(e) && AllSortable(xs) && SortedByKey(xs) && xs != []
    requires SortKey(xs[0]) < SortKey(e)
    requires AllSortable(rest) && SortedByKey(rest)
    requires multiset(rest) == multiset(xs[1..]) + multiset{e}
    requires forall k :: WithKey(rest, k) == (if SortKey(e) == k then [e] + WithKey(xs[1..], k) else WithKey(xs[1..], k))
    ensures AllSortable([xs[0]] + rest) && SortedByKey([xs[0]] + rest)
    ensures multiset([xs[0]] + rest) == multiset(xs) + multiset{e}
    ensures forall k :: WithKey([xs[0]] + rest, k) == (if SortKey(e) == k then [e] + WithKey(xs, k) else WithKey(xs, k))
  {
    assert xs == [xs[0]] + xs[1..];
    InsertLaterSorted(e, xs, rest);
    forall k
      ensures WithKey([xs[0]] + rest, k) == (if SortKey(e) == k then [e] + WithKey(xs, k) else WithKey(xs, k))
    {
      InsertLaterWithKey(e, xs, rest, k);
    }
  }

  lemma InsertLaterSorted(e: Event, xs: seq<Event>, rest: seq<Event>)
    requires Sortable(e) && AllSortable(xs) && SortedByKey(xs) && xs != []
    requires SortKey(xs[0]) < SortKey(e)
    requires AllSortable(rest) && SortedByKey(rest)
    requires multiset(rest) == multiset(xs[1..]) + multiset{e}
    ensures AllSortable([xs[0]] + rest) && SortedByKey([xs[0]] + rest)
  {
    var x, tail := xs[0], xs[1..];
    forall j | 0 <= j < |rest|
      ensures SortKey(x) <= SortKey(rest[j])
    {
      assert rest[j] in multiset(rest);
      if rest[j] != e {
        assert rest[j] in multiset(tail);
        var m :| 0 <= m < |tail| && tail[m] == rest[j];
        assert xs[m + 1] == rest[j];
      }
    }
    SortedCons(x, rest);
  }

  lemma InsertLaterWithKey(e: Event, xs: seq<Event>, rest: seq<Event>, k: int)
    requires Sortable(e) && AllSortable(xs) && xs != []
    requires SortKey(xs[0]) < SortKey(e)
    requires AllSortable(rest)
    requires WithKey(rest, k) == (if SortKey(e) == k then [e] + WithKey(xs[1..], k) else WithKey(xs[1..], k))
    ensures AllSortable([xs[0]] + rest)
    ensures WithKey([xs[0]] + rest, k) == (if SortKey(e) == k then [e] + WithKey(xs, k) else WithKey(xs, k))
  {
    var x, tail := xs[0], xs[1..];
    assert xs == [x] + tail;
    WithKeyCons(x, tail);
    WithKeyCons(x, rest);
    if SortKey(x) == k {
      assert SortKey(e) != k;
      assert WithKey([x] + rest, k) == [x] + WithKey(tail, k);
    } else {
      assert WithKey([x] + rest, k) == WithKey(rest, k);
      assert WithKey(xs, k) == WithKey(tail, k);
    }
  }

  lemma WithKeyCons(x: Event, s: seq<Event>)
    requires Sortable(x) && AllSortable(s)
    ensures AllSortable([x] + s)
    ensures forall k :: WithKey([x] + s, k) == (if SortKey(x) == k then [x] else []) + WithKey(s, k)
  {
    assert ([x] + s)[1..] == s;
  }

  lemma SortedCons(x: Event, s: seq<Event>)
    requires Sortable(x) && AllSortable(s) && SortedByKey(s)
    requires forall j :: 0 <= j < |s| ==> SortKey(x) <= SortKey(s[j])
    ensures AllSortable([x] + s) && SortedByKey([x] + s)
  {
    var t := [x] + s;
    forall i, j | 0 <= i < j < |t|
      ensures SortKey(t[i]) <= SortKey(t[j])
    {
      assert t[j] == s[j - 1];
      if i > 0 {
        assert t[i] == s[i - 1];
      }
    }
  }

  /** `[...events].sort(cmp)`: a sorted copy; the input itself is a value and is
      left as it was. */
  function SortEvents(s: seq<Event>): (r: seq<Event>)
    requires AllSortable(s)
    ensures AllSortable(r) && SortedByKey(r)
    ensures multiset(r) == multiset(s)
    ensures forall k :: WithKey(r, k) == WithKey(s, k)
  {
    if s == [] then []
    else
      assert s == [s[0]] + s[1..];
      Insert(s[0], SortEvents(s[1..]))
  }

  /** In the sorted day, every all-day event comes before every timed event. */
  lemma AllDayFirst(s: seq<Event>)
    requires AllSortable(s)
    ensures forall i, j :: (0 <= i < |SortEvents(s)| && 0 <= j < |SortEvents(s)| &&
      SortEvents(s)[i].details.timing.AllDay? && SortEvents(s)[j].details.timing.Timed?) ==> i < j
  {
  }

  /** Timed events come out in non-decreasing order of start time of day. */
  lemma TimedByStart(s: seq<Event>)
    requires AllSortable(s)
    ensures forall i, j :: (0 <= i < j < |SortEvents(s)| &&
      SortEvents(s)[i].details.timing.Timed? && SortEvents(s)[j].details.timing.Timed?) ==>
        Time.MinutesSinceMidnight(SortEvents(s)[i].details.timing.startTime) <=
        Time.MinutesSinceMidnight(SortEvents(s)[j].details.timing.startTime)
  {
    var r := SortEvents(s);
    forall i, j | 0 <= i < j < |r| && r[i].details.timing.Timed? && r[j].details.timing.Timed?
      ensures Time.MinutesSinceMidnight(r[i].details.timing.startTime) <=
              Time.MinutesSinceMidnight(r[j].details.timing.startTime)
    {
      assert SortKey(r[i]) <= SortKey(r[j]);
      Time.TimeToNumberOrder(r[i].details.timing.startTime, r[j].details.timing.startTime);
    }
  }

  /** Stability: all-day events keep their input order, and so do timed events
      that start at the same time. This is the rank-class clause of
      `SortEvents`' contract, read at the all-day rank and at one start time. */
  lemma SortIsStable(s: seq<Event>, start: string)
    requires AllSortable(s) && Time.IsTimeString(start)
    ensures WithKey(SortEvents(s), -1) == WithKey(s, -1)
    ensures WithKey(SortEvents(s), Time.TimeToNumber(start)) == WithKey(s, Time.TimeToNumber(start))
  {
  }

  lemma WithKeyHead(s: seq<Event>)
    requires AllSortable(s)
    ensures s != [] ==> WithKey(s, SortKey(s[0])) == [s[0]] + WithKey(s[1..], SortKey(s[0]))
  {
  }

  /** A sequence sorted by rank is determined by its rank classes: two sorted
      sequences with the same events of each rank, in the same order, are equal. */
  lemma {:induction false} StableSortUnique(a: seq<Event>, b: seq<Event>)
    requires AllSortable(a) && AllSortable(b) && SortedByKey(a) && SortedByKey(b)
    requires forall k :: WithKey(a, k) == WithKey(b, k)
    ensures a == b
    decreases |a|
  {
    WithKeyHead(a);
    WithKeyHead(b);
    if a != [] && b != [] {
      SortedHeadsAgree(a, b);
      TailsAgree(a, b);
      StableSortUnique(a[1..], b[1..]);
      assert a == [a[0]] + a[1..] && b == [b[0]] + b[1..];
    }
  }

  /** The first element of a sorted sequence has the least rank present. */
  lemma SortedHeadsAgree(a: seq<Event>, b: seq<Event>)
    requires a != [] && b != []
    requires AllSortable(a) && AllSortable(b) && SortedByKey(a) && SortedByKey(b)
    requires forall k :: WithKey(a, k) == WithKey(b, k)
    ensures SortKey(a[0]) == SortKey(b[0]) && a[0] == b[0]
  {
    var ka, kb := SortKey(a[0]), SortKey(b[0]);
    WithKeyHead(a);
    WithKeyHead(b);
    WithKeyFrom(a, kb);
    WithKeyFrom(b, ka);
    var wb := WithKey(b, ka);
    assert wb == WithKey(a, ka);
    assert wb[0] in b;
    var wa := WithKey(a, kb);
    assert wa == WithKey(b, kb);
    assert wa[0] in a;
    assert WithKey(a, ka)[0] == a[0];
  }

  lemma TailsAgree(a: seq<Event>, b: seq<Event>)
    requires a != [] && b != []
    requires AllSortable(a) && AllSortable(b)
    requires a[0] == b[0]
    requires forall k :: WithKey(a, k) == WithKey(b, k)
    ensures forall k :: WithKey(a[1..], k) == WithKey(b[1..], k)
  {
    forall k
      ensures WithKey(a[1..], k) == WithKey(b[1..], k)
    {
      TailAgreesAt(a, b, k);
    }
  }

  lemma TailAgreesAt(a: seq<Event>, b: seq<Event>, k: int)
    requires a != [] && b != []
    requires AllSortable(a) && AllSortable(b)
    requires a[0] == b[0]
    requires WithKey(a, k) == WithKey(b, k)
    ensures WithKey(a[1..], k) == WithKey(b[1..], k)
  {
    var ta, tb := WithKey(a[1..], k), WithKey(b[1..], k);
    var h := if SortKey(a[0]) == k then [a[0]] else [];
    assert WithKey(a, k) == h + ta;
    assert WithKey(b, k) == h + tb;
    assert ta == (h + ta)[|h|..];
    assert tb == (h + tb)[|h|..];
  }

  /** Any stable sort with this comparator, such as the one ECMAScript requires of
      `Array.prototype.sort`, returns exactly `SortEvents`: the result is sorted
      and keeps each rank's input order, and only one sequence does both. */
  lemma StableSortIsSortEvents(s: seq<Event>, r: seq<Event>)
    requires AllSortable(s) && AllSortable(r) && SortedByKey(r)
    requires forall k :: WithKey(r, k) == WithKey(s, k)
    ensures r == SortEvents(s)
  {
    StableSortUnique(r, SortEvents(s));
  }
}
