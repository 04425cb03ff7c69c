/** The event store of src/context/Events.tsx: the `TEvent` tagged union and the
    `addEvent`, `updateEvent` and `deleteEvent` operations over the ordered list.
    Persistence to localStorage and React state scheduling are outside the model;
    each operation is the pure update function handed to `setEvents`. */
module Events {
  import opened Common
  import Time

  /** `EVENT_COLORS` of src/utils/useEvent.ts, in declaration order. */
  datatype Color = Red | Green | Blue

  const EventColors: seq<Color> := [Red, Green, Blue]

  type Id = string

  /** A calendar day as an integer day number; the time-of-day part of a `Date`
      plays no role in placing an event. */
  type Day = int

  /** The two exclusive, exhaustive variants of the union: all-day events carry
      no times, timed events carry both, as entered. */
  datatype Timing = AllDay | Timed(startTime: string, endTime: string)

  /** `UnionOmit<TEvent, "id">`: everything the form produces. */
  datatype EventDetails = EventDetails(name: string, date: Day, color: Color, timing: Timing)

  /** A stored `TEvent`: an id plus its details. */
  datatype Event = Event(id: Id, details: EventDetails)

  function Ids(es: seq<Event>): (ids: set<Id>) {
    set i | 0 <= i < |es| :: es[i].id
  }

  lemma IdsAppend(a: seq<Event>, b: seq<Event>)
    ensures Ids(a + b) == Ids(a) + Ids(b)
  {
    forall id | id in Ids(a) + Ids(b)
      ensures id in Ids(a + b)
    {
      if id in Ids(a) {
        var i :| 0 <= i < |a| && a[i].id == id;
        assert (a + b)[i] == a[i];
      } else {
        var i :| 0 <= i < |b| && b[i].id == id;
        assert (a + b)[|a| + i] == b[i];
      }
    }
  }

  predicate UniqueIds(es: seq<Event>) {
    forall i, j :: 0 <= i < j < |es| ==> es[i].id != es[j].id
  }

  /** Number of stored events carrying `id`. */
  function CountId(es: seq<Event>, id: Id): (n: nat)
    ensures n <= |es|
    ensures n == 0 <==> id !in Ids(es)
  {
    if es == [] then 0
    else
      assert Ids(es) == {es[0].id} + Ids(es[1..]);
      (if es[0].id == id then 1 else 0) + CountId(es[1..], id)
  }

  /** What an accepted form submission guarantees of its details: a non-empty
      name and, for a timed event, two well-formed times. */
  predicate WellFormed(d: EventDetails) {
    && d.name != ""
    && (d.timing.Timed? ==> Time.IsTimeString(d.timing.startTime) && Time.IsTimeString(d.timing.endTime))
  }

  /** The store invariant: ids are unique and every event came out of the form. */
  predicate ValidStore(es: seq<Event>) {
    && UniqueIds(es)
    && forall i :: 0 <= i < |es| ==> WellFormed(es[i].details)
  }

  /** `addEvent`: the details with an id from the generator, appended at the end. */
  function AddEvent(es: seq<Event>, details: EventDetails, newId: Id): (r: seq<Event>)
    ensures |r| == |es| + 1
    ensures r[..|es|] == es
    ensures r[|es|].id == newId && r[|es|].details == details
    ensures Ids(r) == Ids(es) + {newId}
  {
    var r := es + [Event(newId, details)];
    assert forall i :: 0 <= i < |es| ==> r[i] == es[i];
    assert r[|es|].id == newId;
    r
  }

  /** `updateEvent`: every event whose id is `id` becomes `{id, ...details}`;
      every other event stays where it is, unchanged. */
  function UpdateEvent(es: seq<Event>, id: Id, details: EventDetails): (r: seq<Event>)
    ensures |r| == |es|
    ensures forall i :: 0 <= i < |es| ==> r[i].id == es[i].id
    ensures forall i :: 0 <= i < |es| && es[i].id == id ==> r[i].details == details
    ensures forall i :: 0 <= i < |es| && es[i].id != id ==> r[i] == es[i]
    ensures Ids(r) == Ids(es)
  {
    if es == [] then []
    else
      var rest := UpdateEvent(es[1..], id, details);
      var r := [if es[0].id == id then Event(id, details) else es[0]] + rest;
      IdsAppend([r[0]], rest);
      IdsAppend([es[0]], es[1..]);
      assert es == [es[0]] + es[1..];
      r
  }

  /** `deleteEvent`: the events whose id differs from `id`, in their old order. */
  function DeleteEvent(es: seq<Event>, id: Id): (r: seq<Event>)
    ensures |r| + CountId(es, id) == |es|
    ensures forall i :: 0 <= i < |r| ==> r[i].id != id && r[i] in es
    ensures forall i :: 0 <= i < |es| && es[i].id != id ==> es[i] in r
    ensures IsSubsequence(r, es)
    ensures Ids(r) == Ids(es) - {id}
  {
    if es == [] then []
    else
      var rest := DeleteEvent(es[1..], id);
      assert Ids(es) == {es[0].id} + Ids(es[1..]);
      if es[0].id == id then
        assert IsSubsequence(rest, es) by { SubsequenceOfTail(rest, es); }
        rest
      else
        var r := [es[0]] + rest;
        IdsAppend([es[0]], rest);
        r
  }

  /** An id no stored event has: a witness that the `crypto.randomUUID` oracle the
      store relies on can always be met (any id longer than every stored one). */
  function FreshId(es: seq<Event>): (id: Id)
    ensures id !in Ids(es)
  {
    var n := MaxIdLength(es);
    var id := seq(n + 1, _ => 'x');
    assert forall i :: 0 <= i < |es| ==> |es[i].id| < |id|;
    id
  }

  function MaxIdLength(es: seq<Event>): (n: nat)
    ensures forall i :: 0 <= i < |es| ==> |es[i].id| <= n
  {
    if es == [] then 0
    else
      var m := MaxIdLength(es[1..]);
      if |es[0].id| > m then |es[0].id| else m
  }

  lemma UniqueCons(x: Event, s: seq<Event>)
    ensures UniqueIds([x] + s) <==> x.id !in Ids(s) && UniqueIds(s)
  {
    var t := [x] + s;
    assert t[1..] == s;
    if UniqueIds(t) {
      forall i | 0 <= i < |s|
        ensures s[i].id != x.id
      {
        assert t[0] == x && t[i + 1] == s[i];
      }
      forall i, j | 0 <= i < j < |s|
        ensures s[i].id != s[j].id
      {
        assert t[i + 1] == s[i] && t[j + 1] == s[j];
      }
    }
  }

  /** With unique ids, at most one event carries a given id. */
  lemma {:induction false} CountUnique(es: seq<Event>, id: Id)
    requires UniqueIds(es)
    ensures CountId(es, id) <= 1
  {
    if es != [] {
      assert es == [es[0]] + es[1..];
      UniqueCons(es[0], es[1..]);
      CountUnique(es[1..], id);
      if es[0].id == id {
        assert CountId(es[1..], id) == 0;
      }
    }
  }

  /** `addEvent` with a fresh id keeps the store valid. */
  lemma AddPreservesValid(es: seq<Event>, details: EventDetails, newId: Id)
    requires ValidStore(es) && WellFormed(details) && newId !in Ids(es)
    ensures ValidStore(AddEvent(es, details, newId))
  {
    var r := AddEvent(es, details, newId);
    forall i, j | 0 <= i < j < |r|
      ensures r[i].id != r[j].id
    {
      if j == |es| {
        assert r[i] == es[i];
      } else {
        assert r[i] == es[i] && r[j] == es[j];
      }
    }
    forall i | 0 <= i < |r|
      ensures WellFormed(r[i].details)
    {
      if i < |es| {
        assert r[i] == es[i];
      }
    }
  }

  /** `updateEvent` with well-formed details keeps the store valid. */
  lemma UpdatePreservesValid(es: seq<Event>, id: Id, details: EventDetails)
    requires ValidStore(es) && WellFormed(details)
    ensures ValidStore(UpdateEvent(es, id, details))
  {
  }

  /** `deleteEvent` keeps the store valid: ids stay unique. */
  lemma {:induction false} DeletePreservesValid(es: seq<Event>, id: Id)
    requires ValidStore(es)
    ensures ValidStore(DeleteEvent(es, id))
  {
    if es != [] {
      assert es == [es[0]] + es[1..];
      UniqueCons(es[0], es[1..]);
      DeletePreservesValid(es[1..], id);
      var rest := DeleteEvent(es[1..], id);
      if es[0].id != id {
        assert DeleteEvent(es, id) == [es[0]] + rest;
        UniqueCons(es[0], rest);
      }
    }
  }

  /** Updating an id that is not stored changes nothing. */
  lemma UpdateAbsent(es: seq<Event>, id: Id, details: EventDetails)
    requires id !in Ids(es)
    ensures UpdateEvent(es, id, details) == es
  {
    var r := UpdateEvent(es, id, details);
    forall i | 0 <= i < |es|
      ensures r[i] == es[i]
    {
      assert es[i].id in Ids(es);
    }
  }

  /** Applying the same update twice is the same as applying it once. */
  lemma UpdateIdempotent(es: seq<Event>, id: Id, details: EventDetails)
    ensures UpdateEvent(UpdateEvent(es, id, details), id, details) == UpdateEvent(es, id, details)
  {
  }

  /** After an update, the events carrying `id` are exactly the updated record. */
  lemma UpdateStores(es: seq<Event>, id: Id, details: EventDetails)
    ensures forall i :: 0 <= i < |es| && UpdateEvent(es, id, details)[i].id == id ==>
      UpdateEvent(es, id, details)[i] == Event(id, details)
  {
  }

  /** Deleting an id that is not stored changes nothing. */
  lemma {:induction false} DeleteAbsent(es: seq<Event>, id: Id)
    requires id !in Ids(es)
    ensures DeleteEvent(es, id) == es
  {
    if es != [] {
      assert es[0].id in Ids(es);
      assert Ids(es[1..]) <= Ids(es) by { IdsAppend([es[0]], es[1..]); assert es == [es[0]] + es[1..]; }
      DeleteAbsent(es[1..], id);
      assert es == [es[0]] + es[1..];
    }
  }

  /** Deleting twice is the same as deleting once. */
  lemma DeleteIdempotent(es: seq<Event>, id: Id)
    ensures DeleteEvent(DeleteEvent(es, id), id) == DeleteEvent(es, id)
  {
    DeleteAbsent(DeleteEvent(es, id), id);
  }

  /** Deleting from a concatenation deletes from each part. */
  lemma {:induction false} DeleteAppend(a: seq<Event>, b: seq<Event>, id: Id)
    ensures DeleteEvent(a + b, id) == DeleteEvent(a, id) + DeleteEvent(b, id)
  {
    if a == [] {
      assert a + b == b;
    } else {
      assert (a + b)[0] == a[0];
      assert (a + b)[1..] == a[1..] + b;
      DeleteAppend(a[1..], b, id);
    }
  }

  /** Adding an event and then deleting its (fresh) id restores the store. */
  lemma AddThenDelete(es: seq<Event>, details: EventDetails, newId: Id)
    requires newId !in Ids(es)
    ensures DeleteEvent(AddEvent(es, details, newId), newId) == es
  {
    DeleteAppend(es, [Event(newId, details)], newId);
    DeleteAbsent(es, newId);
    assert DeleteEvent([Event(newId, details)], newId) == [];
  }

  /** In a valid store, deleting a stored id removes exactly one event. */
  lemma DeleteStoredShrinksByOne(es: seq<Event>, id: Id)
    requires UniqueIds(es) && id in Ids(es)
    ensures |DeleteEvent(es, id)| == |es| - 1
  {
    CountUnique(es, id);
  }
}
