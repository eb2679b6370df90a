/** The event records and the list transformations the calendar's handlers
    apply to them (`filter`, `map` and spread in App.jsx). */
module Events {
  import opened Wrappers

  /** One calendar event as stored in the event list. Every field is a string.
      The description is optional because the form's effect is the one place
      that reads it with a fallback (`event.description || ''`) while it reads
      the other fields bare; the page itself always writes it. */
  datatype Event = Event(
    id: string,
    date: string,
    name: string,
    startTime: string,
    endTime: string,
    description: Option<string>,
    color: string)

  // ---------------------------------------------------------------------------
  // Array.prototype.filter

  function Filter<T(!new)>(s: seq<T>, p: T -> bool): (r: seq<T>)
    ensures |r| <= |s|
    ensures forall x :: x in r <==> x in s && p(x)
  {
    if s == [] then [] else (if p(s[0]) then [s[0]] else []) + Filter(s[1..], p)
  }

  /** Filtering a concatenation filters each part and keeps their order. */
  lemma {:induction false} FilterAppend<T(!new)>(a: seq<T>, b: seq<T>, p: T -> bool)
    ensures Filter(a + b, p) == Filter(a, p) + Filter(b, p)
  {
    if a == [] {
      assert a + b == b;
    } else {
      assert (a + b)[1..] == a[1..] + b;
      FilterAppend(a[1..], b, p);
    }
  }

  /** Each element is kept as often as it occurs, or dropped entirely. */
  lemma {:induction false} FilterMultiplicity<T(!new)>(s: seq<T>, p: T -> bool, x: T)
    ensures multiset(Filter(s, p))[x] == if p(x) then multiset(s)[x] else 0
  {
    if s != [] {
      assert s == [s[0]] + s[1..];
      FilterMultiplicity(s[1..], p, x);
    }
  }

  /** The filter returns its input unchanged exactly when every element passes. */
  lemma {:induction false} FilterUnchanged<T(!new)>(s: seq<T>, p: T -> bool)
    ensures Filter(s, p) == s <==> forall x :: x in s ==> p(x)
  {
    if s != [] {
      FilterUnchanged(s[1..], p);
      if forall x :: x in s ==> p(x) {
        assert forall x :: x in s[1..] ==> x in s;
      } else {
        assert exists x :: x in s && !p(x);
      }
    }
  }

  /** Two predicates that agree on every element select the same elements. */
  lemma {:induction false} FilterAgrees<T(!new)>(s: seq<T>, p: T -> bool, q: T -> bool)
    requires forall x :: x in s ==> p(x) == q(x)
    ensures Filter(s, p) == Filter(s, q)
  {
    if s != [] {
      assert s[0] in s;
      assert forall x :: x in s[1..] ==> x in s;
      FilterAgrees(s[1..], p, q);
    }
  }

  /** Nothing passes the filter when no element satisfies the predicate. */
  lemma {:induction false} FilterNone<T(!new)>(s: seq<T>, p: T -> bool)
    requires forall x :: x in s ==> !p(x)
    ensures Filter(s, p) == []
  {
    if s != [] {
      assert s[0] in s;
      FilterNone(s[1..], p);
    }
  }

  // ---------------------------------------------------------------------------
  // The handlers' list transformations

  function HasOtherId(id: string): Event -> bool {
    (e: Event) => e.id != id
  }

  /** handleDeleteEvent: `events.filter(event => event.id !== eventId)`. */
  function DeleteEvent(events: seq<Event>, id: string): (r: seq<Event>)
    ensures forall e :: e in r <==> e in events && e.id != id
    ensures forall e :: multiset(r)[e] == if e.id != id then multiset(events)[e] else 0
    ensures r == events <==> forall e :: e in events ==> e.id != id
  {
    forall e {
      FilterMultiplicity(events, HasOtherId(id), e);
    }
    FilterUnchanged(events, HasOtherId(id));
    Filter(events, HasOtherId(id))
  }

  /** Deleting from a concatenation deletes from each part, so the events that stay keep their order. */
  lemma DeleteKeepsOrder(a: seq<Event>, b: seq<Event>, id: string)
    ensures DeleteEvent(a + b, id) == DeleteEvent(a, id) + DeleteEvent(b, id)
  {
    FilterAppend(a, b, HasOtherId(id));
  }

  /** handleSaveEvent while editing: `events.map(e => e.id === editingId ? event : e)`. */
  function ReplaceEvent(events: seq<Event>, id: string, event: Event): (r: seq<Event>)
    ensures |r| == |events|
    ensures forall i :: 0 <= i < |events| && events[i].id != id ==> r[i] == events[i]
    ensures forall i :: 0 <= i < |events| && events[i].id == id ==> r[i] == event
  {
    if events == [] then []
    else [if events[0].id == id then event else events[0]] + ReplaceEvent(events[1..], id, event)
  }

  /** handleMoveEvent: `events.map(e => e.id === eventId ? { ...e, date: newDate } : e)`. */
  function MoveEvent(events: seq<Event>, id: string, newDate: string): (r: seq<Event>)
    ensures |r| == |events|
    ensures forall i :: 0 <= i < |events| ==> r[i].(date := events[i].date) == events[i]
    ensures forall i :: 0 <= i < |events| ==> r[i].date == if events[i].id == id then newDate else events[i].date
  {
    if events == [] then []
    else [if events[0].id == id then events[0].(date := newDate) else events[0]] + MoveEvent(events[1..], id, newDate)
  }

  /** Replacing or moving with an id that no event carries leaves the list as it was. */
  lemma UnknownIdIsNoOp(events: seq<Event>, id: string, event: Event, newDate: string)
    requires forall e :: e in events ==> e.id != id
    ensures ReplaceEvent(events, id, event) == events
    ensures MoveEvent(events, id, newDate) == events
    ensures DeleteEvent(events, id) == events
  {
    assert forall i :: 0 <= i < |events| ==> events[i] in events;
  }

  /** A move touches only the events carrying the id: removing those events from
      the list before or after the move gives the same result. */
  lemma {:induction false} MoveTouchesOnlyId(events: seq<Event>, id: string, newDate: string)
    ensures DeleteEvent(MoveEvent(events, id, newDate), id) == DeleteEvent(events, id)
  {
    if events != [] {
      var moved := MoveEvent(events, id, newDate);
      assert moved == [moved[0]] + MoveEvent(events[1..], id, newDate);
      assert events == [events[0]] + events[1..];
      DeleteKeepsOrder([moved[0]], MoveEvent(events[1..], id, newDate), id);
      DeleteKeepsOrder([events[0]], events[1..], id);
      MoveTouchesOnlyId(events[1..], id, newDate);
    }
  }

  /** Likewise a replacement by a record with the same id touches nothing else. */
  lemma {:induction false} ReplaceTouchesOnlyId(events: seq<Event>, id: string, event: Event)
    requires event.id == id
    ensures DeleteEvent(ReplaceEvent(events, id, event), id) == DeleteEvent(events, id)
  {
    if events != [] {
      var replaced := ReplaceEvent(events, id, event);
      assert replaced == [replaced[0]] + ReplaceEvent(events[1..], id, event);
      assert events == [events[0]] + events[1..];
      DeleteKeepsOrder([replaced[0]], ReplaceEvent(events[1..], id, event), id);
      DeleteKeepsOrder([events[0]], events[1..], id);
      ReplaceTouchesOnlyId(events[1..], id, event);
    }
  }

  /** Moving twice to the same date is the same as moving once. */
  lemma MoveIdempotent(events: seq<Event>, id: string, newDate: string)
    ensures MoveEvent(MoveEvent(events, id, newDate), id, newDate) == MoveEvent(events, id, newDate)
  {
  }
}
