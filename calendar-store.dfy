/**
 * The client-side calendar store: the open calendar's id and name, its
 * events, and whether drawing a selection creates events.  Each setter
 * replaces one field; `addEvent`, `removeEvent` and `removeEvents` compute
 * the new event list from the old one with a spread or a filter.
 */
module CalendarStore {
  import opened Wrappers

  /** One participant's availability interval; `title` is the participant's name. */
  datatype CalendarEvent = CalendarEvent(id: string, title: string, start: int, end: int, color: string)

  /** The store's data fields, as one value. */
  datatype StoreState = StoreState(
    calendarId: Option<string>,
    calendarName: string,
    events: seq<CalendarEvent>,
    isDrawMode: bool)

  /** `state.events.filter((e) => e.id !== eventId)`. */
  function WithoutId(events: seq<CalendarEvent>, id: string): seq<CalendarEvent>
  {
    if events == [] then []
    else (if events[0].id != id then [events[0]] else []) + WithoutId(events[1..], id)
  }

  /** Exactly the events the filter keeps remain, each as often as before. */
  lemma {:induction false} WithoutIdContents(events: seq<CalendarEvent>, id: string)
    ensures forall e :: e in WithoutId(events, id) <==> e in events && e.id != id
    ensures forall e :: multiset(WithoutId(events, id))[e] == if e.id == id then 0 else multiset(events)[e]
  {
    if events != [] {
      WithoutIdContents(events[1..], id);
      assert events == [events[0]] + events[1..];
    }
  }

  /** `state.events.filter((e) => !eventIds.includes(e.id))`. */
  function WithoutIds(events: seq<CalendarEvent>, ids: seq<string>): seq<CalendarEvent>
  {
    if events == [] then []
    else (if events[0].id !in ids then [events[0]] else []) + WithoutIds(events[1..], ids)
  }

  /** Exactly the events the filter keeps remain, each as often as before. */
  lemma {:induction false} WithoutIdsContents(events: seq<CalendarEvent>, ids: seq<string>)
    ensures forall e :: e in WithoutIds(events, ids) <==> e in events && e.id !in ids
    ensures forall e :: multiset(WithoutIds(events, ids))[e] == if e.id in ids then 0 else multiset(events)[e]
  {
    if events != [] {
      WithoutIdsContents(events[1..], ids);
      assert events == [events[0]] + events[1..];
    }
  }

  /** Filtering keeps the original order: it distributes over concatenation. */
  lemma {:induction false} WithoutIdsAppend(xs: seq<CalendarEvent>, ys: seq<CalendarEvent>, ids: seq<string>)
    ensures WithoutIds(xs + ys, ids) == WithoutIds(xs, ids) + WithoutIds(ys, ids)
  {
    if xs == [] {
      assert xs + ys == ys;
    } else {
      var head := if xs[0].id !in ids then [xs[0]] else [];
      assert (xs + ys)[0] == xs[0];
      assert (xs + ys)[1..] == xs[1..] + ys;
      assert WithoutIds(xs + ys, ids) == head + WithoutIds(xs[1..] + ys, ids);
      assert WithoutIds(xs, ids) == head + WithoutIds(xs[1..], ids);
      WithoutIdsAppend(xs[1..], ys, ids);
      assert head + (WithoutIds(xs[1..], ids) + WithoutIds(ys, ids))
          == (head + WithoutIds(xs[1..], ids)) + WithoutIds(ys, ids);
    }
  }

  /** Removing an empty list of ids leaves the events unchanged. */
  lemma {:induction false} WithoutNoIds(events: seq<CalendarEvent>)
    ensures WithoutIds(events, []) == events
  {
    if events != [] {
      WithoutNoIds(events[1..]);
      assert [events[0]] + events[1..] == events;
    }
  }

  /** `removeEvents([id])` and `removeEvent(id)` compute the same list. */
  lemma {:induction false} WithoutOneId(events: seq<CalendarEvent>, id: string)
    ensures WithoutIds(events, [id]) == WithoutId(events, id)
  {
    if events != [] {
      WithoutOneId(events[1..], id);
    }
  }

  /** Removing the same ids twice removes nothing more. */
  lemma {:induction false} WithoutIdsIdempotent(events: seq<CalendarEvent>, ids: seq<string>)
    ensures WithoutIds(WithoutIds(events, ids), ids) == WithoutIds(events, ids)
  {
    if events != [] {
      var head := if events[0].id !in ids then [events[0]] else [];
      WithoutIdsIdempotent(events[1..], ids);
      WithoutIdsAppend(head, WithoutIds(events[1..], ids), ids);
      assert WithoutIds(head, ids) == head;
    }
  }

  /** An event added and then removed by its id leaves the other events as they were. */
  lemma {:induction false} AddThenRemove(events: seq<CalendarEvent>, e: CalendarEvent)
    ensures WithoutId(events + [e], e.id) == WithoutId(events, e.id)
  {
    if events == [] {
      assert WithoutId([e], e.id) == [];
    } else {
      assert (events + [e])[1..] == events[1..] + [e];
      AddThenRemove(events[1..], e);
    }
  }

  class Store {
    var calendarId: Option<string>
    var calendarName: string
    var events: seq<CalendarEvent>
    var isDrawMode: bool

    function State(): StoreState
      reads this
    {
      StoreState(calendarId, calendarName, events, isDrawMode)
    }

    /** The store's initial state: no calendar, empty name, no events, draw mode on. */
    constructor ()
      ensures State() == StoreState(None, "", [], true)
    {
      calendarId := None;
      calendarName := "";
      events := [];
      isDrawMode := true;
    }

    method SetCalendarId(id: string)
      modifies this
      ensures State() == old(State()).(calendarId := Some(id))
    {
      calendarId := Some(id);
    }

    method SetCalendarName(name: string)
      modifies this
      ensures State() == old(State()).(calendarName := name)
    {
      calendarName := name;
    }

    method SetEvents(newEvents: seq<CalendarEvent>)
      modifies this
      ensures State() == old(State()).(events := newEvents)
    {
      events := newEvents;
    }

    /** `addEvent`: the old list with `e` appended at the end. */
    method AddEvent(e: CalendarEvent)
      modifies this
      ensures State() == old(State()).(events := old(events) + [e])
    {
      events := events + [e];
    }

    /** `removeEvent`: every event with that id is dropped, the rest keep their order. */
    method RemoveEvent(eventId: string)
      modifies this
      ensures State() == old(State()).(events := WithoutId(old(events), eventId))
    {
      events := WithoutId(events, eventId);
    }

    /** `removeEvents`: exactly the events whose id is not listed remain, in order. */
    method RemoveEvents(eventIds: seq<string>)
      modifies this
      ensures State() == old(State()).(events := WithoutIds(old(events), eventIds))
    {
      events := WithoutIds(events, eventIds);
    }

    method SetDrawMode(drawMode: bool)
      modifies this
      ensures State() == old(State()).(isDrawMode := drawMode)
    {
      isDrawMode := drawMode;
    }
  }
}
