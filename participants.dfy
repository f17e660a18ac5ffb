/**
 * Participants and their events.
 *
 * A participant is identified by an event's `title`.  The engine's
 * `new Set(events.map((e) => e.title))` and its `participantEvents` map both
 * iterate in insertion order, that is, in order of each name's first event.
 */
module Participants {
  import opened CalendarStore

  /** `events.map((e) => e.title)`. */
  function Titles(events: seq<CalendarEvent>): (r: seq<string>)
    ensures |r| == |events|
    ensures forall i :: 0 <= i < |events| ==> r[i] == events[i].title
  {
    seq(|events|, i requires 0 <= i < |events| => events[i].title)
  }

  ghost predicate Distinct<T>(xs: seq<T>)
  {
    forall i, j :: 0 <= i < j < |xs| ==> xs[i] != xs[j]
  }

  /** The position of the first occurrence of `x`. */
  function FirstIndex<T(==)>(xs: seq<T>, x: T): (i: nat)
    requires x in xs
    ensures i < |xs| && xs[i] == x && x !in xs[..i]
  {
    if xs[0] == x then 0 else 1 + FirstIndex(xs[1..], x)
  }

  lemma {:induction false} FirstIndexPrefix<T>(xs: seq<T>, y: T, x: T)
    requires x in xs
    ensures FirstIndex(xs + [y], x) == FirstIndex(xs, x)
  {
    if xs[0] != x {
      assert (xs + [y])[1..] == xs[1..] + [y];
      FirstIndexPrefix(xs[1..], y, x);
    }
  }

  lemma FirstIndexAppended<T>(xs: seq<T>, x: T)
    requires x !in xs
    ensures FirstIndex(xs + [x], x) == |xs|
  {
    assert (xs + [x])[|xs|] == x;
  }

  /**
   * The distinct elements of `xs` in order of first occurrence: what
   * iterating a JavaScript `Set` (or the keys of a `Map`) built by adding
   * `xs` in order yields.
   */
  function FirstSeen<T(==,!new)>(xs: seq<T>): (r: seq<T>)
    ensures forall x :: x in r <==> x in xs
    ensures Distinct(r)
    decreases |xs|
  {
    if xs == [] then []
    else
      var init, last := xs[..|xs| - 1], xs[|xs| - 1];
      var r := FirstSeen(init);
      if last in r then r else r + [last]
  }

  /** `FirstSeen` lists the elements in the order of their first occurrences. */
  lemma {:induction false} FirstSeenOrder<T(!new)>(xs: seq<T>)
    ensures forall i, j :: 0 <= i < j < |FirstSeen(xs)| ==>
      FirstIndex(xs, FirstSeen(xs)[i]) < FirstIndex(xs, FirstSeen(xs)[j])
    decreases |xs|
  {
    if xs != [] {
      var init, last := xs[..|xs| - 1], xs[|xs| - 1];
      assert xs == init + [last];
      FirstSeenOrder(init);
      var r0 := FirstSeen(init);
      var r := if last in r0 then r0 else r0 + [last];
      assert FirstSeen(xs) == r;
      forall i, j | 0 <= i < j < |r|
        ensures FirstIndex(xs, r[i]) < FirstIndex(xs, r[j])
      {
        assert r[i] == r0[i] && r0[i] in init;
        FirstIndexPrefix(init, last, r0[i]);
        if j < |r0| {
          assert r[j] == r0[j] && r0[j] in init;
          FirstIndexPrefix(init, last, r0[j]);
          assert FirstIndex(init, r0[i]) < FirstIndex(init, r0[j]);
        } else {
          assert r[j] == last && last !in init;
          FirstIndexAppended(init, last);
          assert FirstIndex(init, r0[i]) < |init|;
        }
      }
    }
  }

  lemma {:induction false} DistinctCardinality<T>(xs: seq<T>)
    requires Distinct(xs)
    ensures |set x | x in xs| == |xs|
  {
    if xs != [] {
      var init := xs[..|xs| - 1];
      DistinctCardinality(init);
      assert (set x | x in xs) == (set x | x in init) + {xs[|xs| - 1]};
    }
  }

  /** `participants.size`: the number of distinct titles. */
  lemma ParticipantCount(events: seq<CalendarEvent>)
    ensures |FirstSeen(Titles(events))| == |set e | e in events :: e.title|
  {
    var r := FirstSeen(Titles(events));
    DistinctCardinality(r);
    assert (set x | x in r) == (set e | e in events :: e.title) by {
      forall x ensures x in r <==> x in (set e | e in events :: e.title) {
        if x in Titles(events) {
          var i :| 0 <= i < |events| && Titles(events)[i] == x;
          assert events[i] in events;
        }
      }
    }
  }

  /** `participantEvents.get(name)`: the events titled `name`, in event order. */
  function EventsOf(events: seq<CalendarEvent>, name: string): (r: seq<CalendarEvent>)
    ensures forall e :: e in r <==> e in events && e.title == name
  {
    if events == [] then []
    else
      EventsOf(events[..|events| - 1], name)
      + (if events[|events| - 1].title == name then [events[|events| - 1]] else [])
  }

  /**
   * A participant's events keep their multiplicity: each event titled
   * `name` occurs as often as among all events, and no other event occurs.
   */
  lemma {:induction false} EventsOfCount(events: seq<CalendarEvent>, name: string)
    ensures forall e :: multiset(EventsOf(events, name))[e] == if e.title == name then multiset(events)[e] else 0
  {
    if events != [] {
      var init, last := events[..|events| - 1], events[|events| - 1];
      EventsOfCount(init, name);
      assert events == init + [last];
    }
  }

  lemma TitlesStep(events: seq<CalendarEvent>, e: CalendarEvent)
    ensures Titles(events + [e]) == Titles(events) + [e.title]
  {
  }

  lemma FirstSeenStep<T(!new)>(xs: seq<T>, x: T)
    ensures FirstSeen(xs + [x]) == if x in FirstSeen(xs) then FirstSeen(xs) else FirstSeen(xs) + [x]
  {
    assert (xs + [x])[..|xs|] == xs;
  }

  lemma EventsOfStep(events: seq<CalendarEvent>, e: CalendarEvent, name: string)
    ensures EventsOf(events + [e], name) == EventsOf(events, name) + (if e.title == name then [e] else [])
  {
    assert (events + [e])[..|events|] == events;
  }

  lemma EventsOfNone(events: seq<CalendarEvent>, name: string)
    requires name !in Titles(events)
    ensures EventsOf(events, name) == []
  {
  }

  /**
   * The grouping loop: `participantEvents` is a map from each name to its
   * events, whose iteration order (`names`) is the order of first events.
   */
  method GroupEventsByTitle(events: seq<CalendarEvent>)
    returns (names: seq<string>, groups: map<string, seq<CalendarEvent>>)
    ensures names == FirstSeen(Titles(events))
    ensures forall n :: n in groups <==> n in names
    ensures forall n :: n in groups ==> groups[n] == EventsOf(events, n)
  {
    names := [];
    groups := map[];
    for i := 0 to |events|
      invariant names == FirstSeen(Titles(events[..i]))
      invariant forall n :: n in groups <==> n in names
      invariant forall n :: n in groups ==> groups[n] == EventsOf(events[..i], n)
    {
      var e := events[i];
      ghost var before := groups;
      assert events[..i + 1] == events[..i] + [e];
      TitlesStep(events[..i], e);
      FirstSeenStep(Titles(events[..i]), e.title);
      if e.title !in groups {
        EventsOfNone(events[..i], e.title);
        groups := groups[e.title := []];
        names := names + [e.title];
      }
      groups := groups[e.title := groups[e.title] + [e]];
      forall n | n in groups
        ensures groups[n] == EventsOf(events[..i + 1], n)
      {
        EventsOfStep(events[..i], e, n);
        if n != e.title {
          assert groups[n] == before[n];
        }
      }
    }
    assert events[..|events|] == events;
  }
}
