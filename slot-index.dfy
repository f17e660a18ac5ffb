/**
 * The slot index `slotAvailability`: for every slot some event covers, the
 * set of participants (event titles) covering it.  A participant with
 * several overlapping events still counts once per slot.
 */
module SlotIndex {
  import opened Time
  import opened Slots
  import opened CalendarStore
  import opened Participants

  /** Slot start -> names of the participants available in that slot. */
  type Index = map<int, set<string>>

  /** The slots `generateSlotKeys(new Date(e.start), new Date(e.end))` produces for an event. */
  function EventSlots(e: CalendarEvent): seq<int>
  {
    SlotKeys(e.start, e.end)
  }

  /** The slots at least one of `events` covers; for one participant's events, their `participantSlots`. */
  function CoveredSlots(events: seq<CalendarEvent>): set<int>
  {
    set i, k | 0 <= i < |events| && k in EventSlots(events[i]) :: k
  }

  /** The titles of the events covering slot `k`. */
  function TitlesAt(events: seq<CalendarEvent>, k: int): set<string>
  {
    set i | 0 <= i < |events| && k in EventSlots(events[i]) :: events[i].title
  }

  /** The index the engine builds from `events`, stated declaratively. */
  function IndexOf(events: seq<CalendarEvent>): Index
  {
    map k | k in CoveredSlots(events) :: TitlesAt(events, k)
  }

  /** `base` after adding participant `who` to each slot of `keys` in turn, creating missing slots. */
  function AddSlots(base: Index, keys: seq<int>, who: string): Index
  {
    if keys == [] then base
    else
      var prev, key := AddSlots(base, keys[..|keys| - 1], who), keys[|keys| - 1];
      prev[key := (if key in prev then prev[key] else {}) + {who}]
  }

  /** Adding a participant to slots only adds: each listed slot gains `who`, the others are unchanged. */
  lemma {:induction false} AddSlotsMeaning(base: Index, keys: seq<int>, who: string, k: int)
    ensures k in AddSlots(base, keys, who) <==> k in base || k in keys
    ensures k in AddSlots(base, keys, who) ==>
      AddSlots(base, keys, who)[k] == (if k in base then base[k] else {}) + (if k in keys then {who} else {})
  {
    if keys != [] {
      var init := keys[..|keys| - 1];
      AddSlotsMeaning(base, init, who, k);
      assert keys == init + [keys[|keys| - 1]];
    }
  }

  lemma CoveredSlotsAppend(events: seq<CalendarEvent>, e: CalendarEvent)
    ensures CoveredSlots(events + [e]) == CoveredSlots(events) + set k | k in EventSlots(e)
  {
    var evs := events + [e];
    forall k | k in CoveredSlots(evs)
      ensures k in CoveredSlots(events) || k in EventSlots(e)
    {
      var i :| 0 <= i < |evs| && k in EventSlots(evs[i]);
      if i < |events| {
        assert evs[i] == events[i];
      }
    }
    forall k | k in CoveredSlots(events)
      ensures k in CoveredSlots(evs)
    {
      var i :| 0 <= i < |events| && k in EventSlots(events[i]);
      assert evs[i] == events[i];
    }
    forall k | k in EventSlots(e)
      ensures k in CoveredSlots(evs)
    {
      assert evs[|events|] == e;
    }
  }

  lemma TitlesAtAppend(events: seq<CalendarEvent>, e: CalendarEvent, k: int)
    ensures TitlesAt(events + [e], k)
         == TitlesAt(events, k) + (if k in EventSlots(e) then {e.title} else {})
  {
    var evs := events + [e];
    forall p | p in TitlesAt(evs, k)
      ensures p in TitlesAt(events, k) || (k in EventSlots(e) && p == e.title)
    {
      var i :| 0 <= i < |evs| && k in EventSlots(evs[i]) && evs[i].title == p;
      if i < |events| {
        assert evs[i] == events[i];
      }
    }
    forall p | p in TitlesAt(events, k)
      ensures p in TitlesAt(evs, k)
    {
      var i :| 0 <= i < |events| && k in EventSlots(events[i]) && events[i].title == p;
      assert evs[i] == events[i];
    }
    if k in EventSlots(e) {
      assert evs[|events|] == e;
    }
  }

  lemma IndexOfAppend(events: seq<CalendarEvent>, e: CalendarEvent)
    ensures IndexOf(events + [e]) == AddSlots(IndexOf(events), EventSlots(e), e.title)
  {
    var lhs := IndexOf(events + [e]);
    var rhs := AddSlots(IndexOf(events), EventSlots(e), e.title);
    CoveredSlotsAppend(events, e);
    forall k
      ensures k in lhs <==> k in rhs
      ensures k in lhs ==> lhs[k] == rhs[k]
    {
      AddSlotsMeaning(IndexOf(events), EventSlots(e), e.title, k);
      TitlesAtAppend(events, e, k);
    }
  }

  /**
   * The inner loop of the index build: adds `who` to the set of each slot
   * in `slotKeys`, creating the set when the slot is first seen.
   */
  method AddToSlots(base: Index, slotKeys: seq<int>, who: string) returns (idx: Index)
    ensures idx == AddSlots(base, slotKeys, who)
  {
    idx := base;
    for j := 0 to |slotKeys|
      invariant idx == AddSlots(base, slotKeys[..j], who)
    {
      var key := slotKeys[j];
      assert slotKeys[..j + 1][..j] == slotKeys[..j];
      if key !in idx {
        idx := idx[key := {}];
      }
      idx := idx[key := idx[key] + {who}];
    }
    assert slotKeys[..|slotKeys|] == slotKeys;
  }

  /**
   * The index-building loop: every event is discretised and its title added
   * to each of its slots.
   */
  method BuildSlotIndex(events: seq<CalendarEvent>) returns (idx: Index)
    ensures idx == IndexOf(events)
  {
    idx := map[];
    for i := 0 to |events|
      invariant idx == IndexOf(events[..i])
    {
      var event := events[i];
      var slotKeys := GenerateSlotKeys(event.start, event.end);
      idx := AddToSlots(idx, slotKeys, event.title);
      assert events[..i + 1] == events[..i] + [event];
      IndexOfAppend(events[..i], event);
    }
    assert events[..|events|] == events;
  }

  /**
   * A slot is in the index iff some event's generated slots contain it,
   * that is, iff it is slot-aligned and lies in `[SlotStart(start), end)`
   * of some event; its value is exactly the set of titles of those events.
   */
  lemma IndexMembership(events: seq<CalendarEvent>, k: int, p: string)
    ensures k in IndexOf(events) <==>
      exists i :: 0 <= i < |events| && k % SLOT_MS == 0
        && SlotStart(events[i].start) <= k < events[i].end
    ensures k in IndexOf(events) ==>
      (p in IndexOf(events)[k] <==>
        exists i :: 0 <= i < |events| && events[i].title == p && k in EventSlots(events[i]))
  {
    forall i | 0 <= i < |events|
      ensures k in EventSlots(events[i]) <==>
        k % SLOT_MS == 0 && SlotStart(events[i].start) <= k < events[i].end
    {
      SlotKeysMembership(events[i].start, events[i].end, k);
    }
  }

  lemma SubsetCardinality<T>(a: set<T>, b: set<T>)
    requires a <= b
    ensures |a| <= |b|
  {
    assert b == a + (b - a);
  }

  /** Every slot set is non-empty and holds only names that are event titles. */
  lemma IndexValues(events: seq<CalendarEvent>, k: int)
    requires k in IndexOf(events)
    ensures IndexOf(events)[k] != {}
    ensures IndexOf(events)[k] <= set x | x in Titles(events)
    ensures |IndexOf(events)[k]| <= |FirstSeen(Titles(events))|
  {
    var i :| 0 <= i < |events| && k in EventSlots(events[i]);
    assert events[i].title in IndexOf(events)[k];
    var all := set x | x in Titles(events);
    assert IndexOf(events)[k] <= all by {
      forall p | p in IndexOf(events)[k]
        ensures p in all
      {
        var j :| 0 <= j < |events| && k in EventSlots(events[j]) && events[j].title == p;
        assert Titles(events)[j] == p;
      }
    }
    SubsetCardinality(IndexOf(events)[k], all);
    assert |all| == |FirstSeen(Titles(events))| by {
      DistinctCardinality(FirstSeen(Titles(events)));
      assert all == set x | x in FirstSeen(Titles(events));
    }
  }

  /** Every key of the index is a slot boundary. */
  lemma IndexKeysAligned(events: seq<CalendarEvent>, k: int)
    requires k in IndexOf(events)
    ensures k % SLOT_MS == 0
  {
    var i :| 0 <= i < |events| && k in EventSlots(events[i]);
    SlotKeysMembership(events[i].start, events[i].end, k);
  }

  /**
   * A participant's own slot set, built from their events alone, is exactly
   * the set of indexed slots whose participant set contains them.
   */
  lemma ParticipantSlotsFromIndex(events: seq<CalendarEvent>, p: string)
    ensures CoveredSlots(EventsOf(events, p))
         == set k | k in IndexOf(events) && p in IndexOf(events)[k]
  {
    var mine := EventsOf(events, p);
    var idx := IndexOf(events);
    forall k | k in CoveredSlots(mine)
      ensures k in idx && p in idx[k]
    {
      var i :| 0 <= i < |mine| && k in EventSlots(mine[i]);
      assert mine[i] in mine;
      var j :| 0 <= j < |events| && events[j] == mine[i];
      assert k in CoveredSlots(events);
      assert events[j].title in TitlesAt(events, k);
    }
    forall k | k in idx && p in idx[k]
      ensures k in CoveredSlots(mine)
    {
      var j :| 0 <= j < |events| && k in EventSlots(events[j]) && events[j].title == p;
      assert events[j] in mine;
      var i :| 0 <= i < |mine| && mine[i] == events[j];
    }
  }
}
