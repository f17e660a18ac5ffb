/**
 * Coverage: the global span from the earliest event start to the latest
 * event end, the number of 15-minute slots it holds (`totalCalendarSlots`),
 * and the share of those that anyone covers (`coveragePercentage`).
 *
 * The engine counts `totalCalendarSlots` from the unaligned earliest start
 * but discretises events from their aligned starts, so an event that
 * starts inside a slot can cover one slot more than the span holds and the
 * percentage can exceed 100.
 */
module Coverage {
  import opened Wrappers
  import opened Time
  import opened Numeric
  import opened Slots
  import opened CalendarStore
  import opened SlotIndex
  import opened SlotStats

  /** The earliest event start: a start of some event, and no later than any. */
  function EarliestStart(events: seq<CalendarEvent>): (r: int)
    requires events != []
    ensures exists i :: 0 <= i < |events| && events[i].start == r
    ensures forall i :: 0 <= i < |events| ==> r <= events[i].start
  {
    if |events| == 1 then events[0].start
    else
      var r := EarliestStart(events[..|events| - 1]);
      var s := events[|events| - 1].start;
      if s < r then s else r
  }

  /** The latest event end: an end of some event, and no earlier than any. */
  function LatestEnd(events: seq<CalendarEvent>): (r: int)
    requires events != []
    ensures exists i :: 0 <= i < |events| && events[i].end == r
    ensures forall i :: 0 <= i < |events| ==> events[i].end <= r
  {
    if |events| == 1 then events[0].end
    else
      var r := LatestEnd(events[..|events| - 1]);
      var e := events[|events| - 1].end;
      if e > r then e else r
  }

  /** The loop computing `overallEarliestDate` and `overallLatestDate`, both null for no events. */
  method EventSpan(events: seq<CalendarEvent>) returns (earliest: Option<int>, latest: Option<int>)
    ensures earliest == if events == [] then None else Some(EarliestStart(events))
    ensures latest == if events == [] then None else Some(LatestEnd(events))
  {
    earliest, latest := None, None;
    for i := 0 to |events|
      invariant earliest == if i == 0 then None else Some(EarliestStart(events[..i]))
      invariant latest == if i == 0 then None else Some(LatestEnd(events[..i]))
    {
      var start, end := events[i].start, events[i].end;
      assert events[..i + 1][..i] == events[..i];
      if earliest.None? || start < earliest.value {
        earliest := Some(start);
      }
      if latest.None? || end > latest.value {
        latest := Some(end);
      }
    }
    assert events[..|events|] == events;
  }

  /** `totalCalendarSlots`: `Math.ceil` of the span in slots, 0 without a span. */
  function TotalCalendarSlots(earliest: Option<int>, latest: Option<int>): int
  {
    if earliest.Some? && latest.Some? then CeilDiv(latest.value - earliest.value, SLOT_MS) else 0
  }

  /** `coveragePercentage`: covered slots over calendar slots, 0 when there are no calendar slots. */
  function CoveragePercentage(totalSlotsWithCoverage: nat, totalCalendarSlots: int): real
  {
    Percent(totalSlotsWithCoverage, totalCalendarSlots)
  }

  /** The calendar slots of the events' global span. */
  function SpanSlots(events: seq<CalendarEvent>): int
  {
    if events == [] then 0
    else TotalCalendarSlots(Some(EarliestStart(events)), Some(LatestEnd(events)))
  }

  /** Aligning to slot boundaries keeps the order of instants. */
  lemma SlotStartMonotone(a: int, b: int)
    requires a <= b
    ensures SlotStart(a) <= SlotStart(b)
  {
    var qa, qb := SlotStart(a) / SLOT_MS, SlotStart(b) / SLOT_MS;
    assert SlotStart(a) == qa * SLOT_MS && SlotStart(b) == qb * SLOT_MS;
    assert (qa - qb) * SLOT_MS < SLOT_MS;
    MulAtLeast(qa - qb, SLOT_MS);
  }

  lemma {:induction false} SeqSetCardinality<T>(xs: seq<T>)
    ensures |set x | x in xs| <= |xs|
  {
    if xs != [] {
      var init := xs[..|xs| - 1];
      SeqSetCardinality(init);
      assert (set x | x in xs) == (set x | x in init) + {xs[|xs| - 1]};
    }
  }

  /** Discretising from a slot boundary `cur` gives fewer than `(end - cur) / 15 min + 1` slots. */
  lemma {:induction false} SlotsFromLength(cur: int, end: int)
    ensures |SlotsFrom(cur, end)| * SLOT_MS < (if end > cur then end - cur else 0) + SLOT_MS
    decreases end - cur
  {
    if cur < end {
      SlotsFromLength(cur + SLOT_MS, end);
    }
  }

  /**
   * Every covered slot is a slot of the global span, discretised from the
   * earliest start to the latest end.
   */
  lemma CoveredWithinSpan(events: seq<CalendarEvent>)
    requires events != []
    ensures IndexOf(events).Keys <= set k | k in SlotKeys(EarliestStart(events), LatestEnd(events))
  {
    var earliest, latest := EarliestStart(events), LatestEnd(events);
    forall k | k in IndexOf(events)
      ensures k in SlotKeys(earliest, latest)
    {
      IndexMembership(events, k, "");
      var i :| 0 <= i < |events| && k % SLOT_MS == 0 && SlotStart(events[i].start) <= k < events[i].end;
      SlotStartMonotone(earliest, events[i].start);
      SlotKeysMembership(earliest, latest, k);
    }
  }

  /**
   * The covered slots never outnumber the calendar slots by more than one,
   * and never at all when the earliest start is a slot boundary; then the
   * coverage is a percentage between 0 and 100.
   */
  lemma CoveredAtMostOneMore(events: seq<CalendarEvent>)
    requires events != []
    ensures |IndexOf(events)| > 0 ==> |IndexOf(events)| <= SpanSlots(events) + 1
    ensures EarliestStart(events) % SLOT_MS == 0 ==>
      && (|IndexOf(events)| > 0 ==> |IndexOf(events)| <= SpanSlots(events))
      && 0.0 <= CoveragePercentage(|IndexOf(events)|, SpanSlots(events)) <= 100.0
  {
    var earliest, latest := EarliestStart(events), LatestEnd(events);
    var r := SlotKeys(earliest, latest);
    CoveredWithinSpan(events);
    SubsetCardinality(IndexOf(events).Keys, set k | k in r);
    SeqSetCardinality(r);
    SlotsFromLength(SlotStart(earliest), latest);
    var t := SpanSlots(events);
    assert SLOT_MS * (t - 1) < latest - earliest <= SLOT_MS * t;
    if earliest % SLOT_MS == 0 {
      assert SlotStart(earliest) == earliest by {
        AlignedUnique(SlotStart(earliest), earliest);
      }
      var n := |IndexOf(events)|;
      if n > 0 {
        assert n * SLOT_MS < latest - earliest + SLOT_MS;
        PercentBounds(n, t);
      }
    }
  }

  /**
   * The engine as written can report more than 100 percent: one event from
   * 09:10 to 09:20 covers the 09:00 and 09:15 slots, while its ten-minute
   * span rounds up to one calendar slot, so the coverage is 200 percent.
   */
  lemma CoverageCanExceedHundred()
    ensures var events := [CalendarEvent("e", "Ann", 33_000_000, 33_600_000, "")];
      && |IndexOf(events)| == 2
      && SpanSlots(events) == 1
      && CoveragePercentage(|IndexOf(events)|, SpanSlots(events)) == 200.0
  {
    var events := [CalendarEvent("e", "Ann", 33_000_000, 33_600_000, "")];
    assert SlotStart(33_000_000) == 32_400_000;
    forall k
      ensures k in IndexOf(events) <==> k == 32_400_000 || k == 33_300_000
    {
      IndexMembership(events, k, "");
      assert SlotStart(events[0].start) == 32_400_000 && events[0].end == 33_600_000;
      assert k in IndexOf(events) <==> k % SLOT_MS == 0 && 32_400_000 <= k < 33_600_000;
      if k % SLOT_MS == 0 && 32_400_000 <= k < 33_600_000 {
        var q := k / SLOT_MS;
        assert k == q * SLOT_MS;
        assert q == 36 || q == 37;
      }
    }
    assert IndexOf(events).Keys == {32_400_000, 33_300_000};
  }

  /** `averageParticipantsPerSlot`: the summed set sizes over the covered slots, 0 with none. */
  function AverageParticipants(idx: Index, keys: seq<int>): real
    requires |keys| == |idx|
  {
    Ratio(SumSizes(idx, keys, |keys|), |idx|)
  }

  /**
   * Every covered slot has at least one participant, so the average lies
   * between 1 and the largest participant count.
   */
  lemma AverageBounds(events: seq<CalendarEvent>, keys: seq<int>, maxCount: nat)
    requires IsKeyOrder(IndexOf(events), keys)
    requires forall k :: k in IndexOf(events) ==> |IndexOf(events)[k]| <= maxCount
    ensures |IndexOf(events)| == 0 ==> AverageParticipants(IndexOf(events), keys) == 0.0
    ensures |IndexOf(events)| > 0 ==> 1.0 <= AverageParticipants(IndexOf(events), keys) <= maxCount as real
  {
    var idx := IndexOf(events);
    forall i | 0 <= i < |keys|
      ensures 1 <= SizeAt(idx, keys[i]) <= maxCount
    {
      IndexValues(events, keys[i]);
    }
    SumSizesBounds(idx, keys, |keys|, 1, maxCount);
    if |idx| > 0 {
      RatioBounds(SumSizes(idx, keys, |keys|), |idx|, 1, maxCount);
    }
  }
}
