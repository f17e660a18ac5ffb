/**
 * Per-participant metrics: each participant's own slots, minutes and share
 * of the covered slots, ranked by minutes.
 */
module ParticipantMetrics {
  import opened Wrappers
  import opened Time
  import opened Numeric
  import opened Slots
  import opened CalendarStore
  import opened Participants
  import opened SlotIndex
  import opened Ranges
  import opened Ranking

  /** `ParticipantMetrics`. */
  datatype ParticipantMetric = ParticipantMetric(name: string, totalMinutes: nat, percentage: real, ranges: seq<DateRange>)

  /** `{ start, end }` of each event, in order. */
  function EventRanges(pEvents: seq<CalendarEvent>): seq<DateRange>
  {
    if pEvents == [] then []
    else
      var e := pEvents[|pEvents| - 1];
      EventRanges(pEvents[..|pEvents| - 1]) + [DateRange(e.start, e.end)]
  }

  /** The metric of participant `name`, out of `covered` slots with any participant. */
  function MetricOf(events: seq<CalendarEvent>, name: string, covered: nat): ParticipantMetric
  {
    var mine := EventsOf(events, name);
    var slots := CoveredSlots(mine);
    ParticipantMetric(name, |slots| * SLOT_MINUTES, Percent(|slots|, covered), EventRanges(mine))
  }

  /** Adds every key of `slotKeys` to `slots`. */
  method AddKeys(slots: set<int>, slotKeys: seq<int>) returns (r: set<int>)
    ensures r == slots + set k | k in slotKeys
  {
    r := slots;
    for j := 0 to |slotKeys|
      invariant r == slots + set k | k in slotKeys[..j]
    {
      assert slotKeys[..j + 1] == slotKeys[..j] + [slotKeys[j]];
      r := r + {slotKeys[j]};
    }
    assert slotKeys[..|slotKeys|] == slotKeys;
  }

  /**
   * The loop over one participant's events: it records each event's range
   * and adds the event's slots to the participant's slot set.
   */
  method ParticipantSlots(pEvents: seq<CalendarEvent>) returns (participantSlots: set<int>, ranges: seq<DateRange>)
    ensures participantSlots == CoveredSlots(pEvents)
    ensures ranges == EventRanges(pEvents)
  {
    participantSlots := {};
    ranges := [];
    for i := 0 to |pEvents|
      invariant participantSlots == CoveredSlots(pEvents[..i])
      invariant ranges == EventRanges(pEvents[..i])
    {
      var event := pEvents[i];
      assert pEvents[..i + 1] == pEvents[..i] + [event];
      assert pEvents[..i + 1][..i] == pEvents[..i];
      ranges := ranges + [DateRange(event.start, event.end)];
      var slotKeys := GenerateSlotKeys(event.start, event.end);
      CoveredSlotsAppend(pEvents[..i], event);
      participantSlots := AddKeys(participantSlots, slotKeys);
    }
    assert pEvents[..|pEvents|] == pEvents;
  }

  /**
   * The loop over `participantEvents`: one metric per participant, in
   * participant order, each against `totalSlotsWithCoverage`.
   */
  method BuildParticipantMetrics(names: seq<string>, groups: map<string, seq<CalendarEvent>>,
                                 events: seq<CalendarEvent>, totalSlotsWithCoverage: nat)
    returns (metrics: seq<ParticipantMetric>)
    requires forall n :: n in names ==> n in groups && groups[n] == EventsOf(events, n)
    ensures |metrics| == |names|
    ensures forall i :: 0 <= i < |names| ==> metrics[i] == MetricOf(events, names[i], totalSlotsWithCoverage)
  {
    metrics := [];
    for i := 0 to |names|
      invariant |metrics| == i
      invariant forall l :: 0 <= l < i ==> metrics[l] == MetricOf(events, names[l], totalSlotsWithCoverage)
    {
      var name := names[i];
      assert name in names;
      var pEvents := groups[name];
      var participantSlots, ranges := ParticipantSlots(pEvents);
      var totalMinutes := |participantSlots| * SLOT_MINUTES;
      var percentage := Percent(|participantSlots|, totalSlotsWithCoverage);
      metrics := metrics + [ParticipantMetric(name, totalMinutes, percentage, ranges)];
    }
  }

  lemma {:induction false} EventRangesOf(pEvents: seq<CalendarEvent>, i: nat)
    requires i < |pEvents|
    ensures |EventRanges(pEvents)| == |pEvents|
    ensures EventRanges(pEvents)[i] == DateRange(pEvents[i].start, pEvents[i].end)
  {
    if i < |pEvents| - 1 {
      EventRangesOf(pEvents[..|pEvents| - 1], i);
    } else {
      EventRangesLength(pEvents[..|pEvents| - 1]);
    }
  }

  lemma {:induction false} EventRangesLength(pEvents: seq<CalendarEvent>)
    ensures |EventRanges(pEvents)| == |pEvents|
  {
    if pEvents != [] {
      EventRangesLength(pEvents[..|pEvents| - 1]);
    }
  }

  /**
   * A participant's minutes are 15 per indexed slot that lists them, and
   * measured against all covered slots their percentage is at most 100.
   */
  lemma MetricMeaning(events: seq<CalendarEvent>, name: string)
    ensures var m, idx := MetricOf(events, name, |IndexOf(events)|), IndexOf(events);
      && m.totalMinutes == |set k | k in idx && name in idx[k]| * SLOT_MINUTES
      && 0.0 <= m.percentage <= 100.0
      && |m.ranges| == |EventsOf(events, name)|
  {
    var idx := IndexOf(events);
    ParticipantSlotsFromIndex(events, name);
    var mine := set k | k in idx && name in idx[k];
    assert mine <= idx.Keys;
    SubsetCardinality(mine, idx.Keys);
    PercentBounds(|mine|, |idx|);
    EventRangesLength(EventsOf(events, name));
  }

  /** The comparator `b.totalMinutes - a.totalMinutes`. */
  function MinutesRank(m: ParticipantMetric): Rank
  {
    Rank(m.totalMinutes as real, 0.0)
  }

  /** `participantMetrics` after the stable sort by minutes, descending. */
  function SortedMetrics(metrics: seq<ParticipantMetric>): seq<ParticipantMetric>
  {
    SortDesc(metrics, MinutesRank)
  }

  /** `participantMetrics[0]`, absent for an empty list. */
  function MostAvailable(sorted: seq<ParticipantMetric>): Option<ParticipantMetric>
  {
    if sorted == [] then None else Some(sorted[0])
  }

  /** `participantMetrics.at(-1)`, absent for an empty list; with one participant it is also the most available. */
  function LeastAvailable(sorted: seq<ParticipantMetric>): Option<ParticipantMetric>
  {
    if sorted == [] then None else Some(sorted[|sorted| - 1])
  }

  /**
   * After the sort, the most available participant has the most minutes
   * and the least available the fewest; both are among the metrics.
   */
  lemma MostAndLeast(metrics: seq<ParticipantMetric>)
    ensures var sorted := SortedMetrics(metrics);
      && (metrics == [] <==> MostAvailable(sorted) == None)
      && (metrics == [] <==> LeastAvailable(sorted) == None)
      && (metrics != [] ==>
        var most, least := MostAvailable(sorted).value, LeastAvailable(sorted).value;
        && most in metrics && least in metrics
        && forall m :: m in metrics ==> least.totalMinutes <= m.totalMinutes <= most.totalMinutes)
  {
    if metrics != [] {
      SortDescEnds(metrics, MinutesRank);
    }
  }
}
