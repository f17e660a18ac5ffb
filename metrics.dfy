/**
 * The whole aggregation: from the events of one calendar and the user's
 * clock format, the `AvailabilityMetrics` record, or null for a calendar
 * without events.
 *
 * `MetricsOf` states every field declaratively, in terms of the slot index
 * `IndexOf(events)` and the functions the other modules specify and prove
 * things about; `ComputeMetrics` runs the engine's steps in the engine's
 * order and is proved to produce exactly that record.
 */
module Metrics {
  import opened Wrappers
  import opened Time
  import opened Numeric
  import opened CalendarStore
  import opened SettingsStore
  import opened Participants
  import opened SlotIndex
  import opened SlotStats
  import opened Ranges
  import opened Ranking
  import opened Coverage
  import opened Participation
  import opened ParticipantMetrics
  import opened MeetingWindows
  import opened Overlaps
  import opened Breakdown

  /** `AvailabilityMetrics`; instants are milliseconds, dates of the heatmap are day numbers. */
  datatype AvailabilityMetrics = AvailabilityMetrics(
    totalParticipants: nat,
    everyoneAvailable: bool,
    hasTimeEvents: bool,
    earliestDate: Option<int>,
    latestDate: Option<int>,
    earliestRange: Option<DateRange>,
    latestRange: Option<DateRange>,
    commonRanges: seq<DateRange>,
    longest: Option<DateRange>,
    longestDurationMinutes: int,
    totalSlotsWithCoverage: nat,
    totalCalendarSlots: int,
    coveragePercentage: real,
    averageParticipantsPerSlot: real,
    participantMetrics: seq<ParticipantMetric>,
    mostAvailable: Option<ParticipantMetric>,
    leastAvailable: Option<ParticipantMetric>,
    topMeetingWindows: seq<MeetingWindow>,
    weekendSlots: nat,
    weekdaySlots: nat,
    optimalMeetingMinutes: int,
    pairwiseOverlaps: seq<PairwiseOverlap>,
    heatmapData: map<int, nat>,
    bestDayOfWeek: Option<DayOfWeekMetric>,
    dayOfWeekBreakdown: seq<DayOfWeekMetric>,
    peakHours: seq<PeakHourMetric>)

  /** The largest participant count among the first `n` slots, 0 for none. */
  function LargestSize(idx: Index, keys: seq<int>, n: nat): (m: nat)
    requires n <= |keys|
    ensures forall i :: 0 <= i < n ==> SizeAt(idx, keys[i]) <= m
    ensures n == 0 ==> m == 0
    ensures n > 0 ==> exists i :: 0 <= i < n && SizeAt(idx, keys[i]) == m
  {
    if n == 0 then 0
    else
      var m := LargestSize(idx, keys, n - 1);
      if SizeAt(idx, keys[n - 1]) > m then SizeAt(idx, keys[n - 1]) else m
  }

  /** A bound on every set size that some set attains is the largest size. */
  lemma LargestSizeUnique(idx: Index, keys: seq<int>, m: nat)
    requires IsKeyOrder(idx, keys)
    requires forall k :: k in idx ==> |idx[k]| <= m
    requires |idx| == 0 ==> m == 0
    requires |idx| > 0 ==> exists k :: k in idx && |idx[k]| == m
    ensures m == LargestSize(idx, keys, |keys|)
  {
    var largest := LargestSize(idx, keys, |keys|);
    if |idx| > 0 {
      var k :| k in idx && |idx[k]| == m;
      assert k in keys;
      var i :| 0 <= i < |keys| && keys[i] == k;
      assert SizeAt(idx, keys[i]) == m;
      var j :| 0 <= j < |keys| && SizeAt(idx, keys[j]) == largest;
      assert keys[j] in idx;
    }
  }

  /** One participant metric per name, in the order of `names`, before the sort. */
  function MetricsInOrder(events: seq<CalendarEvent>, names: seq<string>, covered: nat): seq<ParticipantMetric>
  {
    seq(|names|, i requires 0 <= i < |names| => MetricOf(events, names[i], covered))
  }

  /**
   * The participation values: the slots at the largest participant count,
   * their ranges, and the ranges where all `total` participants are available.
   */
  function ParticipationOf(idx: Index, keys: seq<int>, total: nat): (seq<int>, seq<DateRange>, seq<DateRange>)
  {
    var maxKeys := WithSize(idx, keys, |keys|, LargestSize(idx, keys, |keys|));
    (maxKeys, RangesOf(Runs(maxKeys, Consecutive)), RangesWithSize(idx, keys, total))
  }

  /** The coverage values: the calendar slots of the global span and the average set size. */
  function CoverageOf(events: seq<CalendarEvent>, idx: Index, keys: seq<int>): (int, real)
    requires events != [] && |keys| == |idx|
  {
    (TotalCalendarSlots(Some(EarliestStart(events)), Some(LatestEnd(events))), AverageParticipants(idx, keys))
  }

  /** The window values: the top windows, weekend and weekday slots, and the most common length among the sorted windows. */
  function WindowSummaryOf(idx: Index, keys: seq<int>): (seq<MeetingWindow>, nat, nat, int)
  {
    var windows := MeetingWindowsOf(idx, keys);
    (TopWindows(windows), WeekendCount(keys, |keys|), |keys| - WeekendCount(keys, |keys|),
     OptimalOf(Durations(SortedWindows(windows))))
  }

  /** The breakdown values: the day-of-week rows and the sorted peak hours. */
  function BreakdownOf(idx: Index, keys: seq<int>, hasTimeEvents: bool, timeFormat: TimeFormat)
    : (seq<DayOfWeekMetric>, seq<PeakHourMetric>)
  {
    (DayRows(CountsOf(keys, ByWeekday), TotalsOf(idx, keys, ByWeekday), 7),
     PeakHours(CountsOf(keys, ByHour), TotalsOf(idx, keys, ByHour), timeFormat, hasTimeEvents))
  }

  /** The returned record, with the fields derived from the values of the steps. */
  function Assemble(totalParticipants: nat, hasTimeEvents: bool, covered: nat,
                    participation: (seq<int>, seq<DateRange>, seq<DateRange>), coverage: (int, real),
                    sorted: seq<ParticipantMetric>, windows: (seq<MeetingWindow>, nat, nat, int),
                    overlaps: seq<PairwiseOverlap>, heat: map<int, nat>,
                    breakdown: (seq<DayOfWeekMetric>, seq<PeakHourMetric>)): AvailabilityMetrics
  {
    var (maxKeys, maxRanges, commonRanges) := participation;
    var longest := Longest(commonRanges);
    AvailabilityMetrics(
      totalParticipants,
      |commonRanges| > 0,
      hasTimeEvents,
      FirstOf(maxKeys),
      LastOf(maxKeys),
      FirstOf(maxRanges),
      LastOf(maxRanges),
      commonRanges,
      longest,
      LongestMinutes(longest),
      covered,
      coverage.0,
      CoveragePercentage(covered, coverage.0),
      coverage.1,
      sorted,
      MostAvailable(sorted),
      LeastAvailable(sorted),
      windows.0,
      windows.1,
      windows.2,
      windows.3,
      overlaps,
      heat,
      BestDay(breakdown.0),
      breakdown.0,
      breakdown.1)
  }

  /** The metrics of a calendar with events. */
  function MetricsOf(events: seq<CalendarEvent>, timeFormat: TimeFormat): AvailabilityMetrics
    requires events != []
  {
    var idx := IndexOf(events);
    var keys := AllSlotKeys(idx);
    var names := FirstSeen(Titles(events));
    Assemble(
      |names|,
      HasTimeEvents(events),
      |idx|,
      ParticipationOf(idx, keys, |names|),
      CoverageOf(events, idx, keys),
      SortedMetrics(MetricsInOrder(events, names, |idx|)),
      WindowSummaryOf(idx, keys),
      SortedOverlaps(PairTable(idx, keys, names, |names|)),
      HeatOf(idx, keys, |keys|),
      BreakdownOf(idx, keys, HasTimeEvents(events), timeFormat))
  }

  /**
   * The participation steps: the slots at the largest participant count
   * and their ranges, and the ranges where all `totalParticipants` are
   * available.
   */
  method ParticipationPhase(idx: Index, keys: seq<int>, totalParticipants: nat)
    returns (maxKeys: seq<int>, maxRanges: seq<DateRange>, commonRanges: seq<DateRange>)
    requires IsKeyOrder(idx, keys)
    ensures (maxKeys, maxRanges, commonRanges) == ParticipationOf(idx, keys, totalParticipants)
  {
    var maxParticipantCount := MaxParticipantCount(idx, keys);
    LargestSizeUnique(idx, keys, maxParticipantCount);
    maxKeys := KeysWithSize(idx, keys, maxParticipantCount);
    maxRanges := GroupConsecutiveSlots(maxKeys);
    var everyoneAvailableKeys := KeysWithSize(idx, keys, totalParticipants);
    commonRanges := GroupConsecutiveSlots(everyoneAvailableKeys);
  }

  /** The coverage steps: the calendar slots of the global span and the average set size. */
  method CoveragePhase(events: seq<CalendarEvent>, idx: Index, keys: seq<int>)
    returns (totalCalendarSlots: int, averageParticipantsPerSlot: real)
    requires events != [] && IsKeyOrder(idx, keys)
    ensures (totalCalendarSlots, averageParticipantsPerSlot) == CoverageOf(events, idx, keys)
  {
    var overallEarliestDate, overallLatestDate := EventSpan(events);
    totalCalendarSlots := TotalCalendarSlots(overallEarliestDate, overallLatestDate);
    var totalParticipantSlots := TotalParticipantSlots(idx, keys);
    averageParticipantsPerSlot := Ratio(totalParticipantSlots, |idx|);
  }

  /** The per-participant steps: one metric per participant, sorted by minutes. */
  method ParticipantPhase(events: seq<CalendarEvent>, names: seq<string>, groups: map<string, seq<CalendarEvent>>, covered: nat)
    returns (sorted: seq<ParticipantMetric>)
    requires forall n :: n in names ==> n in groups && groups[n] == EventsOf(events, n)
    ensures sorted == SortedMetrics(MetricsInOrder(events, names, covered))
  {
    var participantMetrics := BuildParticipantMetrics(names, groups, events, covered);
    assert participantMetrics == MetricsInOrder(events, names, covered);
    sorted := SortedMetrics(participantMetrics);
  }

  /** The window steps: sort the windows in place, keep the first five, split weekend slots, and count durations over the sorted list. */
  method WindowPhase(idx: Index, keys: seq<int>)
    returns (top: seq<MeetingWindow>, weekendSlots: nat, weekdaySlots: nat, optimalMeetingMinutes: int)
    requires IsKeyOrder(idx, keys)
    ensures (top, weekendSlots, weekdaySlots, optimalMeetingMinutes) == WindowSummaryOf(idx, keys)
  {
    var meetingWindows := BuildMeetingWindows(idx, keys);
    meetingWindows := SortDesc(meetingWindows, WindowRank);
    top := meetingWindows[..if |meetingWindows| < 5 then |meetingWindows| else 5];
    weekendSlots, weekdaySlots := WeekendSplit(keys);
    optimalMeetingMinutes := OptimalMeetingMinutes(meetingWindows);
  }

  /** The breakdown steps: the day-of-week rows and, with timed events, the sorted peak hours. */
  method BreakdownPhase(idx: Index, keys: seq<int>, hasTimeEvents: bool, timeFormat: TimeFormat)
    returns (days: seq<DayOfWeekMetric>, peakHours: seq<PeakHourMetric>)
    requires IsKeyOrder(idx, keys)
    ensures (days, peakHours) == BreakdownOf(idx, keys, hasTimeEvents, timeFormat)
  {
    var daySlotCounts, dayParticipantTotals := BucketTotals(idx, keys, ByWeekday);
    days := DayRows(daySlotCounts, dayParticipantTotals, 7);
    peakHours := [];
    if hasTimeEvents {
      var hourSlotCounts, hourParticipantTotals := BucketTotals(idx, keys, ByHour);
      var rows := PeakHourRows(hourSlotCounts, hourParticipantTotals, timeFormat);
      peakHours := SortDesc(rows, HourRank);
    }
  }

  /** The `useMemo` computation: null without events, and otherwise the metrics of the events. */
  method ComputeMetrics(events: seq<CalendarEvent>, timeFormat: TimeFormat) returns (r: Option<AvailabilityMetrics>)
    ensures r.None? <==> events == []
    ensures r.Some? ==> events != [] && r.value == MetricsOf(events, timeFormat)
  {
    if |events| == 0 {
      return None;
    }
    var hasTimeEvents := HasTimeEvents(events);
    var names, participantEvents := GroupEventsByTitle(events);
    var slotAvailability := BuildSlotIndex(events);
    var allSlotKeys := AllSlotKeys(slotAvailability);
    var totalSlotsWithCoverage := |slotAvailability|;
    var maxKeys, maxRanges, commonRanges := ParticipationPhase(slotAvailability, allSlotKeys, |names|);
    var totalCalendarSlots, averageParticipantsPerSlot := CoveragePhase(events, slotAvailability, allSlotKeys);
    var sorted := ParticipantPhase(events, names, participantEvents, totalSlotsWithCoverage);
    var top, weekendSlots, weekdaySlots, optimalMeetingMinutes := WindowPhase(slotAvailability, allSlotKeys);
    var pairwiseOverlaps := PairwiseOverlaps(slotAvailability, allSlotKeys, names);
    var heatmapData := Heatmap(slotAvailability, allSlotKeys);
    var days, peakHours := BreakdownPhase(slotAvailability, allSlotKeys, hasTimeEvents, timeFormat);
    r := Some(Assemble(
      |names|,
      hasTimeEvents,
      totalSlotsWithCoverage,
      (maxKeys, maxRanges, commonRanges),
      (totalCalendarSlots, averageParticipantsPerSlot),
      sorted,
      (top, weekendSlots, weekdaySlots, optimalMeetingMinutes),
      SortedOverlaps(pairwiseOverlaps),
      heatmapData,
      (days, peakHours)));
  }
}
