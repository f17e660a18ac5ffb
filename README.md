# Issho availability metrics, calendar store and settings store, in Dafny

Issho is a group-scheduling web application. Every participant draws
intervals of availability on a shared calendar. Each interval is a calendar
event whose title is the participant's name. This project models three
parts of it:

- **The availability metrics engine**, the computation inside the
  availability-metrics component. It turns the list of events into
  availability metrics. To do so it discretises every event into 15-minute
  slots and builds a slot index, which maps each slot to the set of
  participants available in it. From the index it derives:
  - the slots and ranges where participation is highest, and where everyone
    is available;
  - coverage of the events' overall span;
  - per-participant totals;
  - meeting windows: maximal runs of consecutive slots with the same
    participants;
  - the weekend/weekday split and the most common window length;
  - pairwise overlaps;
  - a per-day heatmap;
  - a day-of-week breakdown and peak hours.
- **The calendar store**: the client-side store holding the open calendar,
  its events and the draw-mode flag.
- **The settings store**: the client-side store holding the time format
  and the first day of the week. It is loaded from, and persisted to,
  browser storage.

Conventions:

- An instant is an `int` of milliseconds of local wall-clock time (module
  `Time`).
- A slot key is the instant at which its slot starts. Module `SlotKey` shows
  why this is sound for years 100 to 9999. It models the engine's text key
  ("yyyy-MM-ddTHH:mm") as a record of fixed-width parts, which format and
  parse back to the same minute and compare in time order. Outside that
  range the text keys differ (see "## Left out").
- A piece of the engine that loops over state is an imperative method (for
  example `SlotIndex.BuildSlotIndex`, `MeetingWindows.BuildMeetingWindows`
  or `Overlaps.PairwiseOverlaps`). Each such method is proved equal to a
  declarative function. The properties the engine promises are proved as
  lemmas about those functions.
- `Metrics.ComputeMetrics` runs the whole pipeline. It is proved equal to
  `Metrics.MetricsOf`, a function that assembles the results of those
  functions.
- The two stores are classes. Each setter's contract states the store's
  whole new state.

Modules: `Wrappers`, `Time`, `Slots`, `SlotKey`, `CalendarStore`,
`SettingsStore`, `Participants`, `SlotIndex`, `SlotStats`, `Ranges`,
`Ranking`, `Numeric`, `Format`, `Coverage`, `Participation`,
`ParticipantMetrics`, `Overlaps`, `MeetingWindows`, `Breakdown` and
`Metrics`.

Where the engine's documented intent and its code differ, the model follows
the code:

- An event whose end is not after its start is not rejected, and it still
  counts as a participant. It covers the slots from its aligned start up to
  its end, so it covers none only when the end is at or before the aligned
  start (`Slots.SlotKeysEmpty`). A zero-length event that starts off a slot
  boundary covers one slot (`Slots.ZeroLengthUnalignedCoversOne`).
- `totalCalendarSlots` counts slots from the unaligned earliest start, while
  events cover slots from their aligned starts. So `coveragePercentage` can
  exceed 100 (`Coverage.CoverageCanExceedHundred`). It never does when the
  earliest start lies on a slot boundary (`Coverage.CoveredAtMostOneMore`).
- An event shorter than 15 minutes that crosses a slot boundary covers two
  slots.
- `leastAvailable` is reported even when there is only one participant. It
  is then the same entry as `mostAvailable`.

## Model

| member | source | states |
|---|---|---|
| Time.Hours | components/availability-metrics.tsx:174-180 | `getHours` of an instant is an hour of the day, below 24 |
| Time.Minutes | components/availability-metrics.tsx:174-180 | `getMinutes` is below 60 |
| Time.Seconds | components/availability-metrics.tsx:174-180 | `getSeconds` is below 60 |
| Time.DayOfWeek | components/availability-metrics.tsx:409 | `getDay` is a weekday index below 7, Sunday being 0 |
| Slots.SlotStart | components/availability-metrics.tsx:114-119 | clearing seconds and rounding the minutes down to a multiple of 15 gives a slot boundary at or before the instant and less than a slot before it |
| Slots.ClearedMinutes | components/availability-metrics.tsx:115-119 | the step-by-step clearing (`setSeconds(0, 0)`, then the minutes rounded down to a quarter hour) yields exactly that boundary |
| Slots.GenerateSlotKeys | components/availability-metrics.tsx:112-127 | the loop returns the declarative slot list; every key is a slot boundary before the end |
| Slots.SlotKeysShape | components/availability-metrics.tsx:112-127 | the keys start at the aligned start, step by 15 minutes, stay below the end, and the last slot reaches the end |
| Slots.SlotKeysMembership | components/availability-metrics.tsx:112-127 | a key is generated iff it is a slot boundary between the aligned start (inclusive) and the end (exclusive) |
| Slots.SlotKeysEmpty | components/availability-metrics.tsx:121-122 | no key is generated iff the end is not after the aligned start |
| Slots.ZeroLengthUnalignedCoversOne | components/availability-metrics.tsx:115-122 | an event of zero length whose start is off a slot boundary covers exactly the slot containing its start |
| Slots.SlotStartIdempotent | components/availability-metrics.tsx:114-119 | aligning an already generated key leaves it unchanged |
| Slots.AllDayCharacterisation | components/availability-metrics.tsx:171-183 | `isAllDayEvent` holds iff start and end both lie within the first second of a day and the end is after the start |
| Slots.MidnightToTheSecond | components/availability-metrics.tsx:175-180 | hours, minutes and seconds are all zero iff the instant is within a second after midnight |
| SlotKey.ParseFormatRoundTrip | components/availability-metrics.tsx:123-135 | parsing a formatted key gives back the instant truncated to the minute |
| SlotKey.FormatInjective | components/availability-metrics.tsx:123 | two whole-minute instants with the same key are equal |
| SlotKey.KeyOrderIsTimeOrder | components/availability-metrics.tsx:236 | comparing keys part by part, as `sort()` compares fixed-width text, orders them in time: key order holds iff instant order does (years 100 to 9999, see Left out) |
| CalendarStore.WithoutIdContents | lib/calendar-store.ts:34-37 | after `removeEvent`, an event remains iff it was there and has another id; each kept event keeps its multiplicity |
| CalendarStore.WithoutIdsContents | lib/calendar-store.ts:38-41 | after `removeEvents`, an event remains iff it was there and its id is not listed; each kept event keeps its multiplicity |
| CalendarStore.WithoutIdsAppend | lib/calendar-store.ts:38-41 | the filter keeps order: it distributes over concatenation |
| CalendarStore.WithoutNoIds | lib/calendar-store.ts:38-41 | removing no ids leaves the events unchanged |
| CalendarStore.WithoutOneId | lib/calendar-store.ts:34-41 | `removeEvents([id])` equals `removeEvent(id)` |
| CalendarStore.WithoutIdsIdempotent | lib/calendar-store.ts:38-41 | removing the same ids twice equals removing them once |
| CalendarStore.AddThenRemove | lib/calendar-store.ts:33-37 | adding an event and then removing its id leaves the other events as they were |
| CalendarStore.Store.constructor | lib/calendar-store.ts:25-29 | initial state: no calendar id, empty name, no events, draw mode on |
| CalendarStore.Store.SetCalendarId | lib/calendar-store.ts:30 | sets the calendar id; nothing else changes |
| CalendarStore.Store.SetCalendarName | lib/calendar-store.ts:31 | sets the name; nothing else changes |
| CalendarStore.Store.SetEvents | lib/calendar-store.ts:32 | replaces the events; nothing else changes |
| CalendarStore.Store.AddEvent | lib/calendar-store.ts:33 | appends the event at the end; nothing else changes |
| CalendarStore.Store.RemoveEvent | lib/calendar-store.ts:34-37 | the events become the old events without that id; nothing else changes |
| CalendarStore.Store.RemoveEvents | lib/calendar-store.ts:38-41 | the events become the old events without the listed ids; nothing else changes |
| CalendarStore.Store.SetDrawMode | lib/calendar-store.ts:42 | sets the draw-mode flag; nothing else changes |
| SettingsStore.LoadSettings | lib/settings-store.ts:16-39 | without a window, a non-empty stored record, or a parse giving a non-null value, the defaults (12-hour, Monday); otherwise 24-hour iff the record's `timeFormat` is "24h", and Sunday iff its `weekStartsOn` is 0 |
| SettingsStore.ToJson | lib/settings-store.ts:44 | what is persisted is an object with exactly the two settings fields |
| SettingsStore.LoadPersisted | lib/settings-store.ts:16-48 | loading what `persistSettings` wrote gives back the same settings |
| SettingsStore.LoadInvalidFields | lib/settings-store.ts:24-33 | a record whose two fields hold values outside the allowed ones loads as the defaults |
| SettingsStore.Store.constructor | lib/settings-store.ts:50-51 | the store starts from the loaded settings, with nothing persisted yet |
| SettingsStore.Store.PersistSettings | lib/settings-store.ts:42-48 | the current settings are persisted when storage accepts the write; a failing write changes nothing |
| SettingsStore.Store.SetTimeFormat | lib/settings-store.ts:52-55 | sets the time format only, then persists the new state when storage is writable |
| SettingsStore.Store.SetWeekStartsOn | lib/settings-store.ts:56-59 | sets the first weekday only, then persists the new state when storage is writable |
| Participants.Titles | components/availability-metrics.tsx:195 | one title per event, in event order |
| Participants.FirstSeen | components/availability-metrics.tsx:195-196 | the `Set` of titles: the same members as the titles, without repetitions |
| Participants.FirstSeenOrder | components/availability-metrics.tsx:195 | the participants keep first-occurrence order |
| Participants.ParticipantCount | components/availability-metrics.tsx:196 | `totalParticipants` is the number of distinct titles |
| Participants.EventsOf | components/availability-metrics.tsx:202-208 | a participant's events are exactly the events bearing their title |
| Participants.EventsOfCount | components/availability-metrics.tsx:202-208 | each event bearing the participant's title occurs in their list as often as among all events, and no other event occurs |
| Participants.GroupEventsByTitle | components/availability-metrics.tsx:202-208 | the loop's map has a key per participant, in first-seen order, each holding that participant's events in input order |
| SlotIndex.AddToSlots | components/availability-metrics.tsx:219-224 | the inner loop adds the title to the set of every listed slot, creating missing entries |
| SlotIndex.BuildSlotIndex | components/availability-metrics.tsx:211-225 | the loop builds exactly the declarative slot index of the events |
| SlotIndex.IndexMembership | components/availability-metrics.tsx:211-225 | a slot is in the index iff some event covers it; a participant is in a slot's set iff one of their events covers that slot |
| SlotIndex.IndexValues | components/availability-metrics.tsx:211-225 | every slot's set is non-empty, holds only participants, and is no larger than `totalParticipants` |
| SlotIndex.IndexKeysAligned | components/availability-metrics.tsx:211-225 | every slot key is a slot boundary |
| SlotIndex.ParticipantSlotsFromIndex | components/availability-metrics.tsx:330-342 | a participant's own slots are exactly the index slots whose set names them |
| SlotStats.AllSlotKeys | components/availability-metrics.tsx:236 | `allSlotKeys` holds every slot once, in ascending time order |
| SlotStats.SortedKeysUnique | components/availability-metrics.tsx:236 | any ascending listing of the slots is that sorted list |
| SlotStats.MaxParticipantCount | components/availability-metrics.tsx:228-233 | the loop finds the largest set size, attained by some slot, and 0 without slots |
| SlotStats.KeysWithSize | components/availability-metrics.tsx:237-244 | the filter loop keeps the sorted keys whose set has the target size |
| SlotStats.KeysWithSizeMeaning | components/availability-metrics.tsx:237-244 | the kept keys are ascending and are exactly the slots of that size |
| SlotStats.SumSizesBounds | components/availability-metrics.tsx:318-321 | a sum of sizes each between two bounds lies between the count times each bound |
| SlotStats.TotalParticipantSlots | components/availability-metrics.tsx:318-321 | the loop sums the set sizes over all slots |
| SlotStats.BucketCountsSum | components/availability-metrics.tsx:478-482 | the per-weekday (or per-hour) slot counts add up to the number of slots |
| SlotStats.BucketTotals | components/availability-metrics.tsx:478-482 | the loop fills each bucket's slot count and participant total |
| SlotStats.WeekendIsSundayAndSaturday | components/availability-metrics.tsx:409-410 | weekend slots are the Sunday slots plus the Saturday slots |
| SlotStats.WeekendSplit | components/availability-metrics.tsx:406-415 | weekend and weekday slots partition all slots |
| SlotStats.HeatOfDomain | components/availability-metrics.tsx:464-471 | a day is in the heatmap iff one of its slots has participants |
| SlotStats.HeatOfBound | components/availability-metrics.tsx:464-471 | a day's heat is at least the size of each of its slots |
| SlotStats.HeatOfAttained | components/availability-metrics.tsx:464-471 | a day's heat is the size of one of its slots, so it is the day's maximum |
| SlotStats.Heatmap | components/availability-metrics.tsx:464-471 | the loop builds exactly the declarative heatmap |
| Ranges.Runs | components/availability-metrics.tsx:1129-1156 | runs are non-empty; there are none iff there are no keys; the last run ends with the last key |
| Ranges.RunsArePartition | components/availability-metrics.tsx:1129-1156 | the runs concatenate to the keys, join inside and split between |
| Ranges.PartitionUnique | components/availability-metrics.tsx:1129-1156 | any such partition equals the computed runs |
| Ranges.RunOfRuns | components/availability-metrics.tsx:1138-1148 | each run is a non-empty chain of consecutive keys taken from the input |
| Ranges.RunsBoundary | components/availability-metrics.tsx:1140-1147 | adjacent runs are not consecutive at their boundary |
| Ranges.RangeOfRun | components/availability-metrics.tsx:1143-1153 | a run's range lasts 15 minutes per slot and covers exactly its slots |
| Ranges.GroupConsecutiveSlots | components/availability-metrics.tsx:1129-1156 | the loop returns the range of every run, in order |
| Ranges.GroupedRangesCover | components/availability-metrics.tsx:1129-1156 | a slot boundary is a key iff some range contains it |
| Ranking.SortDescPermutation | components/availability-metrics.tsx:353 | sorting is a permutation |
| Ranking.SortDescSorted | components/availability-metrics.tsx:396-401 | the result is in descending rank order and has the input's length |
| Ranking.SortDescStable | components/availability-metrics.tsx:461 | the sort is stable: entries of equal rank keep their input order |
| Ranking.SortDescEnds | components/availability-metrics.tsx:354-355 | the first entry has the highest rank and the last the lowest, both taken from the input |
| Ranking.FirstMaxIndex | components/availability-metrics.tsx:277-282 | the strict-greater `reduce` picks the first entry with the highest score |
| Numeric.CeilDiv | components/availability-metrics.tsx:308-311 | `Math.ceil(x / y)` is the least integer whose multiple of y reaches x |
| Numeric.RoundDiv | components/availability-metrics.tsx:286-288 | `Math.round(x / y)` is the nearest integer, halves rounding up |
| Numeric.RoundDivExact | components/availability-metrics.tsx:286-288 | rounding an exact quotient gives that quotient |
| Numeric.Ratio | components/availability-metrics.tsx:322-325 | a guarded average: 0 over nothing, otherwise total over count |
| Numeric.Percent | components/availability-metrics.tsx:313-316 | a guarded percentage: 0 over nothing, otherwise part over whole times 100 |
| Numeric.PercentBounds | components/availability-metrics.tsx:345-348 | a part no larger than its whole is between 0 and 100 percent |
| Numeric.RatioBounds | components/availability-metrics.tsx:322-325 | a total between count times two bounds averages between them |
| Format.NatToStringValue | components/availability-metrics.tsx:151-162 | the decimal text of a count reads back as that count |
| Format.NatToStringInjective | components/availability-metrics.tsx:151-162 | distinct counts are written differently |
| Format.FormatDuration | components/availability-metrics.tsx:141-165 | a duration that is not positive is written "0 min" |
| Format.DurationPiecesMinutes | components/availability-metrics.tsx:145-164 | the written parts are never empty and stand for exactly the minutes formatted |
| Format.ParsePieces | components/availability-metrics.tsx:164 | parts joined by single spaces read back as the sum of their minutes |
| Format.FormatDurationRoundTrip | components/availability-metrics.tsx:141-165 | reading the text back gives the minutes (0 for a duration that is not positive), so no two durations share a text |
| Format.FormatDurationDays | components/availability-metrics.tsx:150-152 | a whole number of days is written "N day" or "N days" |
| Format.HourLabelRoundTrip | components/availability-metrics.tsx:514-526 | each hour label reads back as its hour; a 24-hour label has five characters |
| Format.HourLabelInjective | components/availability-metrics.tsx:514-526 | distinct hours get distinct labels |
| Coverage.EarliestStart | components/availability-metrics.tsx:294-299 | the earliest start is some event's start and no later than any |
| Coverage.LatestEnd | components/availability-metrics.tsx:300-302 | the latest end is some event's end and no earlier than any |
| Coverage.EventSpan | components/availability-metrics.tsx:292-303 | the loop yields both extremes, or none for no events |
| Coverage.CoveredWithinSpan | components/availability-metrics.tsx:305-312 | every covered slot is a slot of the global span |
| Coverage.CoveredAtMostOneMore | components/availability-metrics.tsx:305-316 | covered slots exceed the calendar slots by at most one, and never when the earliest start is aligned; then the coverage is between 0 and 100 |
| Coverage.CoverageCanExceedHundred | components/availability-metrics.tsx:305-316 | one ten-minute event across a slot boundary gives 200 percent coverage |
| Coverage.AverageBounds | components/availability-metrics.tsx:318-325 | the average participants per slot is 0 without slots, otherwise between 1 and the largest participant count |
| Participation.MaxParticipationMeaning | components/availability-metrics.tsx:237-261 | the earliest and latest max-participation slots exist iff any slot does; they have the maximal size and bound every slot of that size; the first and last ranges start and end there |
| Participation.EveryoneAvailable | components/availability-metrics.tsx:263-272 | `everyoneAvailable` holds iff some slot holds every participant |
| Participation.EveryoneMeansAll | components/availability-metrics.tsx:264-270 | a slot of size `totalParticipants` holds exactly the set of participants |
| Participation.RangeMinutes | components/availability-metrics.tsx:285-289 | a common range's minutes are its length, a positive multiple of 15 |
| Participation.LongestMeaning | components/availability-metrics.tsx:274-289 | the longest range exists iff there are common slots; it is the first range of greatest duration; its minutes are its length |
| ParticipantMetrics.ParticipantSlots | components/availability-metrics.tsx:330-342 | the loop collects the participant's slots and one range per event |
| ParticipantMetrics.BuildParticipantMetrics | components/availability-metrics.tsx:328-351 | one metric per participant, in participant order |
| ParticipantMetrics.MetricMeaning | components/availability-metrics.tsx:344-350 | `totalMinutes` is 15 times the participant's slots in the index; the percentage is between 0 and 100; one range per event |
| ParticipantMetrics.MostAndLeast | components/availability-metrics.tsx:353-355 | most and least exist iff there are participants; they are participants with the largest and smallest `totalMinutes` |
| Overlaps.CountShared | components/availability-metrics.tsx:441-447 | the loop counts the slots whose set holds both participants |
| Overlaps.SharedCountIsShared | components/availability-metrics.tsx:441-447 | that count is the number of slots the two share |
| Overlaps.PairwiseOverlaps | components/availability-metrics.tsx:434-459 | the nested loops build the pair table in participant order |
| Overlaps.OverlapsMeaning | components/availability-metrics.tsx:437-459 | an entry is in the table iff it belongs to a pair i < j that shares a slot, with that pair's minutes and percentage |
| Overlaps.OverlapPairsSymmetric | components/availability-metrics.tsx:435-459 | over the distinct participants, no entry pairs a participant with themself, no pair is listed in both orders, and an entry's minutes are the same read either way round |
| Overlaps.PairTableLength | components/availability-metrics.tsx:437-438 | there are at most n(n-1)/2 entries |
| MeetingWindows.BuildMeetingWindows | components/availability-metrics.tsx:358-393 | the tracker loop yields one window per maximal run of consecutive slots with the same participants |
| MeetingWindows.WindowMeaning | components/availability-metrics.tsx:1159-1174 | a window's count is its number of participants, its length is its duration, and every slot inside has exactly its participants |
| MeetingWindows.WindowsMaximal | components/availability-metrics.tsx:373-388 | adjacent windows either leave a gap or differ in participants |
| MeetingWindows.WindowsCoverAllSlots | components/availability-metrics.tsx:358-393 | the windows' durations add up to 15 minutes per slot |
| MeetingWindows.TopWindowsBest | components/availability-metrics.tsx:396-403 | the top windows are at most five windows from the list, and none left out ranks above them |
| MeetingWindows.CountDurations | components/availability-metrics.tsx:418-422 | each duration in the window list it is given is counted by its number of windows; the durations are kept in the order the list first meets them |
| MeetingWindows.OptimalIsMostFrequent | components/availability-metrics.tsx:424-431 | for any duration list: 15 when it is empty, otherwise its most frequent duration, ties going to the one met first in the list |
| MeetingWindows.OptimalOfSortedWindows | components/availability-metrics.tsx:396-431 | over the windows as sorted in place (count, then duration, descending): 15 without windows, otherwise a window duration no other duration outnumbers among all windows, ties going to the duration met first in the sorted list |
| MeetingWindows.OptimalMeetingMinutes | components/availability-metrics.tsx:417-431 | the two loops compute that optimal length over the window list they are given |
| Breakdown.HasTimeEvents | components/availability-metrics.tsx:199 | holds iff some event is not an all-day event |
| Breakdown.BucketAverageBounds | components/availability-metrics.tsx:488-491 | a day's average participants lies between 1 and the largest participant count |
| Breakdown.DayRowsMembers | components/availability-metrics.tsx:484-493 | the rows are exactly the days with slots, once each, named after the days |
| Breakdown.DayBreakdownCountsAll | components/availability-metrics.tsx:474-493 | the rows' slot counts add up to the number of slots; there are no rows iff there are no slots |
| Breakdown.BestDayMeaning | components/availability-metrics.tsx:495-500 | a best day exists iff some slot does; it is the first row with the highest average |
| Breakdown.PeakHourRows | components/availability-metrics.tsx:514-534 | the hour loop builds one row per hour with slots |
| Breakdown.HourRowsMeaning | components/availability-metrics.tsx:514-534 | the rows are exactly the hours with slots, in ascending hour order, each with its label and a positive slot count |
| Breakdown.PeakHoursMeaning | components/availability-metrics.tsx:502-538 | no peak hours without timed events; otherwise a stable permutation of the rows by descending average |
| Metrics.LargestSizeUnique | components/availability-metrics.tsx:228-233 | any number that bounds every slot's size and is attained is the computed maximum |
| Metrics.ParticipationPhase | components/availability-metrics.tsx:237-272 | computes the max-participation keys, their ranges and the common ranges |
| Metrics.CoveragePhase | components/availability-metrics.tsx:292-325 | computes the calendar slots and the average participants per slot |
| Metrics.ParticipantPhase | components/availability-metrics.tsx:328-353 | computes the sorted participant metrics |
| Metrics.WindowPhase | components/availability-metrics.tsx:358-431 | builds the windows and sorts them once; the top windows are the first five of the sorted list, and the optimal length is counted over that same sorted list; also the weekend/weekday split |
| Metrics.BreakdownPhase | components/availability-metrics.tsx:473-538 | computes the day-of-week rows and the peak hours |
| Metrics.ComputeMetrics | components/availability-metrics.tsx:190-567 | null iff there are no events; otherwise every field of the metrics as the declarative model defines them |

## Left out

- Rendering: the component's markup, charts and cards are not part of this model.
- Floating point: averages and percentages are exact `real` values without rounding. `Math.round` and `Math.ceil` are exact integer operations (`Numeric`).
- Slot keys outside years 100 to 9999: the text keys round-trip and sort in time order only for years 100 to 9999. A year below 100 is written with four digits, but `new Date(year, …)` reads years 0 to 99 as 1900 to 1999, so parsing lands in the wrong century. A year of five digits or more sorts out of time order as text. The model assumes every instant lies in years 100 to 9999.
- Invalid dates: instants are integers, so an event whose start or end is an Invalid Date (a NaN instant) is not represented. In the engine such an event generates no slot keys, and `totalCalendarSlots` becomes NaN. The model assumes every event's dates are valid.
- Time zones and daylight saving: instants are local wall-clock milliseconds with no offset changes. `new Date(y, m, d, h, min)` is modelled by the instant arithmetic of module `SlotKey`, with a day number in place of the year-month-day calendar.
- Heatmap keys: the heatmap is keyed by the day number rather than the "yyyy-MM-dd" text. `SlotKey.FormatInjective` and `SlotKey.KeyOrderIsTimeOrder` show that, for years 100 to 9999, the key and the number identify the same slot and sort the same way.
- Iteration order of `Map` values: loops that only take a maximum, a sum or counts (the slot-size maximum, total participant slots, pairwise overlap counts, heatmap, day and hour buckets) visit the sorted slot keys rather than insertion order. Their values do not depend on the order. The heatmap is a `map` without order: the engine's `heatmapData` keeps its days in the order they are first met among the slots, and the model does not capture that key order.
- MeetingWindow.participants: a window's participants are a set. The engine keeps them as an array in the order they were added to the slot's set, and the model does not capture that order.
- The participant map is visited in first-seen title order, which is its insertion order.
- The `continue` for a missing slot set in the window loop is not modelled. It cannot be taken, since every sorted key is in the index.
- Format.FormatDuration: only integer minute counts are formatted. The engine only passes multiples of 15.
- SettingsStore.LoadSettings: browser storage, the presence of `window` and `JSON.parse` are parameters. They are whether a window exists, the stored text and its parsed JSON value, if any. A failed parse is `None`.
- SettingsStore.Store.PersistSettings: whether `localStorage.setItem` succeeds is a parameter. `JSON.stringify` is the `ToJson` value.
- The stores' subscription and re-render machinery (zustand's `set` notifying subscribers) is not modelled. Each setter is a method on the state.
- The component's read of the settings hook is the `timeFormat` parameter of `Metrics.ComputeMetrics`.
- Other application files (API routes, database access, the calendar view and other components) are not part of this model.
