/**
 * The calendar breakdowns: the average participant count per day of the
 * week (with the best day) and per hour of the day (the peak hours, only
 * when some event has a time of day).
 */
module Breakdown {
  import opened Wrappers
  import opened Numeric
  import opened CalendarStore
  import opened Slots
  import opened SlotIndex
  import opened SlotStats
  import opened Ranking
  import opened SettingsStore
  import opened Format

  /** `dayNames`, indexed by `getDay()`. */
  const DAY_NAMES: seq<string> := ["Sun", "Mon", "Tue", "Wed", "Thu", "Fri", "Sat"]

  /** `DayOfWeekMetric`. */
  datatype DayOfWeekMetric = DayOfWeekMetric(day: string, slots: nat, avgParticipants: real)

  /** `PeakHourMetric`; `text` is the field the engine calls `label`. */
  datatype PeakHourMetric = PeakHourMetric(hour: nat, text: string, avgParticipants: real, totalSlots: nat)

  /** `hasTimeEvents`: some event is not an all-day event. */
  function HasTimeEvents(events: seq<CalendarEvent>): (r: bool)
    ensures r <==> exists i :: 0 <= i < |events| && !IsAllDayEvent(events[i].start, events[i].end)
  {
    if events == [] then false
    else
      var last := events[|events| - 1];
      assert forall i :: 0 <= i < |events| - 1 ==> events[..|events| - 1][i] == events[i];
      HasTimeEvents(events[..|events| - 1]) || !IsAllDayEvent(last.start, last.end)
  }

  lemma MulStep(c: int, x: int)
    ensures (c + 1) * x == c * x + x
  {
  }

  /** A bucket's totals lie between its slot count times the smallest and the largest set size. */
  lemma {:induction false} BucketTotalBounds(idx: Index, keys: seq<int>, n: nat, g: Grouping, b: nat, lo: nat, hi: nat)
    requires n <= |keys|
    requires forall i :: 0 <= i < n ==> lo <= SizeAt(idx, keys[i]) <= hi
    ensures BucketCount(keys, n, g, b) * lo <= BucketTotal(idx, keys, n, g, b) <= BucketCount(keys, n, g, b) * hi
  {
    if n > 0 {
      BucketTotalBounds(idx, keys, n - 1, g, b, lo, hi);
      var c, t := BucketCount(keys, n - 1, g, b), BucketTotal(idx, keys, n - 1, g, b);
      var size := SizeAt(idx, keys[n - 1]);
      assert lo <= size <= hi;
      if Bucket(g, keys[n - 1]) == b {
        assert BucketCount(keys, n, g, b) == c + 1 && BucketTotal(idx, keys, n, g, b) == t + size;
        MulStep(c, lo);
        MulStep(c, hi);
      } else {
        assert BucketCount(keys, n, g, b) == c && BucketTotal(idx, keys, n, g, b) == t;
      }
    }
  }

  /** The average of a bucket of covered slots lies between 1 and the largest participant count. */
  lemma BucketAverageBounds(events: seq<CalendarEvent>, keys: seq<int>, g: Grouping, b: nat, maxCount: nat)
    requires IsKeyOrder(IndexOf(events), keys)
    requires forall k :: k in IndexOf(events) ==> |IndexOf(events)[k]| <= maxCount
    requires BucketCount(keys, |keys|, g, b) > 0
    ensures var idx := IndexOf(events);
      1.0 <= Ratio(BucketTotal(idx, keys, |keys|, g, b), BucketCount(keys, |keys|, g, b)) <= maxCount as real
  {
    var idx := IndexOf(events);
    forall i | 0 <= i < |keys|
      ensures 1 <= SizeAt(idx, keys[i]) <= maxCount
    {
      IndexValues(events, keys[i]);
    }
    BucketTotalBounds(idx, keys, |keys|, g, b, 1, maxCount);
    RatioBounds(BucketTotal(idx, keys, |keys|, g, b), BucketCount(keys, |keys|, g, b), 1, maxCount);
  }

  // ---------------------------------------------------------------------
  // Day of the week

  /** The row of day `b`: its name, slot count and average. */
  function DayRow(counts: seq<nat>, totals: seq<nat>, b: nat): DayOfWeekMetric
    requires b < 7 && |counts| == 7 && |totals| == 7
  {
    DayOfWeekMetric(DAY_NAMES[b], counts[b], Ratio(totals[b], counts[b]))
  }

  /** `dayNames.map(...).filter((d) => d.slots > 0)` over the first `n` days. */
  function DayRows(counts: seq<nat>, totals: seq<nat>, n: nat): seq<DayOfWeekMetric>
    requires n <= 7 && |counts| == 7 && |totals| == 7
  {
    if n == 0 then []
    else DayRows(counts, totals, n - 1) + (if counts[n - 1] > 0 then [DayRow(counts, totals, n - 1)] else [])
  }

  /** The slots of the rows, added up. */
  function RowSlots(rows: seq<DayOfWeekMetric>): nat
  {
    if rows == [] then 0 else RowSlots(rows[..|rows| - 1]) + rows[|rows| - 1].slots
  }

  lemma {:induction false} RowSlotsAppend(xs: seq<DayOfWeekMetric>, ys: seq<DayOfWeekMetric>)
    ensures RowSlots(xs + ys) == RowSlots(xs) + RowSlots(ys)
    decreases |ys|
  {
    if ys != [] {
      assert (xs + ys)[..|xs + ys| - 1] == xs + ys[..|ys| - 1];
      RowSlotsAppend(xs, ys[..|ys| - 1]);
    } else {
      assert xs + ys == xs;
    }
  }

  /**
   * The breakdown has one row per day of the week with slots, in the order
   * Sunday to Saturday, carrying that day's name, slot count and average.
   */
  lemma {:induction false} DayRowsMembers(counts: seq<nat>, totals: seq<nat>, n: nat)
    requires n <= 7 && |counts| == 7 && |totals| == 7
    ensures forall r :: r in DayRows(counts, totals, n) <==>
      exists b :: 0 <= b < n && counts[b] > 0 && r == DayRow(counts, totals, b)
    ensures forall i, j :: 0 <= i < j < |DayRows(counts, totals, n)| ==>
      DayRows(counts, totals, n)[i].day != DayRows(counts, totals, n)[j].day
    ensures forall i :: 0 <= i < |DayRows(counts, totals, n)| ==>
      DayRows(counts, totals, n)[i].day in DAY_NAMES[..n]
  {
    if n > 0 {
      DayRowsMembers(counts, totals, n - 1);
      var before := DayRows(counts, totals, n - 1);
      var rows := DayRows(counts, totals, n);
      forall i | 0 <= i < |before|
        ensures before[i].day != DAY_NAMES[n - 1]
      {
        assert before[i].day in DAY_NAMES[..n - 1];
      }
      assert DAY_NAMES[..n] == DAY_NAMES[..n - 1] + [DAY_NAMES[n - 1]];
      forall i | 0 <= i < |rows|
        ensures rows[i].day in DAY_NAMES[..n]
      {
        if i < |before| {
          assert rows[i] == before[i];
        }
      }
    }
  }

  /** The slot counts of the rows add up to the counts of the first `n` days. */
  lemma {:induction false} DayRowsSlots(counts: seq<nat>, totals: seq<nat>, n: nat, keys: seq<int>)
    requires n <= 7 && |counts| == 7 && |totals| == 7
    requires forall b :: 0 <= b < 7 ==> counts[b] == BucketCount(keys, |keys|, ByWeekday, b)
    ensures RowSlots(DayRows(counts, totals, n)) == SumBucketCounts(keys, |keys|, ByWeekday, n)
  {
    if n > 0 {
      DayRowsSlots(counts, totals, n - 1, keys);
      var extra := if counts[n - 1] > 0 then [DayRow(counts, totals, n - 1)] else [];
      RowSlotsAppend(DayRows(counts, totals, n - 1), extra);
      assert RowSlots(extra) == counts[n - 1] by {
        if extra != [] {
          assert extra[..0] == [];
        }
      }
    }
  }

  /**
   * Every covered slot is counted on exactly one day: the breakdown's slot
   * counts add up to the number of covered slots, so it is empty exactly
   * when no slot is covered.
   */
  lemma DayBreakdownCountsAll(counts: seq<nat>, totals: seq<nat>, keys: seq<int>)
    requires |counts| == 7 && |totals| == 7
    requires forall b :: 0 <= b < 7 ==> counts[b] == BucketCount(keys, |keys|, ByWeekday, b)
    ensures RowSlots(DayRows(counts, totals, 7)) == |keys|
    ensures DayRows(counts, totals, 7) == [] <==> keys == []
  {
    DayRowsSlots(counts, totals, 7, keys);
    BucketCountsSum(keys, |keys|, ByWeekday);
    DayRowsPositive(counts, totals, 7);
    var rows := DayRows(counts, totals, 7);
    if rows != [] {
      assert RowSlots(rows) >= rows[|rows| - 1].slots > 0;
    }
  }

  lemma {:induction false} DayRowsPositive(counts: seq<nat>, totals: seq<nat>, n: nat)
    requires n <= 7 && |counts| == 7 && |totals| == 7
    ensures forall i :: 0 <= i < |DayRows(counts, totals, n)| ==> DayRows(counts, totals, n)[i].slots > 0
  {
    if n > 0 {
      DayRowsPositive(counts, totals, n - 1);
    }
  }

  function DayAverage(d: DayOfWeekMetric): real
  {
    d.avgParticipants
  }

  /** `bestDayOfWeek`: the first row of largest average, null without rows. */
  function BestDay(rows: seq<DayOfWeekMetric>): Option<DayOfWeekMetric>
  {
    if rows == [] then None else Some(rows[FirstMaxIndex(rows, DayAverage)])
  }

  /**
   * The best day is a row of the breakdown, no row has a larger average,
   * and every row before it has a smaller one; it is null exactly when no
   * slot is covered.
   */
  lemma BestDayMeaning(counts: seq<nat>, totals: seq<nat>, keys: seq<int>)
    requires |counts| == 7 && |totals| == 7
    requires forall b :: 0 <= b < 7 ==> counts[b] == BucketCount(keys, |keys|, ByWeekday, b)
    ensures var rows := DayRows(counts, totals, 7);
      && (BestDay(rows) == None <==> keys == [])
      && (BestDay(rows).Some? ==>
        var best := BestDay(rows).value;
        && best in rows
        && (forall r :: r in rows ==> r.avgParticipants <= best.avgParticipants)
        && exists i :: 0 <= i < |rows| && rows[i] == best
             && forall j :: 0 <= j < i ==> rows[j].avgParticipants < best.avgParticipants)
  {
    DayBreakdownCountsAll(counts, totals, keys);
    var rows := DayRows(counts, totals, 7);
    if rows != [] {
      var i := FirstMaxIndex(rows, DayAverage);
      forall r | r in rows
        ensures r.avgParticipants <= rows[i].avgParticipants
      {
        var j :| 0 <= j < |rows| && rows[j] == r;
        assert DayAverage(rows[j]) <= DayAverage(rows[i]);
      }
    }
  }

  // ---------------------------------------------------------------------
  // Peak hours

  /** The row of hour `h`. */
  function HourRow(counts: seq<nat>, totals: seq<nat>, h: nat, timeFormat: TimeFormat): PeakHourMetric
    requires h < 24 && |counts| == 24 && |totals| == 24
  {
    PeakHourMetric(h, HourLabel(h, timeFormat), Ratio(totals[h], counts[h]), counts[h])
  }

  /** The rows the hour loop pushes for hours `0 .. n-1`: one per hour with slots. */
  function HourRows(counts: seq<nat>, totals: seq<nat>, n: nat, timeFormat: TimeFormat): seq<PeakHourMetric>
    requires n <= 24 && |counts| == 24 && |totals| == 24
  {
    if n == 0 then []
    else
      var row := if counts[n - 1] > 0 then [HourRow(counts, totals, n - 1, timeFormat)] else [];
      HourRows(counts, totals, n - 1, timeFormat) + row
  }

  /** The loop over `h < 24` that fills `peakHours` before it is sorted. */
  method PeakHourRows(counts: seq<nat>, totals: seq<nat>, timeFormat: TimeFormat) returns (peakHours: seq<PeakHourMetric>)
    requires |counts| == 24 && |totals| == 24
    ensures peakHours == HourRows(counts, totals, 24, timeFormat)
  {
    peakHours := [];
    for h := 0 to 24
      invariant peakHours == HourRows(counts, totals, h, timeFormat)
    {
      if counts[h] > 0 {
        var text: string;
        if timeFormat == TwentyFourHour {
          text := Pad2(NatToString(h)) + ":00";
        } else {
          var period := if h < 12 then "AM" else "PM";
          var displayHour := h % 12;
          if displayHour == 0 {
            displayHour := 12;
          }
          text := NatToString(displayHour) + period;
        }
        peakHours := peakHours + [PeakHourMetric(h, text, Ratio(totals[h], counts[h]), counts[h])];
      }
    }
  }

  /** The hour loop's rows, split into those of the earlier hours and that of hour `n - 1`. */
  lemma HourRowsLast(counts: seq<nat>, totals: seq<nat>, n: nat, timeFormat: TimeFormat)
    requires 0 < n <= 24 && |counts| == 24 && |totals| == 24
    ensures var before, rows := HourRows(counts, totals, n - 1, timeFormat), HourRows(counts, totals, n, timeFormat);
      && |rows| == |before| + (if counts[n - 1] > 0 then 1 else 0)
      && (forall i :: 0 <= i < |before| ==> rows[i] == before[i])
      && (counts[n - 1] > 0 ==> rows[|before|] == HourRow(counts, totals, n - 1, timeFormat))
  {
  }

  /** Each row is that of an hour before `n` with slots, labelled with its hour's text. */
  lemma {:induction false} HourRowsFields(counts: seq<nat>, totals: seq<nat>, n: nat, timeFormat: TimeFormat)
    requires n <= 24 && |counts| == 24 && |totals| == 24
    ensures forall i :: 0 <= i < |HourRows(counts, totals, n, timeFormat)| ==>
      var r := HourRows(counts, totals, n, timeFormat)[i];
      && r.hour < n && counts[r.hour] > 0 && r == HourRow(counts, totals, r.hour, timeFormat)
  {
    if n > 0 {
      HourRowsFields(counts, totals, n - 1, timeFormat);
      HourRowsLast(counts, totals, n, timeFormat);
    }
  }

  /** The rows come in strictly increasing hour order. */
  lemma {:induction false} HourRowsAscending(counts: seq<nat>, totals: seq<nat>, n: nat, timeFormat: TimeFormat)
    requires n <= 24 && |counts| == 24 && |totals| == 24
    ensures forall i, j :: 0 <= i < j < |HourRows(counts, totals, n, timeFormat)| ==>
      HourRows(counts, totals, n, timeFormat)[i].hour < HourRows(counts, totals, n, timeFormat)[j].hour
  {
    if n > 0 {
      HourRowsAscending(counts, totals, n - 1, timeFormat);
      HourRowsFields(counts, totals, n - 1, timeFormat);
      HourRowsLast(counts, totals, n, timeFormat);
    }
  }

  /** Every hour before `n` with slots has its row. */
  lemma {:induction false} HourRowsComplete(counts: seq<nat>, totals: seq<nat>, n: nat, h: nat, timeFormat: TimeFormat)
    requires n <= 24 && |counts| == 24 && |totals| == 24
    requires h < n && counts[h] > 0
    ensures HourRow(counts, totals, h, timeFormat) in HourRows(counts, totals, n, timeFormat)
  {
    HourRowsLast(counts, totals, n, timeFormat);
    var before := HourRows(counts, totals, n - 1, timeFormat);
    if h < n - 1 {
      HourRowsComplete(counts, totals, n - 1, h, timeFormat);
      var i :| 0 <= i < |before| && before[i] == HourRow(counts, totals, h, timeFormat);
      assert HourRows(counts, totals, n, timeFormat)[i] == before[i];
    } else {
      assert HourRows(counts, totals, n, timeFormat)[|before|] == HourRow(counts, totals, h, timeFormat);
    }
  }

  /**
   * Before sorting, the rows are exactly one per hour with slots, in
   * increasing hour order, each labelled with its hour's text.
   */
  lemma HourRowsMeaning(counts: seq<nat>, totals: seq<nat>, n: nat, timeFormat: TimeFormat)
    requires n <= 24 && |counts| == 24 && |totals| == 24
    ensures forall r :: r in HourRows(counts, totals, n, timeFormat) <==>
      exists h :: 0 <= h < n && counts[h] > 0 && r == HourRow(counts, totals, h, timeFormat)
    ensures forall i, j :: 0 <= i < j < |HourRows(counts, totals, n, timeFormat)| ==>
      HourRows(counts, totals, n, timeFormat)[i].hour < HourRows(counts, totals, n, timeFormat)[j].hour
    ensures forall i :: 0 <= i < |HourRows(counts, totals, n, timeFormat)| ==>
      var r := HourRows(counts, totals, n, timeFormat)[i];
      r.hour < n && r.text == HourLabel(r.hour, timeFormat) && r.totalSlots > 0
  {
    var rows := HourRows(counts, totals, n, timeFormat);
    HourRowsFields(counts, totals, n, timeFormat);
    HourRowsAscending(counts, totals, n, timeFormat);
    forall r
      ensures r in rows <==> exists h :: 0 <= h < n && counts[h] > 0 && r == HourRow(counts, totals, h, timeFormat)
    {
      if r in rows {
        var i :| 0 <= i < |rows| && rows[i] == r;
        assert 0 <= r.hour < n && counts[r.hour] > 0 && r == HourRow(counts, totals, r.hour, timeFormat);
      }
      if exists h :: 0 <= h < n && counts[h] > 0 && r == HourRow(counts, totals, h, timeFormat) {
        var h :| 0 <= h < n && counts[h] > 0 && r == HourRow(counts, totals, h, timeFormat);
        HourRowsComplete(counts, totals, n, h, timeFormat);
      }
    }
  }

  function HourRank(p: PeakHourMetric): Rank
  {
    Rank(p.avgParticipants, 0.0)
  }

  /** `peakHours`: the hour rows sorted by average, descending, and none without timed events. */
  function PeakHours(counts: seq<nat>, totals: seq<nat>, timeFormat: TimeFormat, hasTimeEvents: bool): seq<PeakHourMetric>
    requires |counts| == 24 && |totals| == 24
  {
    if hasTimeEvents then SortDesc(HourRows(counts, totals, 24, timeFormat), HourRank) else []
  }

  /**
   * The peak hours are empty without timed events; otherwise they hold the
   * hour rows, each once, sorted by average descending, and hours of equal
   * average keep their order in the rows, which is increasing hour order.
   */
  lemma PeakHoursMeaning(counts: seq<nat>, totals: seq<nat>, timeFormat: TimeFormat, hasTimeEvents: bool)
    requires |counts| == 24 && |totals| == 24
    ensures var peak, rows := PeakHours(counts, totals, timeFormat, hasTimeEvents), HourRows(counts, totals, 24, timeFormat);
      && (!hasTimeEvents ==> peak == [])
      && (hasTimeEvents ==>
        && multiset(peak) == multiset(rows)
        && (forall i, j :: 0 <= i < j < |peak| ==> peak[j].avgParticipants <= peak[i].avgParticipants)
        && (forall r :: WithRank(peak, HourRank, r) == WithRank(rows, HourRank, r)))
  {
    if hasTimeEvents {
      var rows := HourRows(counts, totals, 24, timeFormat);
      var peak := SortDesc(rows, HourRank);
      SortDescSorted(rows, HourRank);
      SortDescPermutation(rows, HourRank);
      forall i, j | 0 <= i < j < |peak|
        ensures peak[j].avgParticipants <= peak[i].avgParticipants
      {
        assert !Above(HourRank(peak[j]), HourRank(peak[i]));
      }
      forall r {
        SortDescStable(rows, HourRank, r);
      }
    }
  }
}
