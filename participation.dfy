/**
 * The ranges of best participation: the slots at the maximal participant
 * count (earliest and latest), the slots where everyone is available
 * ("common ranges"), and the longest common range.
 */
module Participation {
  import opened Wrappers
  import opened Time
  import opened Numeric
  import opened CalendarStore
  import opened Participants
  import opened SlotIndex
  import opened SlotStats
  import opened Ranges
  import opened Ranking

  /** The ranges `groupConsecutiveSlots` makes of the slots holding exactly `target` participants. */
  function RangesWithSize(idx: Index, keys: seq<int>, target: nat): seq<DateRange>
  {
    RangesOf(Runs(WithSize(idx, keys, |keys|, target), Consecutive))
  }

  /** `xs[0]`, null for an empty list. */
  function FirstOf<T>(xs: seq<T>): Option<T>
  {
    if xs == [] then None else Some(xs[0])
  }

  /** `xs.at(-1)`, null for an empty list. */
  function LastOf<T>(xs: seq<T>): Option<T>
  {
    if xs == [] then None else Some(xs[|xs| - 1])
  }

  /**
   * `earliestDate` and `latestDate`: with `m` the largest participant count,
   * the earliest and the latest slot that reach it; both are null exactly
   * when no slot is covered.
   */
  lemma MaxKeysMeaning(idx: Index, keys: seq<int>, m: nat)
    requires IsKeyOrder(idx, keys)
    requires forall k :: k in idx ==> |idx[k]| <= m
    requires |idx| > 0 ==> exists k :: k in idx && |idx[k]| == m
    ensures var maxKeys := WithSize(idx, keys, |keys|, m);
      && (FirstOf(maxKeys) == None <==> |idx| == 0)
      && (LastOf(maxKeys) == None <==> |idx| == 0)
    ensures var maxKeys := WithSize(idx, keys, |keys|, m);
      |idx| > 0 ==>
        var earliest, latest := FirstOf(maxKeys).value, LastOf(maxKeys).value;
        && earliest in idx && |idx[earliest]| == m
        && latest in idx && |idx[latest]| == m
        && (forall k :: k in idx && |idx[k]| == m ==> earliest <= k <= latest)
  {
    var maxKeys := WithSize(idx, keys, |keys|, m);
    KeysWithSizeMeaning(idx, keys, m);
    if |idx| > 0 {
      var w :| w in idx && |idx[w]| == m;
      assert w in maxKeys;
      var earliest, latest := maxKeys[0], maxKeys[|maxKeys| - 1];
      assert earliest in maxKeys && latest in maxKeys;
      forall k | k in idx && |idx[k]| == m
        ensures earliest <= k <= latest
      {
        assert k in maxKeys;
        var i :| 0 <= i < |maxKeys| && maxKeys[i] == k;
        assert i == 0 || maxKeys[0] < maxKeys[i];
        assert i == |maxKeys| - 1 || maxKeys[i] < maxKeys[|maxKeys| - 1];
      }
    }
  }

  /**
   * `earliestRange` and `latestRange`: the first range of the slots at the
   * largest count starts at the earliest such slot, and the last range ends
   * one slot after the latest; both are null exactly when no slot is covered.
   */
  lemma MaxRangesMeaning(idx: Index, keys: seq<int>, m: nat)
    requires IsKeyOrder(idx, keys)
    requires forall k :: k in idx ==> |idx[k]| <= m
    requires |idx| > 0 ==> exists k :: k in idx && |idx[k]| == m
    ensures var maxKeys := WithSize(idx, keys, |keys|, m);
      && (FirstOf(RangesWithSize(idx, keys, m)) == None <==> |idx| == 0)
      && (LastOf(RangesWithSize(idx, keys, m)) == None <==> |idx| == 0)
      && (|idx| > 0 ==>
        && FirstOf(RangesWithSize(idx, keys, m)).value.start == FirstOf(maxKeys).value
        && LastOf(RangesWithSize(idx, keys, m)).value.end == LastOf(maxKeys).value + SLOT_MS)
  {
    var maxKeys := WithSize(idx, keys, |keys|, m);
    MaxKeysMeaning(idx, keys, m);
    var runs := Runs(maxKeys, Consecutive);
    if |idx| > 0 {
      RunsFirst(maxKeys, Consecutive);
      RangesOfIndex(runs, 0);
      RangesOfIndex(runs, |runs| - 1);
    }
  }

  /**
   * The four date fields of the largest participation together: null
   * exactly when no slot is covered, and otherwise the earliest and latest
   * slots at the largest count and the ranges that start and end there.
   */
  lemma MaxParticipationMeaning(idx: Index, keys: seq<int>, m: nat)
    requires IsKeyOrder(idx, keys)
    requires forall k :: k in idx ==> |idx[k]| <= m
    requires |idx| > 0 ==> exists k :: k in idx && |idx[k]| == m
    ensures var maxKeys := WithSize(idx, keys, |keys|, m);
      && (FirstOf(maxKeys) == None <==> |idx| == 0)
      && (LastOf(maxKeys) == None <==> |idx| == 0)
      && (FirstOf(RangesWithSize(idx, keys, m)) == None <==> |idx| == 0)
      && (LastOf(RangesWithSize(idx, keys, m)) == None <==> |idx| == 0)
    ensures var maxKeys := WithSize(idx, keys, |keys|, m);
      |idx| > 0 ==>
        var earliest, latest := FirstOf(maxKeys).value, LastOf(maxKeys).value;
        && earliest in idx && |idx[earliest]| == m
        && latest in idx && |idx[latest]| == m
        && (forall k :: k in idx && |idx[k]| == m ==> earliest <= k <= latest)
        && FirstOf(RangesWithSize(idx, keys, m)).value.start == earliest
        && LastOf(RangesWithSize(idx, keys, m)).value.end == latest + SLOT_MS
  {
    MaxKeysMeaning(idx, keys, m);
    MaxRangesMeaning(idx, keys, m);
  }

  /**
   * `everyoneAvailable`: there is a common range iff some slot holds all
   * `totalParticipants` participants.
   */
  lemma EveryoneAvailable(events: seq<CalendarEvent>, keys: seq<int>)
    requires IsKeyOrder(IndexOf(events), keys)
    ensures var idx, total := IndexOf(events), |FirstSeen(Titles(events))|;
      RangesWithSize(idx, keys, total) != [] <==> exists k :: k in idx && |idx[k]| == total
  {
    var idx, total := IndexOf(events), |FirstSeen(Titles(events))|;
    var common := WithSize(idx, keys, |keys|, total);
    KeysWithSizeMeaning(idx, keys, total);
    var runs := Runs(common, Consecutive);
    if runs != [] {
      RangesOfIndex(runs, 0);
      assert common[0] in common;
    }
  }

  /** A slot holding `totalParticipants` participants holds every title: everyone is available. */
  lemma EveryoneMeansAll(events: seq<CalendarEvent>, k: int)
    requires k in IndexOf(events) && |IndexOf(events)[k]| == |FirstSeen(Titles(events))|
    ensures IndexOf(events)[k] == set x | x in Titles(events)
  {
    var all := set x | x in Titles(events);
    assert |all| == |FirstSeen(Titles(events))| by {
      DistinctCardinality(FirstSeen(Titles(events)));
      assert all == set x | x in FirstSeen(Titles(events));
    }
    IndexValues(events, k);
    assert all == IndexOf(events)[k] + (all - IndexOf(events)[k]);
  }

  /** A range's length in milliseconds, the quantity `reduce` compares. */
  function Duration(r: DateRange): real
  {
    (r.end - r.start) as real
  }

  /** `longest`: the first common range of maximal duration, null when there is none. */
  function Longest(ranges: seq<DateRange>): Option<DateRange>
  {
    if ranges == [] then None else Some(ranges[FirstMaxIndex(ranges, Duration)])
  }

  /** `longestDurationMinutes`: `Math.round` of the longest range in minutes, 0 without one. */
  function LongestMinutes(longest: Option<DateRange>): int
  {
    if longest.Some? then RoundDiv(longest.value.end - longest.value.start, MINUTE_MS) else 0
  }

  /**
   * Each common range is a whole number of slots long, so its length in
   * minutes is exact: a positive multiple of 15.
   */
  lemma RangeMinutes(xs: seq<int>, i: nat)
    requires i < |Runs(xs, Consecutive)|
    ensures var r := RangeOf(Runs(xs, Consecutive)[i]);
      && LongestMinutes(Some(r)) * MINUTE_MS == r.end - r.start
      && LongestMinutes(Some(r)) % SLOT_MINUTES == 0
      && LongestMinutes(Some(r)) >= SLOT_MINUTES
  {
    var runs := Runs(xs, Consecutive);
    RunOfRuns(xs, Consecutive, i);
    RangeOfRun(runs[i], Consecutive);
    var q := |runs[i]| * SLOT_MINUTES;
    assert RangeOf(runs[i]).end - RangeOf(runs[i]).start == q * MINUTE_MS;
    RoundDivExact(q, MINUTE_MS);
  }

  /**
   * The longest common range is a range of the list, at least as long as
   * every range and longer than every range before it, and its length in
   * minutes is exact; without ranges there is none and the length is 0.
   */
  lemma LongestMeaning(xs: seq<int>)
    ensures var ranges := RangesOf(Runs(xs, Consecutive));
      && (Longest(ranges) == None <==> xs == [])
      && (xs == [] ==> LongestMinutes(Longest(ranges)) == 0)
    ensures var ranges := RangesOf(Runs(xs, Consecutive));
      xs != [] ==>
        var best := Longest(ranges).value;
        && (forall j :: 0 <= j < |ranges| ==> Duration(ranges[j]) <= Duration(best))
        && (exists i :: 0 <= i < |ranges| && ranges[i] == best
              && forall j :: 0 <= j < i ==> Duration(ranges[j]) < Duration(best))
        && LongestMinutes(Longest(ranges)) * MINUTE_MS == best.end - best.start
        && LongestMinutes(Longest(ranges)) % SLOT_MINUTES == 0
        && LongestMinutes(Longest(ranges)) >= SLOT_MINUTES
  {
    var runs := Runs(xs, Consecutive);
    var ranges := RangesOf(runs);
    if xs != [] {
      RangesOfIndex(runs, 0);
      var i := FirstMaxIndex(ranges, Duration);
      RangesOfIndex(runs, i);
      RangeMinutes(xs, i);
    }
  }
}
