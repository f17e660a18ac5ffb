/**
 * Meeting windows: maximal runs of consecutive slots that share one
 * participant set, ranked by participant count and then duration, and the
 * most frequent window duration (`optimalMeetingMinutes`).
 */
module MeetingWindows {
  import opened Time
  import opened Ranges
  import opened SlotIndex
  import opened SlotStats
  import opened Ranking
  import opened Participants

  /**
   * `MeetingWindow`.  The source keeps the participants as an array in the
   * insertion order of the slot's set; here they are the set itself.
   */
  datatype MeetingWindow = MeetingWindow(range: DateRange, participants: set<string>, count: nat, durationMinutes: nat)

  /** The participants of slot `k`, nobody for a slot outside the index. */
  function ParticipantsAt(idx: Index, k: int): set<string>
  {
    if k in idx then idx[k] else {}
  }

  /** `pushMeetingWindow`: the window of a tracker holding slot keys `keys` and participant set `parts`. */
  function WindowOf(keys: seq<int>, parts: set<string>): MeetingWindow
    requires keys != []
  {
    MeetingWindow(RangeOf(keys), parts, |parts|, |keys| * SLOT_MINUTES)
  }

  /** The window of each run, labelled with the participants of its first slot. */
  function WindowsOf(idx: Index, runs: seq<seq<int>>): (ws: seq<MeetingWindow>)
    requires NonEmptyRuns(runs)
    ensures |ws| == |runs|
  {
    if runs == [] then []
    else
      var run := runs[|runs| - 1];
      WindowsOf(idx, runs[..|runs| - 1]) + [WindowOf(run, ParticipantsAt(idx, run[0]))]
  }

  /** The windows the tracker loop builds: one per maximal run of same-set consecutive slots. */
  function MeetingWindowsOf(idx: Index, keys: seq<int>): seq<MeetingWindow>
  {
    WindowsOf(idx, Runs(keys, SameSetConsecutive(idx)))
  }

  /** The tracker's continuation test, equal size and inclusion, is set equality. */
  lemma SameSizeSubset(a: set<string>, b: set<string>)
    ensures (|a| == |b| && a <= b) <==> a == b
  {
    if a <= b && a != b {
      assert b == a + (b - a);
      var x :| x in b && x !in a;
      assert x in b - a;
    }
  }

  /** One more key either extends the last run or starts a new one. */
  lemma RunsSnoc(xs: seq<int>, x: int, rule: JoinRule)
    ensures var r := Runs(xs, rule);
      Runs(xs + [x], rule) ==
        if r == [] then [[x]]
        else if Joins(rule, Last(xs), x) then r[..|r| - 1] + [r[|r| - 1] + [x]]
        else r + [[x]]
  {
    assert (xs + [x])[..|xs|] == xs;
  }

  lemma WindowsOfSnoc(idx: Index, runs: seq<seq<int>>, run: seq<int>)
    requires NonEmptyRuns(runs) && run != []
    ensures NonEmptyRuns(runs + [run])
    ensures WindowsOf(idx, runs + [run]) == WindowsOf(idx, runs) + [WindowOf(run, ParticipantsAt(idx, run[0]))]
  {
    assert (runs + [run])[..|runs|] == runs;
  }

  /**
   * The tracker after `i > 0` keys: the windows of all runs but the last
   * are pushed, and the current window holds the last run with the
   * participants of its slots.
   */
  ghost predicate Tracking(idx: Index, keys: seq<int>, i: nat, windows: seq<MeetingWindow>,
                           windowKeys: seq<int>, windowParts: set<string>)
    requires 0 < i <= |keys|
  {
    var runs := Runs(keys[..i], SameSetConsecutive(idx));
    && windows == WindowsOf(idx, runs[..|runs| - 1])
    && windowKeys == runs[|runs| - 1]
    && windowParts == ParticipantsAt(idx, windowKeys[0])
    && windowParts == ParticipantsAt(idx, keys[i - 1])
    && windowKeys != [] && Last(windowKeys) == keys[i - 1]
  }

  lemma TrackingStart(idx: Index, keys: seq<int>)
    requires keys != []
    ensures Tracking(idx, keys, 1, [], [keys[0]], ParticipantsAt(idx, keys[0]))
  {
    assert keys[..1] == [] + [keys[0]];
    RunsSnoc([], keys[0], SameSetConsecutive(idx));
  }

  /** A key one slot on with the same participants extends the current window. */
  lemma TrackingExtend(idx: Index, keys: seq<int>, i: nat, windows: seq<MeetingWindow>,
                       windowKeys: seq<int>, windowParts: set<string>)
    requires 0 < i < |keys| && keys[i - 1] in idx && keys[i] in idx
    requires Tracking(idx, keys, i, windows, windowKeys, windowParts)
    requires windowParts == idx[keys[i]] && IsConsecutiveSlot(Last(windowKeys), keys[i])
    ensures Tracking(idx, keys, i + 1, windows, windowKeys + [keys[i]], windowParts)
  {
    var rule := SameSetConsecutive(idx);
    assert keys[..i + 1] == keys[..i] + [keys[i]];
    RunsSnoc(keys[..i], keys[i], rule);
    assert Last(keys[..i]) == keys[i - 1];
    assert Joins(rule, keys[i - 1], keys[i]);
  }

  /** Any other key closes the current window and opens a new one. */
  lemma TrackingSplit(idx: Index, keys: seq<int>, i: nat, windows: seq<MeetingWindow>,
                      windowKeys: seq<int>, windowParts: set<string>)
    requires 0 < i < |keys| && keys[i - 1] in idx && keys[i] in idx
    requires Tracking(idx, keys, i, windows, windowKeys, windowParts)
    requires !(windowParts == idx[keys[i]] && IsConsecutiveSlot(Last(windowKeys), keys[i]))
    ensures Tracking(idx, keys, i + 1, windows + [WindowOf(windowKeys, windowParts)], [keys[i]], idx[keys[i]])
  {
    var rule := SameSetConsecutive(idx);
    var r := Runs(keys[..i], rule);
    assert keys[..i + 1] == keys[..i] + [keys[i]];
    RunsSnoc(keys[..i], keys[i], rule);
    assert Last(keys[..i]) == keys[i - 1];
    assert !Joins(rule, keys[i - 1], keys[i]);
    assert r == r[..|r| - 1] + [windowKeys];
    WindowsOfSnoc(idx, r[..|r| - 1], windowKeys);
    assert (r + [[keys[i]]])[..|r|] == r;
  }

  /** After the last key, pushing the current window completes the windows. */
  lemma TrackingFinish(idx: Index, keys: seq<int>, windows: seq<MeetingWindow>,
                       windowKeys: seq<int>, windowParts: set<string>)
    requires keys != []
    requires Tracking(idx, keys, |keys|, windows, windowKeys, windowParts)
    ensures windows + [WindowOf(windowKeys, windowParts)] == MeetingWindowsOf(idx, keys)
  {
    var r := Runs(keys, SameSetConsecutive(idx));
    assert keys[..|keys|] == keys;
    assert r == r[..|r| - 1] + [windowKeys];
    WindowsOfSnoc(idx, r[..|r| - 1], windowKeys);
  }

  /**
   * The meeting-window loop.  A slot continues the current window when it
   * is one slot after the window's last slot and has a participant set of
   * the same size that contains every participant of the window; otherwise
   * the window is pushed and a new one starts.
   */
  method BuildMeetingWindows(idx: Index, keys: seq<int>) returns (windows: seq<MeetingWindow>)
    requires IsKeyOrder(idx, keys)
    ensures windows == MeetingWindowsOf(idx, keys)
  {
    windows := [];
    var hasWindow := false;
    var windowKeys: seq<int> := [];
    var windowParts: set<string> := {};
    for i := 0 to |keys|
      invariant hasWindow <==> i > 0
      invariant hasWindow ==> windowKeys != [] && Tracking(idx, keys, i, windows, windowKeys, windowParts)
      invariant !hasWindow ==> windows == []
    {
      var key := keys[i];
      var availableSet := idx[key];
      var isContinuation := hasWindow
        && |windowParts| == |availableSet|
        && windowParts <= availableSet
        && IsConsecutiveSlot(windowKeys[|windowKeys| - 1], key);
      SameSizeSubset(windowParts, availableSet);
      if isContinuation {
        assert keys[i - 1] in idx;
        TrackingExtend(idx, keys, i, windows, windowKeys, windowParts);
        windowKeys := windowKeys + [key];
      } else {
        if hasWindow && |windowKeys| > 0 {
          assert keys[i - 1] in idx;
          TrackingSplit(idx, keys, i, windows, windowKeys, windowParts);
          windows := windows + [WindowOf(windowKeys, windowParts)];
        } else {
          TrackingStart(idx, keys);
        }
        hasWindow, windowKeys, windowParts := true, [key], availableSet;
      }
    }
    if hasWindow && |windowKeys| > 0 {
      TrackingFinish(idx, keys, windows, windowKeys, windowParts);
      windows := windows + [WindowOf(windowKeys, windowParts)];
    } else {
      assert Runs(keys, SameSetConsecutive(idx)) == [];
    }
  }

  lemma {:induction false} WindowsOfIndex(idx: Index, runs: seq<seq<int>>, i: nat)
    requires NonEmptyRuns(runs) && i < |runs|
    ensures WindowsOf(idx, runs)[i] == WindowOf(runs[i], ParticipantsAt(idx, runs[i][0]))
  {
    if i < |runs| - 1 {
      WindowsOfIndex(idx, runs[..|runs| - 1], i);
    }
  }

  /** Every slot of a same-set run has the participant set of the run's first slot. */
  lemma {:induction false} RunSameSet(idx: Index, run: seq<int>, m: nat)
    requires m < |run|
    requires forall j :: 0 <= j < |run| - 1 ==> Joins(SameSetConsecutive(idx), run[j], run[j + 1])
    requires run[0] in idx
    ensures run[m] in idx && idx[run[m]] == idx[run[0]]
  {
    if m > 0 {
      RunSameSet(idx, run, m - 1);
      assert Joins(SameSetConsecutive(idx), run[m - 1], run[m]);
    }
  }

  /**
   * What a window means: its count is its number of participants, its
   * range is `durationMinutes` long, and every slot in its range is in the
   * index with exactly the window's participants.
   */
  lemma WindowMeaning(idx: Index, keys: seq<int>, i: nat, k: int)
    requires IsKeyOrder(idx, keys)
    requires forall k :: k in idx ==> k % SLOT_MS == 0
    requires i < |MeetingWindowsOf(idx, keys)|
    ensures var w := MeetingWindowsOf(idx, keys)[i];
      && w.count == |w.participants|
      && w.range.end - w.range.start == w.durationMinutes * MINUTE_MS
      && (k % SLOT_MS == 0 && w.range.start <= k < w.range.end ==> k in idx && idx[k] == w.participants)
  {
    var rule := SameSetConsecutive(idx);
    var runs := Runs(keys, rule);
    WindowsOfIndex(idx, runs, i);
    RunOfRuns(keys, rule, i);
    var run := runs[i];
    assert run[0] in run && run[0] in keys && run[0] in idx;
    assert run[0] % SLOT_MS == 0;
    RangeOfRun(run, rule);
    assert |run| * SLOT_MINUTES * MINUTE_MS == |run| * SLOT_MS;
    if k % SLOT_MS == 0 && RangeOf(run).start <= k < RangeOf(run).end {
      assert k in run;
      var m :| 0 <= m < |run| && run[m] == k;
      RunSameSet(idx, run, m);
    }
  }

  /**
   * Windows are maximal: two neighbouring windows either leave a gap
   * between them or have different participants.
   */
  lemma WindowsMaximal(idx: Index, keys: seq<int>, i: nat)
    requires IsKeyOrder(idx, keys)
    requires i + 1 < |MeetingWindowsOf(idx, keys)|
    ensures var ws := MeetingWindowsOf(idx, keys);
      ws[i].range.end != ws[i + 1].range.start || ws[i].participants != ws[i + 1].participants
  {
    var rule := SameSetConsecutive(idx);
    var runs := Runs(keys, rule);
    WindowsOfIndex(idx, runs, i);
    WindowsOfIndex(idx, runs, i + 1);
    RunOfRuns(keys, rule, i);
    RunsBoundary(keys, rule, i);
    var a, b := runs[i], runs[i + 1];
    assert a[0] in a;
    RunSameSet(idx, a, |a| - 1);
  }

  /** The summed durations of the windows. */
  function TotalMinutes(ws: seq<MeetingWindow>): nat
  {
    if ws == [] then 0 else TotalMinutes(ws[..|ws| - 1]) + ws[|ws| - 1].durationMinutes
  }

  lemma {:induction false} TotalMinutesOfRuns(idx: Index, runs: seq<seq<int>>)
    requires NonEmptyRuns(runs)
    ensures TotalMinutes(WindowsOf(idx, runs)) == TotalLength(runs) * SLOT_MINUTES
  {
    if runs != [] {
      var front := runs[..|runs| - 1];
      TotalMinutesOfRuns(idx, front);
      assert WindowsOf(idx, runs)[..|runs| - 1] == WindowsOf(idx, front);
    }
  }

  /** The windows split the covered slots among them: their durations add up to every covered slot once. */
  lemma WindowsCoverAllSlots(idx: Index, keys: seq<int>)
    ensures TotalMinutes(MeetingWindowsOf(idx, keys)) == |keys| * SLOT_MINUTES
  {
    var runs := Runs(keys, SameSetConsecutive(idx));
    RunsArePartition(keys, SameSetConsecutive(idx));
    FlattenLength(runs);
    TotalMinutesOfRuns(idx, runs);
  }

  /** The comparator of the window sort: participant count first, then duration, both descending. */
  function WindowRank(w: MeetingWindow): Rank
  {
    Rank(w.count as real, w.durationMinutes as real)
  }

  /** `meetingWindows` after its in-place sort: by participant count, then duration, both descending. */
  function SortedWindows(ws: seq<MeetingWindow>): seq<MeetingWindow>
  {
    SortDesc(ws, WindowRank)
  }

  /** `meetingWindows.slice(0, 5)` after the sort. */
  function TopWindows(ws: seq<MeetingWindow>): seq<MeetingWindow>
  {
    var sorted := SortedWindows(ws);
    sorted[..if |sorted| < 5 then |sorted| else 5]
  }

  /**
   * The top windows are at most five of the windows, and no window left
   * out outranks one that was kept.
   */
  lemma TopWindowsBest(ws: seq<MeetingWindow>)
    ensures var top, sorted := TopWindows(ws), SortedWindows(ws);
      && |top| == (if |ws| < 5 then |ws| else 5)
      && multiset(sorted) == multiset(ws)
      && (forall w :: w in top ==> w in ws)
      && forall i, j :: 0 <= i < |top| <= j < |sorted| ==> !Above(WindowRank(sorted[j]), WindowRank(top[i]))
  {
    var sorted := SortDesc(ws, WindowRank);
    SortDescSorted(ws, WindowRank);
    SortDescPermutation(ws, WindowRank);
    forall w | w in TopWindows(ws)
      ensures w in ws
    {
      assert w in sorted;
      assert w in multiset(sorted);
    }
  }

  /** `window.durationMinutes` of each window, in order. */
  function Durations(ws: seq<MeetingWindow>): (ds: seq<int>)
    ensures |ds| == |ws|
    ensures forall i :: 0 <= i < |ws| ==> ds[i] == ws[i].durationMinutes
  {
    seq(|ws|, i requires 0 <= i < |ws| => ws[i].durationMinutes)
  }

  /**
   * The `durationCounts` loop: how often each duration occurs, with the
   * durations in the order the map first meets them.
   */
  method CountDurations(windows: seq<MeetingWindow>) returns (durationCounts: map<int, nat>, order: seq<int>)
    ensures order == FirstSeen(Durations(windows))
    ensures forall d :: d in durationCounts <==> d in order
    ensures forall d :: d in durationCounts ==> durationCounts[d] == multiset(Durations(windows))[d]
  {
    ghost var ds := Durations(windows);
    durationCounts := map[];
    order := [];
    for i := 0 to |windows|
      invariant order == FirstSeen(ds[..i])
      invariant forall d :: d in durationCounts <==> d in order
      invariant forall d :: d in durationCounts ==> durationCounts[d] == multiset(ds[..i])[d]
    {
      var mins := windows[i].durationMinutes;
      assert mins == ds[i];
      assert ds[..i + 1] == ds[..i] + [mins];
      FirstSeenStep(ds[..i], mins);
      ghost var before, prev := multiset(ds[..i]), durationCounts;
      ghost var counted := multiset(ds[..i + 1]);
      assert counted == before + multiset{mins};
      var current := if mins in durationCounts then durationCounts[mins] else 0;
      assert current == before[mins];
      if mins !in durationCounts {
        order := order + [mins];
      }
      durationCounts := durationCounts[mins := current + 1];
      forall d | d in durationCounts
        ensures durationCounts[d] == counted[d]
      {
        if d != mins {
          assert durationCounts[d] == prev[d] == before[d] == counted[d];
        }
      }
    }
    assert ds[..|windows|] == ds;
  }

  /** The comparator score of a duration: how often it occurs among `ds`. */
  function Frequency(ds: seq<int>): int -> real
  {
    d => multiset(ds)[d] as real
  }

  /**
   * The optimal meeting length of a duration list: the first duration, in
   * order of first occurrence in `ds`, whose frequency no other duration
   * exceeds; one slot's length when there are no windows.  The engine
   * counts over the windows after their in-place sort, so `ds` is the
   * durations of `SortedWindows` and ties go to the duration met first in
   * that order.
   */
  function OptimalOf(ds: seq<int>): int
  {
    if ds == [] then SLOT_MINUTES
    else
      var order := FirstSeen(ds);
      assert ds[0] in order;
      order[FirstMaxIndex(order, Frequency(ds))]
  }

  /**
   * The optimal length is the most frequent duration, ties going to the
   * duration met first.
   */
  lemma OptimalIsMostFrequent(ds: seq<int>)
    ensures var best := OptimalOf(ds);
      && (ds == [] ==> best == SLOT_MINUTES)
      && (ds != [] ==> best in ds)
      && (forall d :: d in ds ==> multiset(ds)[d] <= multiset(ds)[best])
      && (forall d :: d in ds && multiset(ds)[d] == multiset(ds)[best] ==> FirstIndex(ds, best) <= FirstIndex(ds, d))
  {
    if ds != [] {
      var order := FirstSeen(ds);
      assert ds[0] in order;
      var t := FirstMaxIndex(order, Frequency(ds));
      var best := order[t];
      FirstSeenOrder(ds);
      forall d | d in ds
        ensures multiset(ds)[d] <= multiset(ds)[best]
        ensures multiset(ds)[d] == multiset(ds)[best] ==> FirstIndex(ds, best) <= FirstIndex(ds, d)
      {
        var l :| 0 <= l < |order| && order[l] == d;
        assert Frequency(ds)(order[l]) <= Frequency(ds)(order[t]);
        if l < t {
          assert Frequency(ds)(order[l]) < Frequency(ds)(order[t]);
        } else if t < l {
          assert FirstIndex(ds, order[t]) < FirstIndex(ds, order[l]);
        }
      }
    }
  }

  /** `optimalMeetingMinutes`: the loop over `durationCounts` keeping the first strictly larger frequency. */
  method OptimalMeetingMinutes(windows: seq<MeetingWindow>) returns (best: int)
    ensures best == OptimalOf(Durations(windows))
  {
    ghost var ds := Durations(windows);
    var durationCounts, order := CountDurations(windows);
    best := SLOT_MINUTES;
    var maxFrequency := 0;
    for j := 0 to |order|
      invariant j == 0 ==> best == SLOT_MINUTES && maxFrequency == 0
      invariant j > 0 ==> best == order[FirstMaxIndex(order[..j], Frequency(ds))] && maxFrequency == multiset(ds)[best]
    {
      var mins := order[j];
      assert mins in order && mins in ds;
      var freq := durationCounts[mins];
      FirstMaxIndexStep(order, Frequency(ds), j);
      if freq > maxFrequency {
        maxFrequency := freq;
        best := mins;
      }
    }
    assert order[..|order|] == order;
    if ds != [] {
      assert ds[0] in order;
    }
  }

  /** Listing the durations commutes with concatenation. */
  lemma DurationsAppend(xs: seq<MeetingWindow>, ys: seq<MeetingWindow>)
    ensures Durations(xs + ys) == Durations(xs) + Durations(ys)
  {
  }

  /** Reordering the windows reorders their durations: how often each duration occurs is unchanged. */
  lemma {:induction false} DurationsPermutation(xs: seq<MeetingWindow>, ys: seq<MeetingWindow>)
    requires multiset(xs) == multiset(ys)
    ensures multiset(Durations(xs)) == multiset(Durations(ys))
    decreases |xs|
  {
    if xs == [] {
      assert |ys| == |multiset(ys)| == 0;
    } else {
      var x := xs[0];
      assert x in multiset(ys);
      var i :| 0 <= i < |ys| && ys[i] == x;
      var rest := ys[..i] + ys[i + 1..];
      assert ys == ys[..i] + [x] + ys[i + 1..];
      assert xs == [x] + xs[1..];
      assert multiset(ys) == multiset(ys[..i]) + multiset{x} + multiset(ys[i + 1..]);
      assert multiset(xs) == multiset{x} + multiset(xs[1..]);
      assert multiset(rest) == multiset(ys[..i]) + multiset(ys[i + 1..]);
      assert multiset(xs[1..]) == multiset(xs) - multiset{x};
      assert multiset(rest) == multiset(ys) - multiset{x};
      DurationsPermutation(xs[1..], rest);
      DurationsAppend([x], xs[1..]);
      DurationsAppend(ys[..i] + [x], ys[i + 1..]);
      DurationsAppend(ys[..i], [x]);
      DurationsAppend(ys[..i], ys[i + 1..]);
    }
  }

  /**
   * `optimalMeetingMinutes` as the engine computes it, over the sorted
   * windows: 15 without windows; otherwise a duration of some window that no
   * other duration outnumbers, counted over all windows, with ties going to
   * the duration met first in the sorted list.
   */
  lemma OptimalOfSortedWindows(ws: seq<MeetingWindow>)
    ensures var ds, sortedDs := Durations(ws), Durations(SortedWindows(ws));
      var best := OptimalOf(sortedDs);
      && (ws == [] ==> best == SLOT_MINUTES)
      && (ws != [] ==> best in ds)
      && (forall d :: d in ds ==> multiset(ds)[d] <= multiset(ds)[best])
      && (ws != [] ==> best in sortedDs && forall d :: d in sortedDs && multiset(ds)[d] == multiset(ds)[best] ==>
            FirstIndex(sortedDs, best) <= FirstIndex(sortedDs, d))
  {
    var ds, sortedDs := Durations(ws), Durations(SortedWindows(ws));
    SortDescPermutation(ws, WindowRank);
    DurationsPermutation(SortedWindows(ws), ws);
    OptimalIsMostFrequent(sortedDs);
    assert forall d :: d in ds <==> d in sortedDs by {
      forall d
        ensures d in ds <==> d in multiset(ds)
        ensures d in sortedDs <==> d in multiset(sortedDs)
      {
      }
    }
  }
}
