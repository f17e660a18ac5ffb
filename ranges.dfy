/**
 * Maximal runs of slots and the date ranges they span.
 *
 * `groupConsecutiveSlots` and the meeting-window tracker both cut a list of
 * slot keys into maximal runs: a key joins the run of the key before it when
 * the two are one slot apart (and, for meeting windows, have the same
 * participant set).  `Runs` computes that cut key by key, as both loops do;
 * `IsRunPartition` states declaratively what the cut is, and
 * `RunsArePartition` and `PartitionUnique` show the two agree.
 */
module Ranges {
  import opened Time

  /** `{ start, end }`: a half-open interval of instants. */
  datatype DateRange = DateRange(start: int, end: int)

  /** `isConsecutiveSlot`: `next` starts exactly one slot after `prev`. */
  predicate IsConsecutiveSlot(prev: int, next: int)
  {
    next - prev == SLOT_MS
  }

  /**
   * When a key continues the run of the key before it: always one slot
   * later, and for meeting windows also with an identical participant set.
   */
  datatype JoinRule = Consecutive | SameSetConsecutive(index: map<int, set<string>>)

  predicate Joins(rule: JoinRule, a: int, b: int)
  {
    && IsConsecutiveSlot(a, b)
    && match rule
       case Consecutive => true
       case SameSetConsecutive(index) => a in index && b in index && index[a] == index[b]
  }

  function Last(xs: seq<int>): int
    requires xs != []
  {
    xs[|xs| - 1]
  }

  /** The runs laid end to end. */
  function Flatten(runs: seq<seq<int>>): seq<int>
  {
    if runs == [] then [] else Flatten(runs[..|runs| - 1]) + runs[|runs| - 1]
  }

  ghost predicate NonEmptyRuns(runs: seq<seq<int>>)
  {
    forall i :: 0 <= i < |runs| ==> runs[i] != []
  }

  /** Inside a run, every key continues the one before it. */
  ghost predicate JoinedWithin(runs: seq<seq<int>>, rule: JoinRule)
  {
    forall i, j :: 0 <= i < |runs| && 0 <= j < |runs[i]| - 1 ==> Joins(rule, runs[i][j], runs[i][j + 1])
  }

  /** At a boundary between runs, the first key of a run does not continue the last of the previous one. */
  ghost predicate SplitBetween(runs: seq<seq<int>>, rule: JoinRule)
    requires NonEmptyRuns(runs)
  {
    forall i :: 0 <= i < |runs| - 1 ==> !Joins(rule, Last(runs[i]), runs[i + 1][0])
  }

  /** `runs` cuts `xs`, in order, into maximal runs under `rule`. */
  ghost predicate IsRunPartition(runs: seq<seq<int>>, xs: seq<int>, rule: JoinRule)
  {
    && Flatten(runs) == xs
    && NonEmptyRuns(runs)
    && JoinedWithin(runs, rule)
    && SplitBetween(runs, rule)
  }

  /**
   * The cut the loops compute: the next key extends the current run when it
   * continues the key before it, and starts a new run otherwise.
   */
  function Runs(xs: seq<int>, rule: JoinRule): (runs: seq<seq<int>>)
    ensures NonEmptyRuns(runs)
    ensures xs == [] <==> runs == []
    ensures xs != [] ==> Last(runs[|runs| - 1]) == Last(xs)
    decreases |xs|
  {
    if xs == [] then []
    else
      var init, x := xs[..|xs| - 1], xs[|xs| - 1];
      var r := Runs(init, rule);
      if r == [] then [[x]]
      else if Joins(rule, Last(init), x) then r[..|r| - 1] + [r[|r| - 1] + [x]]
      else r + [[x]]
  }

  lemma FlattenAppend(runs: seq<seq<int>>, run: seq<int>)
    ensures Flatten(runs + [run]) == Flatten(runs) + run
  {
    assert (runs + [run])[..|runs|] == runs;
  }

  lemma {:induction false} FlattenMembership(runs: seq<seq<int>>, k: int)
    ensures k in Flatten(runs) <==> exists i :: 0 <= i < |runs| && k in runs[i]
  {
    if runs != [] {
      var init := runs[..|runs| - 1];
      FlattenMembership(init, k);
      if k in Flatten(init) {
        var i :| 0 <= i < |init| && k in init[i];
        assert runs[i] == init[i];
      }
      if exists i :: 0 <= i < |runs| && k in runs[i] {
        var i :| 0 <= i < |runs| && k in runs[i];
        if i < |init| {
          assert init[i] == runs[i];
        }
      }
    }
  }

  lemma {:induction false} FlattenLength(runs: seq<seq<int>>)
    ensures |Flatten(runs)| == TotalLength(runs)
  {
    if runs != [] {
      FlattenLength(runs[..|runs| - 1]);
    }
  }

  /** The summed lengths of the runs. */
  function TotalLength(runs: seq<seq<int>>): nat
  {
    if runs == [] then 0 else TotalLength(runs[..|runs| - 1]) + |runs[|runs| - 1]|
  }

  /** Extending the last run by one key keeps a partition of the longer list. */
  lemma ExtendLastRun(r: seq<seq<int>>, init: seq<int>, x: int, rule: JoinRule)
    requires IsRunPartition(r, init, rule) && r != [] && init != []
    requires Last(r[|r| - 1]) == Last(init)
    requires Joins(rule, Last(init), x)
    ensures IsRunPartition(r[..|r| - 1] + [r[|r| - 1] + [x]], init + [x], rule)
  {
    var front, lastRun := r[..|r| - 1], r[|r| - 1];
    var runs := front + [lastRun + [x]];
    assert r == front + [lastRun];
    FlattenAppend(front, lastRun);
    FlattenAppend(front, lastRun + [x]);
    forall i, j | 0 <= i < |runs| && 0 <= j < |runs[i]| - 1
      ensures Joins(rule, runs[i][j], runs[i][j + 1])
    {
      if i < |front| {
        assert runs[i] == r[i];
      } else if j < |lastRun| - 1 {
        assert runs[i][j] == r[i][j] && runs[i][j + 1] == r[i][j + 1];
      }
    }
    forall i | 0 <= i < |runs| - 1
      ensures !Joins(rule, Last(runs[i]), runs[i + 1][0])
    {
      assert runs[i] == r[i];
      assert runs[i + 1][0] == r[i + 1][0];
    }
  }

  /** Starting a new run with one key keeps a partition of the longer list. */
  lemma StartNewRun(r: seq<seq<int>>, init: seq<int>, x: int, rule: JoinRule)
    requires IsRunPartition(r, init, rule)
    requires r != [] ==> init != [] && Last(r[|r| - 1]) == Last(init) && !Joins(rule, Last(init), x)
    ensures IsRunPartition(r + [[x]], init + [x], rule)
  {
    var runs := r + [[x]];
    FlattenAppend(r, [x]);
    forall i, j | 0 <= i < |runs| && 0 <= j < |runs[i]| - 1
      ensures Joins(rule, runs[i][j], runs[i][j + 1])
    {
      assert runs[i] == r[i];
    }
    forall i | 0 <= i < |runs| - 1
      ensures !Joins(rule, Last(runs[i]), runs[i + 1][0])
    {
      assert runs[i] == r[i];
    }
  }

  /** The runs the loops compute are the maximal-run partition of the keys. */
  lemma {:induction false} RunsArePartition(xs: seq<int>, rule: JoinRule)
    ensures IsRunPartition(Runs(xs, rule), xs, rule)
    decreases |xs|
  {
    if xs != [] {
      var init, x := xs[..|xs| - 1], xs[|xs| - 1];
      assert xs == init + [x];
      RunsArePartition(init, rule);
      var r := Runs(init, rule);
      assert xs[..|xs| - 1] == init;
      if r != [] && Joins(rule, Last(init), x) {
        assert Runs(xs, rule) == r[..|r| - 1] + [r[|r| - 1] + [x]];
        ExtendLastRun(r, init, x, rule);
      } else {
        assert Runs(xs, rule) == r + [[x]];
        StartNewRun(r, init, x, rule);
      }
    }
  }

  /** A partition of a non-empty list ends with a run that ends with the list's last key. */
  lemma PartitionLast(p: seq<seq<int>>, xs: seq<int>, rule: JoinRule)
    requires IsRunPartition(p, xs, rule) && xs != []
    ensures p != []
    ensures Flatten(p[..|p| - 1]) + p[|p| - 1] == xs
    ensures Last(p[|p| - 1]) == Last(xs)
  {
    assert p == p[..|p| - 1] + [p[|p| - 1]];
    FlattenAppend(p[..|p| - 1], p[|p| - 1]);
  }

  /** Dropping a last run of one key leaves a partition of the shorter list. */
  lemma DropSingletonRun(p: seq<seq<int>>, xs: seq<int>, rule: JoinRule)
    requires IsRunPartition(p, xs, rule) && xs != []
    requires p != [] && |p[|p| - 1]| == 1
    ensures IsRunPartition(p[..|p| - 1], xs[..|xs| - 1], rule)
  {
    var front := p[..|p| - 1];
    PartitionLast(p, xs, rule);
    assert Flatten(front) == xs[..|xs| - 1];
    forall i, j | 0 <= i < |front| && 0 <= j < |front[i]| - 1
      ensures Joins(rule, front[i][j], front[i][j + 1])
    {
      assert front[i] == p[i];
    }
    forall i | 0 <= i < |front| - 1
      ensures !Joins(rule, Last(front[i]), front[i + 1][0])
    {
      assert front[i] == p[i] && front[i + 1] == p[i + 1];
    }
  }

  /** Dropping the last key of a longer last run leaves a partition of the shorter list. */
  lemma ShortenLastRun(p: seq<seq<int>>, xs: seq<int>, rule: JoinRule)
    requires IsRunPartition(p, xs, rule) && xs != []
    requires p != [] && |p[|p| - 1]| > 1
    ensures var lastRun := p[|p| - 1];
      IsRunPartition(p[..|p| - 1] + [lastRun[..|lastRun| - 1]], xs[..|xs| - 1], rule)
  {
    var front, lastRun := p[..|p| - 1], p[|p| - 1];
    PartitionLast(p, xs, rule);
    var shorter := lastRun[..|lastRun| - 1];
    var q := front + [shorter];
    assert lastRun == shorter + [Last(lastRun)];
    FlattenAppend(front, shorter);
    assert Flatten(front) + lastRun == (Flatten(front) + shorter) + [Last(lastRun)];
    assert Flatten(q) == xs[..|xs| - 1];
    forall i, j | 0 <= i < |q| && 0 <= j < |q[i]| - 1
      ensures Joins(rule, q[i][j], q[i][j + 1])
    {
      if i < |front| {
        assert q[i] == p[i];
      } else {
        assert q[i][j] == p[i][j] && q[i][j + 1] == p[i][j + 1];
      }
    }
    forall i | 0 <= i < |q| - 1
      ensures !Joins(rule, Last(q[i]), q[i + 1][0])
    {
      assert q[i] == p[i];
      assert q[i + 1][0] == p[i + 1][0];
    }
  }

  /** There is only one maximal-run partition: the one `Runs` computes. */
  lemma {:induction false} PartitionUnique(p: seq<seq<int>>, xs: seq<int>, rule: JoinRule)
    requires IsRunPartition(p, xs, rule)
    ensures p == Runs(xs, rule)
    decreases |xs|
  {
    if xs != [] {
      var init, x := xs[..|xs| - 1], xs[|xs| - 1];
      PartitionLast(p, xs, rule);
      var front, lastRun := p[..|p| - 1], p[|p| - 1];
      if |lastRun| == 1 {
        DropSingletonRun(p, xs, rule);
        PartitionUnique(front, init, rule);
        SingletonStep(p, xs, rule);
      } else {
        ShortenLastRun(p, xs, rule);
        var q := front + [lastRun[..|lastRun| - 1]];
        PartitionUnique(q, init, rule);
        ExtendStep(p, xs, rule);
      }
    }
  }

  lemma SingletonStep(p: seq<seq<int>>, xs: seq<int>, rule: JoinRule)
    requires IsRunPartition(p, xs, rule) && xs != []
    requires p != [] && |p[|p| - 1]| == 1
    requires p[..|p| - 1] == Runs(xs[..|xs| - 1], rule)
    ensures p == Runs(xs, rule)
  {
    var init, x := xs[..|xs| - 1], xs[|xs| - 1];
    var front := p[..|p| - 1];
    PartitionLast(p, xs, rule);
    assert p[|p| - 1] == [x];
    if front != [] {
      assert Flatten(front) != [];
      assert Last(front[|front| - 1]) == Last(init);
      assert p[|p| - 2] == front[|front| - 1];
      assert !Joins(rule, Last(init), x);
    }
    assert p == front + [[x]];
  }

  lemma ExtendStep(p: seq<seq<int>>, xs: seq<int>, rule: JoinRule)
    requires IsRunPartition(p, xs, rule) && xs != []
    requires p != [] && |p[|p| - 1]| > 1
    requires var lastRun := p[|p| - 1];
      p[..|p| - 1] + [lastRun[..|lastRun| - 1]] == Runs(xs[..|xs| - 1], rule)
    ensures p == Runs(xs, rule)
  {
    var init, x := xs[..|xs| - 1], xs[|xs| - 1];
    var front, lastRun := p[..|p| - 1], p[|p| - 1];
    PartitionLast(p, xs, rule);
    var shorter := lastRun[..|lastRun| - 1];
    var q := front + [shorter];
    assert lastRun == shorter + [x];
    assert Last(q[|q| - 1]) == Last(init);
    assert Last(shorter) == lastRun[|lastRun| - 2];
    assert Joins(rule, Last(shorter), x);
    assert q[..|q| - 1] == front;
    assert p == front + [shorter + [x]];
  }

  /** Each run is non-empty, joined throughout, and made of keys of the input. */
  lemma RunOfRuns(xs: seq<int>, rule: JoinRule, i: nat)
    requires i < |Runs(xs, rule)|
    ensures var run := Runs(xs, rule)[i];
      && run != []
      && (forall j :: 0 <= j < |run| - 1 ==> Joins(rule, run[j], run[j + 1]))
      && (forall k :: k in run ==> k in xs)
  {
    var runs := Runs(xs, rule);
    RunsArePartition(xs, rule);
    forall k | k in runs[i]
      ensures k in xs
    {
      FlattenMembership(runs, k);
    }
  }

  /** The first key of a run does not continue the last key of the run before it. */
  lemma RunsBoundary(xs: seq<int>, rule: JoinRule, i: nat)
    requires i + 1 < |Runs(xs, rule)|
    ensures var runs := Runs(xs, rule);
      && runs[i] != [] && runs[i + 1] != []
      && Last(runs[i]) in xs && runs[i + 1][0] in xs
      && !Joins(rule, Last(runs[i]), runs[i + 1][0])
  {
    var runs := Runs(xs, rule);
    RunsArePartition(xs, rule);
    FlattenMembership(runs, Last(runs[i]));
    FlattenMembership(runs, runs[i + 1][0]);
  }

  /** A run under any rule climbs by one slot per key. */
  lemma {:induction false} RunShape(run: seq<int>, rule: JoinRule)
    requires run != []
    requires forall j :: 0 <= j < |run| - 1 ==> Joins(rule, run[j], run[j + 1])
    ensures forall m :: 0 <= m < |run| ==> run[m] == run[0] + m * SLOT_MS
    decreases |run|
  {
    if |run| > 1 {
      var init := run[..|run| - 1];
      RunShape(init, rule);
      assert forall m :: 0 <= m < |init| ==> run[m] == init[m];
      var n := |run| - 1;
      assert Joins(rule, run[n - 1], run[n]);
      assert (n - 1) * SLOT_MS + SLOT_MS == n * SLOT_MS;
    }
  }

  /** The range a run of slots spans: from its first slot to the end of its last. */
  function RangeOf(run: seq<int>): DateRange
    requires run != []
  {
    DateRange(run[0], Last(run) + SLOT_MS)
  }

  function RangesOf(runs: seq<seq<int>>): seq<DateRange>
    requires forall i :: 0 <= i < |runs| ==> runs[i] != []
  {
    if runs == [] then [] else RangesOf(runs[..|runs| - 1]) + [RangeOf(runs[|runs| - 1])]
  }

  lemma RangesOfAppend(runs: seq<seq<int>>, run: seq<int>)
    requires forall i :: 0 <= i < |runs| ==> runs[i] != []
    requires run != []
    ensures RangesOf(runs + [run]) == RangesOf(runs) + [RangeOf(run)]
  {
    assert (runs + [run])[..|runs|] == runs;
  }

  lemma {:induction false} RangesOfIndex(runs: seq<seq<int>>, i: nat)
    requires forall j :: 0 <= j < |runs| ==> runs[j] != []
    requires i < |runs|
    ensures |RangesOf(runs)| == |runs|
    ensures RangesOf(runs)[i] == RangeOf(runs[i])
  {
    if i < |runs| - 1 {
      RangesOfIndex(runs[..|runs| - 1], i);
    } else if i > 0 {
      RangesOfIndex(runs[..|runs| - 1], i - 1);
    }
  }

  /** The first run starts with the first key. */
  lemma {:induction false} RunsFirst(xs: seq<int>, rule: JoinRule)
    requires xs != []
    ensures Runs(xs, rule)[0][0] == xs[0]
    decreases |xs|
  {
    var init := xs[..|xs| - 1];
    if init != [] {
      RunsFirst(init, rule);
    }
  }

  /**
   * A run spans exactly its keys: its range is `|run|` slots long, and
   * when its first key is a slot boundary, the slot boundaries in the range
   * are exactly the run's keys.
   */
  lemma RangeOfRun(run: seq<int>, rule: JoinRule)
    requires run != []
    requires forall j :: 0 <= j < |run| - 1 ==> Joins(rule, run[j], run[j + 1])
    ensures RangeOf(run).end - RangeOf(run).start == |run| * SLOT_MS
    ensures run[0] % SLOT_MS == 0 ==>
      forall k :: k in run <==> k % SLOT_MS == 0 && RangeOf(run).start <= k < RangeOf(run).end
  {
    RunShape(run, rule);
    if run[0] % SLOT_MS == 0 {
      forall k | k % SLOT_MS == 0 && RangeOf(run).start <= k < RangeOf(run).end
        ensures k in run
      {
        var m := (k - run[0]) / SLOT_MS;
        assert k - run[0] == m * SLOT_MS;
        assert run[m] == k;
      }
    }
  }

  /** `groupConsecutiveSlots`: one range per maximal run of consecutive keys, in order. */
  method GroupConsecutiveSlots(sortedKeys: seq<int>) returns (ranges: seq<DateRange>)
    ensures ranges == RangesOf(Runs(sortedKeys, Consecutive))
  {
    if |sortedKeys| == 0 {
      return [];
    }
    ranges := [];
    var rangeStart := sortedKeys[0];
    var prevKey := sortedKeys[0];
    assert sortedKeys[..1][..0] == [];
    for i := 1 to |sortedKeys|
      invariant var runs := Runs(sortedKeys[..i], Consecutive);
        && runs != []
        && ranges == RangesOf(runs[..|runs| - 1])
        && rangeStart == runs[|runs| - 1][0]
        && prevKey == sortedKeys[i - 1]
    {
      var currentKey := sortedKeys[i];
      ghost var runs := Runs(sortedKeys[..i], Consecutive);
      assert sortedKeys[..i + 1][..i] == sortedKeys[..i];
      if IsConsecutiveSlot(prevKey, currentKey) {
        prevKey := currentKey;
      } else {
        assert runs[|runs| - 1] != [];
        RangesOfAppend(runs[..|runs| - 1], runs[|runs| - 1]);
        assert runs[..|runs| - 1] + [runs[|runs| - 1]] == runs;
        ranges := ranges + [DateRange(rangeStart, prevKey + SLOT_MS)];
        rangeStart := currentKey;
        prevKey := currentKey;
      }
    }
    assert sortedKeys[..|sortedKeys|] == sortedKeys;
    ghost var runs := Runs(sortedKeys, Consecutive);
    RangesOfAppend(runs[..|runs| - 1], runs[|runs| - 1]);
    assert runs[..|runs| - 1] + [runs[|runs| - 1]] == runs;
    ranges := ranges + [DateRange(rangeStart, prevKey + SLOT_MS)];
  }

  /**
   * The ranges cover exactly the input slots: a slot boundary is one of
   * the keys iff it lies in one of the ranges.
   */
  lemma GroupedRangesCover(xs: seq<int>, k: int)
    requires forall i :: 0 <= i < |xs| ==> xs[i] % SLOT_MS == 0
    requires k % SLOT_MS == 0
    ensures var runs := Runs(xs, Consecutive);
      k in xs <==> exists i :: 0 <= i < |runs| && RangeOf(runs[i]).start <= k < RangeOf(runs[i]).end
  {
    var runs := Runs(xs, Consecutive);
    RunsArePartition(xs, Consecutive);
    FlattenMembership(runs, k);
    forall i | 0 <= i < |runs|
      ensures k in runs[i] <==> RangeOf(runs[i]).start <= k < RangeOf(runs[i]).end
    {
      FlattenMembership(runs, runs[i][0]);
      RangeOfRun(runs[i], Consecutive);
    }
  }
}
