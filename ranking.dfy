/**
 * The two ranking idioms the engine uses.
 *
 * `Array.prototype.sort` with a "descending by key" comparator such as
 * `(a, b) => b.totalMinutes - a.totalMinutes` is stable, so its result is
 * the unique ordering that is sorted by the key and keeps equal-key
 * elements in input order.  `SortDesc` computes that ordering by stable
 * insertion; its contract states sortedness, permutation and stability.
 *
 * `reduce((best, current) => score(current) > score(best) ? current : best)`
 * keeps the first element of maximal score: `FirstMaxIndex`.
 */
module Ranking {

  /**
   * A sort key compared lexicographically: `major` first, then `minor`.
   * A comparator on one number uses `minor := 0.0`.
   */
  datatype Rank = Rank(major: real, minor: real)

  /** `a` strictly precedes `b` in descending order: the comparator is negative. */
  predicate Above(a: Rank, b: Rank)
  {
    a.major > b.major || (a.major == b.major && a.minor > b.minor)
  }

  ghost predicate SortedDesc<T>(xs: seq<T>, key: T -> Rank)
  {
    forall i, j :: 0 <= i < j < |xs| ==> !Above(key(xs[j]), key(xs[i]))
  }

  /** The elements of `xs` whose key is `r`, in their order in `xs`. */
  function WithRank<T>(xs: seq<T>, key: T -> Rank, r: Rank): seq<T>
  {
    if xs == [] then []
    else (if key(xs[0]) == r then [xs[0]] else []) + WithRank(xs[1..], key, r)
  }

  /** Inserts `x` before the first element that does not strictly precede it. */
  function InsertDesc<T>(x: T, ys: seq<T>, key: T -> Rank): seq<T>
  {
    if ys == [] then [x]
    else if Above(key(ys[0]), key(x)) then [ys[0]] + InsertDesc(x, ys[1..], key)
    else [x] + ys
  }

  /** Insertion adds `x` and loses nothing. */
  lemma {:induction false} InsertDescPermutation<T>(x: T, ys: seq<T>, key: T -> Rank)
    ensures multiset(InsertDesc(x, ys, key)) == multiset(ys) + multiset{x}
  {
    if ys != [] && Above(key(ys[0]), key(x)) {
      InsertDescPermutation(x, ys[1..], key);
      assert ys == [ys[0]] + ys[1..];
    }
  }

  /** The result of a stable sort, descending by `key`. */
  function SortDesc<T>(xs: seq<T>, key: T -> Rank): seq<T>
  {
    if xs == [] then []
    else InsertDesc(xs[0], SortDesc(xs[1..], key), key)
  }

  /** Sorting is a permutation: every element keeps its multiplicity. */
  lemma {:induction false} SortDescPermutation<T>(xs: seq<T>, key: T -> Rank)
    ensures multiset(SortDesc(xs, key)) == multiset(xs)
  {
    if xs != [] {
      SortDescPermutation(xs[1..], key);
      InsertDescPermutation(xs[0], SortDesc(xs[1..], key), key);
      assert xs == [xs[0]] + xs[1..];
    }
  }

  lemma {:induction false} InsertDescSorted<T>(x: T, ys: seq<T>, key: T -> Rank)
    requires SortedDesc(ys, key)
    ensures SortedDesc(InsertDesc(x, ys, key), key)
  {
    if ys != [] && Above(key(ys[0]), key(x)) {
      InsertDescSorted(x, ys[1..], key);
      InsertDescPermutation(x, ys[1..], key);
      var r := InsertDesc(x, ys[1..], key);
      forall j | 0 <= j < |r|
        ensures !Above(key(r[j]), key(ys[0]))
      {
        assert r[j] in multiset(r);
        if r[j] != x {
          assert r[j] in multiset(ys[1..]);
          var k :| 0 <= k < |ys[1..]| && ys[1..][k] == r[j];
          assert ys[k + 1] == r[j];
        }
      }
    }
  }

  /** `SortDesc` returns a sorted permutation of its input. */
  lemma {:induction false} SortDescSorted<T>(xs: seq<T>, key: T -> Rank)
    ensures SortedDesc(SortDesc(xs, key), key)
    ensures |SortDesc(xs, key)| == |xs|
  {
    SortDescPermutation(xs, key);
    assert |multiset(SortDesc(xs, key))| == |multiset(xs)|;
    if xs != [] {
      SortDescSorted(xs[1..], key);
      InsertDescSorted(xs[0], SortDesc(xs[1..], key), key);
    }
  }

  /** `WithRank` of a list with a given first element. */
  lemma WithRankCons<T>(y: T, ys: seq<T>, key: T -> Rank, r: Rank)
    ensures WithRank([y] + ys, key, r) == (if key(y) == r then [y] else []) + WithRank(ys, key, r)
  {
    assert ([y] + ys)[1..] == ys;
  }

  lemma {:induction false} InsertDescStable<T>(x: T, ys: seq<T>, key: T -> Rank, r: Rank)
    ensures WithRank(InsertDesc(x, ys, key), key, r)
         == (if key(x) == r then [x] else []) + WithRank(ys, key, r)
  {
    var hx := if key(x) == r then [x] else [];
    if ys == [] {
      WithRankCons(x, [], key, r);
    } else if Above(key(ys[0]), key(x)) {
      var rest := InsertDesc(x, ys[1..], key);
      var tail := WithRank(ys[1..], key, r);
      var hy := if key(ys[0]) == r then [ys[0]] else [];
      InsertDescStable(x, ys[1..], key, r);
      WithRankCons(ys[0], rest, key, r);
      WithRankCons(ys[0], ys[1..], key, r);
      assert ys == [ys[0]] + ys[1..];
      assert hx == [] || hy == [];
      assert hy + (hx + tail) == hx + (hy + tail);
    } else {
      WithRankCons(x, ys, key, r);
    }
  }

  /**
   * `SortDesc` is stable: for every key, the elements with that key appear
   * in the same order as in the input (ties keep first-seen order).
   */
  lemma {:induction false} SortDescStable<T>(xs: seq<T>, key: T -> Rank, r: Rank)
    ensures WithRank(SortDesc(xs, key), key, r) == WithRank(xs, key, r)
  {
    if xs != [] {
      SortDescStable(xs[1..], key, r);
      InsertDescStable(xs[0], SortDesc(xs[1..], key), key, r);
    }
  }

  /**
   * The first element of the sorted list ranks at least as high as every
   * element, and the last at most as high; both come from the input.
   */
  lemma SortDescEnds<T>(xs: seq<T>, key: T -> Rank)
    requires |xs| > 0
    ensures |SortDesc(xs, key)| == |xs|
    ensures SortDesc(xs, key)[0] in xs && SortDesc(xs, key)[|xs| - 1] in xs
    ensures forall x :: x in xs ==> !Above(key(x), key(SortDesc(xs, key)[0]))
    ensures forall x :: x in xs ==> !Above(key(SortDesc(xs, key)[|xs| - 1]), key(x))
  {
    var s := SortDesc(xs, key);
    SortDescSorted(xs, key);
    SortDescPermutation(xs, key);
    assert s[0] in multiset(s) && s[|s| - 1] in multiset(s);
    forall x | x in xs
      ensures !Above(key(x), key(s[0])) && !Above(key(s[|s| - 1]), key(x))
    {
      assert x in multiset(s);
      var j :| 0 <= j < |s| && s[j] == x;
    }
  }

  /** One step of `reduce`: extending the list by `xs[j]` moves the best index there only on a strictly greater score. */
  lemma FirstMaxIndexStep<T>(xs: seq<T>, score: T -> real, j: nat)
    requires j < |xs|
    ensures j == 0 ==> FirstMaxIndex(xs[..j + 1], score) == 0
    ensures j > 0 ==>
      var best := FirstMaxIndex(xs[..j], score);
      FirstMaxIndex(xs[..j + 1], score) == if score(xs[j]) > score(xs[best]) then j else best
  {
    assert xs[..j + 1][..j] == xs[..j];
  }

  /**
   * The index `reduce` keeps when it replaces the best element only on a
   * strictly greater score: a maximum, and the first one.
   */
  function FirstMaxIndex<T>(xs: seq<T>, score: T -> real): (i: nat)
    requires |xs| > 0
    ensures i < |xs|
    ensures forall j :: 0 <= j < |xs| ==> score(xs[j]) <= score(xs[i])
    ensures forall j :: 0 <= j < i ==> score(xs[j]) < score(xs[i])
    decreases |xs|
  {
    if |xs| == 1 then 0
    else
      var best := FirstMaxIndex(xs[..|xs| - 1], score);
      if score(xs[|xs| - 1]) > score(xs[best]) then |xs| - 1 else best
  }
}
