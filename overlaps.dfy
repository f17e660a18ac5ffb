/**
 * Pairwise overlap: for every pair of participants, in participant order,
 * the number of slots in which both are available.
 */
module Overlaps {
  import opened Time
  import opened Numeric
  import opened SlotIndex
  import opened SlotStats
  import opened Ranking
  import opened Participants

  /** `PairwiseOverlap`. */
  datatype PairwiseOverlap = PairwiseOverlap(pair: (string, string), overlapMinutes: nat, percentage: real)

  /** Both participants are in the set of slot `k`. */
  predicate BothAt(idx: Index, k: int, p1: string, p2: string)
  {
    k in idx && p1 in idx[k] && p2 in idx[k]
  }

  /** How many of the first `n` slots have both `p1` and `p2` available. */
  function SharedCount(idx: Index, keys: seq<int>, n: nat, p1: string, p2: string): nat
    requires n <= |keys|
  {
    if n == 0 then 0
    else SharedCount(idx, keys, n - 1, p1, p2) + (if BothAt(idx, keys[n - 1], p1, p2) then 1 else 0)
  }

  /** The slots shared by `p1` and `p2`. */
  function SharedSlots(idx: Index, p1: string, p2: string): set<int>
  {
    set k | k in idx && p1 in idx[k] && p2 in idx[k]
  }

  lemma {:induction false} SharedCountPrefix(idx: Index, keys: seq<int>, n: nat, p1: string, p2: string)
    requires n <= |keys| && Ascending(keys)
    ensures SharedCount(idx, keys, n, p1, p2) == |set k | k in keys[..n] && BothAt(idx, k, p1, p2)|
  {
    if n > 0 {
      SharedCountPrefix(idx, keys, n - 1, p1, p2);
      var before := set k | k in keys[..n - 1] && BothAt(idx, k, p1, p2);
      var after := set k | k in keys[..n] && BothAt(idx, k, p1, p2);
      var x := keys[n - 1];
      assert keys[..n] == keys[..n - 1] + [x];
      assert x !in keys[..n - 1] by {
        forall j | 0 <= j < n - 1
          ensures keys[j] < x
        {
        }
      }
      if BothAt(idx, x, p1, p2) {
        assert after == before + {x};
      } else {
        assert after == before;
      }
    }
  }

  /** Counting over the time-ordered keys counts exactly the shared slots. */
  lemma SharedCountIsShared(idx: Index, keys: seq<int>, p1: string, p2: string)
    requires IsKeyOrder(idx, keys)
    ensures SharedCount(idx, keys, |keys|, p1, p2) == |SharedSlots(idx, p1, p2)|
  {
    SharedCountPrefix(idx, keys, |keys|, p1, p2);
    assert keys[..|keys|] == keys;
    var counted := set k | k in keys && BothAt(idx, k, p1, p2);
    forall k
      ensures k in counted <==> k in SharedSlots(idx, p1, p2)
    {
      assert k in keys <==> k in idx;
    }
    assert counted == SharedSlots(idx, p1, p2);
  }

  /** The entry pushed for a pair with `overlapSlots` shared slots out of `covered`. */
  function EntryOf(p1: string, p2: string, overlapSlots: nat, covered: nat): PairwiseOverlap
  {
    PairwiseOverlap((p1, p2), overlapSlots * SLOT_MINUTES, Percent(overlapSlots, covered))
  }

  /** The entry for the pair `(names[i], names[j])`, if they share a slot. */
  function PairEntry(idx: Index, keys: seq<int>, names: seq<string>, i: nat, j: nat): seq<PairwiseOverlap>
    requires i < |names| && j < |names|
  {
    var c := SharedCount(idx, keys, |keys|, names[i], names[j]);
    if c > 0 then [EntryOf(names[i], names[j], c, |keys|)] else []
  }

  /** The entries for `names[i]` paired with `names[i+1 .. m-1]`. */
  function PairRow(idx: Index, keys: seq<int>, names: seq<string>, i: nat, m: nat): seq<PairwiseOverlap>
    requires i < |names| && m <= |names|
  {
    if m <= i + 1 then [] else PairRow(idx, keys, names, i, m - 1) + PairEntry(idx, keys, names, i, m - 1)
  }

  /** The entries of the first `n` rows, in the order the nested loops push them. */
  function PairTable(idx: Index, keys: seq<int>, names: seq<string>, n: nat): seq<PairwiseOverlap>
    requires n <= |names|
  {
    if n == 0 then [] else PairTable(idx, keys, names, n - 1) + PairRow(idx, keys, names, n - 1, |names|)
  }

  /** The innermost loop: the slots where both participants are available. */
  method CountShared(idx: Index, keys: seq<int>, p1: string, p2: string) returns (overlapSlots: nat)
    requires IsKeyOrder(idx, keys)
    ensures overlapSlots == SharedCount(idx, keys, |keys|, p1, p2)
  {
    overlapSlots := 0;
    for k := 0 to |keys|
      invariant overlapSlots == SharedCount(idx, keys, k, p1, p2)
    {
      var availableSet := idx[keys[k]];
      if p1 in availableSet && p2 in availableSet {
        overlapSlots := overlapSlots + 1;
      }
    }
  }

  /** The nested loops over `i < j` filling `pairwiseOverlaps` before it is sorted. */
  method PairwiseOverlaps(idx: Index, keys: seq<int>, names: seq<string>) returns (overlaps: seq<PairwiseOverlap>)
    requires IsKeyOrder(idx, keys)
    ensures overlaps == PairTable(idx, keys, names, |names|)
  {
    overlaps := [];
    for i := 0 to |names|
      invariant overlaps == PairTable(idx, keys, names, i)
    {
      for j := i + 1 to |names|
        invariant overlaps == PairTable(idx, keys, names, i) + PairRow(idx, keys, names, i, j)
      {
        var p1, p2 := names[i], names[j];
        var overlapSlots := CountShared(idx, keys, p1, p2);
        ghost var entry := PairEntry(idx, keys, names, i, j);
        assert PairRow(idx, keys, names, i, j + 1) == PairRow(idx, keys, names, i, j) + entry;
        if overlapSlots > 0 {
          var overlapMinutes := overlapSlots * SLOT_MINUTES;
          var percentage := Percent(overlapSlots, |keys|);
          assert entry == [PairwiseOverlap((p1, p2), overlapMinutes, percentage)];
          overlaps := overlaps + [PairwiseOverlap((p1, p2), overlapMinutes, percentage)];
        } else {
          assert entry == [];
        }
      }
      assert PairTable(idx, keys, names, i + 1) == PairTable(idx, keys, names, i) + PairRow(idx, keys, names, i, |names|);
    }
  }

  lemma {:induction false} PairRowMembers(idx: Index, keys: seq<int>, names: seq<string>, i: nat, m: nat, o: PairwiseOverlap)
    requires i < |names| && m <= |names|
    ensures o in PairRow(idx, keys, names, i, m) <==>
      exists j :: i < j < m && PairEntry(idx, keys, names, i, j) == [o]
  {
    if m > i + 1 {
      PairRowMembers(idx, keys, names, i, m - 1, o);
      var e := PairEntry(idx, keys, names, i, m - 1);
      assert e == [] || |e| == 1;
    }
  }

  lemma {:induction false} PairTableMembers(idx: Index, keys: seq<int>, names: seq<string>, n: nat, o: PairwiseOverlap)
    requires n <= |names|
    ensures o in PairTable(idx, keys, names, n) <==>
      exists i, j :: 0 <= i < n && i < j < |names| && PairEntry(idx, keys, names, i, j) == [o]
  {
    if n > 0 {
      var before, row := PairTable(idx, keys, names, n - 1), PairRow(idx, keys, names, n - 1, |names|);
      PairTableMembers(idx, keys, names, n - 1, o);
      PairRowMembers(idx, keys, names, n - 1, |names|, o);
      assert PairTable(idx, keys, names, n) == before + row;
      if o in before {
        var i, j :| 0 <= i < n - 1 && i < j < |names| && PairEntry(idx, keys, names, i, j) == [o];
        assert 0 <= i < n && i < j < |names| && PairEntry(idx, keys, names, i, j) == [o];
      } else if o in row {
        var j :| n - 1 < j < |names| && PairEntry(idx, keys, names, n - 1, j) == [o];
        assert 0 <= n - 1 < n && n - 1 < j < |names| && PairEntry(idx, keys, names, n - 1, j) == [o];
      }
      if exists i, j :: 0 <= i < n && i < j < |names| && PairEntry(idx, keys, names, i, j) == [o] {
        var i, j :| 0 <= i < n && i < j < |names| && PairEntry(idx, keys, names, i, j) == [o];
        if i < n - 1 {
          assert o in before;
        } else {
          assert o in row;
        }
      }
    }
  }

  /** The entry of a pair, stated with the shared slots. */
  lemma PairEntryMeaning(idx: Index, keys: seq<int>, names: seq<string>, i: nat, j: nat)
    requires IsKeyOrder(idx, keys)
    requires i < |names| && j < |names|
    ensures var c := |SharedSlots(idx, names[i], names[j])|;
      PairEntry(idx, keys, names, i, j) == if c > 0 then [EntryOf(names[i], names[j], c, |idx|)] else []
  {
    SharedCountIsShared(idx, keys, names[i], names[j]);
  }

  /**
   * The overlaps are exactly one entry per pair `i < j` of participants who
   * share at least one slot, with that many slots' worth of minutes and
   * their share of the covered slots.
   */
  lemma OverlapsMeaning(idx: Index, keys: seq<int>, names: seq<string>, o: PairwiseOverlap)
    requires IsKeyOrder(idx, keys)
    ensures o in PairTable(idx, keys, names, |names|) <==>
      exists i, j :: 0 <= i < j < |names|
        && |SharedSlots(idx, names[i], names[j])| > 0
        && o == EntryOf(names[i], names[j], |SharedSlots(idx, names[i], names[j])|, |idx|)
  {
    PairTableMembers(idx, keys, names, |names|, o);
    if o in PairTable(idx, keys, names, |names|) {
      var i, j :| 0 <= i < |names| && i < j < |names| && PairEntry(idx, keys, names, i, j) == [o];
      PairEntryMeaning(idx, keys, names, i, j);
    }
    if exists i, j :: 0 <= i < j < |names|
        && |SharedSlots(idx, names[i], names[j])| > 0
        && o == EntryOf(names[i], names[j], |SharedSlots(idx, names[i], names[j])|, |idx|)
    {
      var i, j :| 0 <= i < j < |names|
        && |SharedSlots(idx, names[i], names[j])| > 0
        && o == EntryOf(names[i], names[j], |SharedSlots(idx, names[i], names[j])|, |idx|);
      PairEntryMeaning(idx, keys, names, i, j);
    }
  }

  /** Sharing a slot does not depend on the order of the two participants. */
  lemma SharedSlotsSymmetric(idx: Index, p1: string, p2: string)
    ensures SharedSlots(idx, p1, p2) == SharedSlots(idx, p2, p1)
  {
  }

  /**
   * Over distinct participant names, the table pairs no participant with
   * themself, lists no pair in both orders, and each entry's minutes are
   * the same whichever way round its pair is read.
   */
  lemma OverlapPairsSymmetric(idx: Index, keys: seq<int>, names: seq<string>, o1: PairwiseOverlap, o2: PairwiseOverlap)
    requires IsKeyOrder(idx, keys) && Distinct(names)
    requires o1 in PairTable(idx, keys, names, |names|) && o2 in PairTable(idx, keys, names, |names|)
    ensures o1.pair.0 != o1.pair.1
    ensures o1.pair.0 in names && o1.pair.1 in names
    ensures o1.overlapMinutes == |SharedSlots(idx, o1.pair.1, o1.pair.0)| * SLOT_MINUTES
    ensures o2.pair != (o1.pair.1, o1.pair.0)
  {
    OverlapsMeaning(idx, keys, names, o1);
    OverlapsMeaning(idx, keys, names, o2);
    var i, j :| 0 <= i < j < |names|
      && |SharedSlots(idx, names[i], names[j])| > 0
      && o1 == EntryOf(names[i], names[j], |SharedSlots(idx, names[i], names[j])|, |idx|);
    var i2, j2 :| 0 <= i2 < j2 < |names|
      && |SharedSlots(idx, names[i2], names[j2])| > 0
      && o2 == EntryOf(names[i2], names[j2], |SharedSlots(idx, names[i2], names[j2])|, |idx|);
    SharedSlotsSymmetric(idx, names[i], names[j]);
    if o2.pair == (o1.pair.1, o1.pair.0) {
      assert false;
    }
  }

  lemma {:induction false} PairRowLength(idx: Index, keys: seq<int>, names: seq<string>, i: nat, m: nat)
    requires i < |names| && m <= |names|
    ensures |PairRow(idx, keys, names, i, m)| <= if m <= i + 1 then 0 else m - i - 1
  {
    if m > i + 1 {
      PairRowLength(idx, keys, names, i, m - 1);
    }
  }

  lemma PairCountStep(n: int, l: int)
    ensures (n - 1) * (2 * l - n) + 2 * (l - n) == n * (2 * l - n - 1)
  {
  }

  /** At most one entry per unordered pair: no more than `n (n - 1) / 2` for `n` participants. */
  lemma {:induction false} PairTableLength(idx: Index, keys: seq<int>, names: seq<string>, n: nat)
    requires n <= |names|
    ensures 2 * |PairTable(idx, keys, names, n)| <= n * (2 * |names| - n - 1)
  {
    if n > 0 {
      PairTableLength(idx, keys, names, n - 1);
      PairRowLength(idx, keys, names, n - 1, |names|);
      PairCountStep(n, |names|);
    }
  }

  /** The comparator `b.overlapMinutes - a.overlapMinutes`. */
  function OverlapRank(o: PairwiseOverlap): Rank
  {
    Rank(o.overlapMinutes as real, 0.0)
  }

  /** `pairwiseOverlaps` after the stable sort by shared minutes, descending. */
  function SortedOverlaps(overlaps: seq<PairwiseOverlap>): seq<PairwiseOverlap>
  {
    SortDesc(overlaps, OverlapRank)
  }
}
