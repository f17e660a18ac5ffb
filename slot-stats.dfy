/**
 * Statistics read off the slot index: the sorted key list, the largest
 * participant set, the keys with a given set size, the total of all set
 * sizes, the weekend/weekday split, per-weekday and per-hour buckets and
 * the per-date heatmap.
 *
 * The engine walks the index either through `allSlotKeys` (the sorted keys)
 * or through the map's own insertion order; every loop here that computes
 * a maximum, a sum or a count walks the sorted keys, which gives the same
 * result.
 */
module SlotStats {
  import opened Time
  import opened SlotIndex

  ghost predicate IsMin(m: int, s: set<int>)
  {
    m in s && forall x :: x in s ==> m <= x
  }

  lemma NonEmptyHasMember(s: set<int>)
    requires s != {}
    ensures exists y :: y in s
  {
    if forall y :: y !in s {
      assert false;
    }
  }

  lemma MinStep(s: set<int>, y: int, m: int)
    requires y in s && IsMin(m, s - {y})
    ensures IsMin(if y < m then y else m, s)
  {
    forall x | x in s
      ensures (if y < m then y else m) <= x
    {
      if x != y {
        assert x in s - {y};
      }
    }
  }

  lemma {:induction false} MinExists(s: set<int>)
    requires s != {}
    ensures exists m :: IsMin(m, s)
    decreases |s|
  {
    NonEmptyHasMember(s);
    var y :| y in s;
    var rest := s - {y};
    if rest == {} {
      forall x | x in s
        ensures y <= x
      {
        assert x !in rest;
      }
      assert IsMin(y, s);
    } else {
      MinExists(rest);
      var m :| IsMin(m, rest);
      MinStep(s, y, m);
    }
  }

  /** The smallest element of a non-empty set. */
  function MinOf(s: set<int>): (m: int)
    requires s != {}
    ensures m in s && forall x :: x in s ==> m <= x
  {
    MinExists(s);
    var m :| m in s && forall x :: x in s ==> m <= x; m
  }

  ghost predicate Ascending(xs: seq<int>)
  {
    forall i, j :: 0 <= i < j < |xs| ==> xs[i] < xs[j]
  }

  /** The elements of `s` in increasing order. */
  function SortedKeys(s: set<int>): (r: seq<int>)
    ensures Ascending(r)
    ensures forall k :: k in r <==> k in s
    ensures |r| == |s|
    decreases s
  {
    if s == {} then []
    else
      var m := MinOf(s);
      [m] + SortedKeys(s - {m})
  }

  /** An increasing list of exactly the elements of `s` is `SortedKeys(s)`: sorting a set has one answer. */
  lemma {:induction false} SortedKeysUnique(xs: seq<int>, s: set<int>)
    requires Ascending(xs)
    requires forall k :: k in xs <==> k in s
    ensures xs == SortedKeys(s)
    decreases |xs|
  {
    if xs == [] {
      if s != {} {
        NonEmptyHasMember(s);
        assert false;
      }
    } else {
      assert xs[0] in xs;
      assert xs[0] in s;
      var m := MinOf(s);
      assert m in xs;
      assert xs[0] == m;
      var rest := s - {m};
      forall k
        ensures k in xs[1..] <==> k in rest
      {
        if k in xs[1..] {
          assert k != m;
        }
        if k in rest {
          assert k in xs && k != xs[0];
        }
      }
      SortedKeysUnique(xs[1..], rest);
    }
  }

  /** `Array.from(slotAvailability.keys()).sort()`: the slot keys in time order. */
  function AllSlotKeys(idx: Index): (keys: seq<int>)
    ensures Ascending(keys)
    ensures forall k :: k in keys <==> k in idx
    ensures |keys| == |idx|
  {
    SortedKeys(idx.Keys)
  }

  /** `keys` lists the slots of the index in time order, as `allSlotKeys` does. */
  ghost predicate IsKeyOrder(idx: Index, keys: seq<int>)
  {
    && Ascending(keys)
    && (forall k :: k in keys <==> k in idx)
    && (forall i :: 0 <= i < |keys| ==> keys[i] in idx)
    && |keys| == |idx|
  }

  /** `maxParticipantCount`: the size of the largest participant set, 0 for an empty index. */
  method MaxParticipantCount(idx: Index, keys: seq<int>) returns (m: nat)
    requires IsKeyOrder(idx, keys)
    ensures forall k :: k in idx ==> |idx[k]| <= m
    ensures |idx| == 0 ==> m == 0
    ensures |idx| > 0 ==> exists k :: k in idx && |idx[k]| == m
  {
    m := 0;
    for i := 0 to |keys|
      invariant forall j :: 0 <= j < i ==> |idx[keys[j]]| <= m
      invariant m == 0 || exists j :: 0 <= j < i && |idx[keys[j]]| == m
    {
      var participantSet := idx[keys[i]];
      if |participantSet| > m {
        m := |participantSet|;
      }
    }
    forall k | k in idx
      ensures |idx[k]| <= m
    {
      assert k in keys;
    }
    if |idx| > 0 {
      var w := keys[0];
      if m > 0 {
        var j :| 0 <= j < |keys| && |idx[keys[j]]| == m;
        w := keys[j];
      }
      assert w in idx && |idx[w]| == m;
    }
  }

  /** The size of the participant set of slot `k`, 0 for a slot nobody covers. */
  function SizeAt(idx: Index, k: int): nat
  {
    if k in idx then |idx[k]| else 0
  }

  /** The first `n` keys whose participant set has exactly `target` members, in order. */
  function WithSize(idx: Index, keys: seq<int>, n: nat, target: nat): seq<int>
    requires n <= |keys|
  {
    if n == 0 then []
    else WithSize(idx, keys, n - 1, target) + (if SizeAt(idx, keys[n - 1]) == target then [keys[n - 1]] else [])
  }

  lemma {:induction false} WithSizeMembers(idx: Index, keys: seq<int>, n: nat, target: nat)
    requires n <= |keys|
    ensures forall k :: k in WithSize(idx, keys, n, target) <==> k in keys[..n] && SizeAt(idx, k) == target
  {
    if n > 0 {
      WithSizeMembers(idx, keys, n - 1, target);
      assert keys[..n] == keys[..n - 1] + [keys[n - 1]];
    }
  }

  /** Filtering keeps the keys in order. */
  lemma {:induction false} WithSizeAscending(idx: Index, keys: seq<int>, n: nat, target: nat)
    requires n <= |keys| && Ascending(keys)
    ensures Ascending(WithSize(idx, keys, n, target))
  {
    if n > 0 {
      WithSizeAscending(idx, keys, n - 1, target);
      WithSizeMembers(idx, keys, n - 1, target);
      var r := WithSize(idx, keys, n - 1, target);
      forall j | 0 <= j < |r|
        ensures r[j] < keys[n - 1]
      {
        assert r[j] in r;
        var m :| 0 <= m < n - 1 && keys[m] == r[j];
      }
    }
  }

  /**
   * The loop filling `maxParticipationKeys` and `everyoneAvailableKeys`:
   * the keys whose participant set has exactly `target` members, visited
   * in time order.
   */
  method KeysWithSize(idx: Index, keys: seq<int>, target: nat) returns (out: seq<int>)
    requires IsKeyOrder(idx, keys)
    ensures out == WithSize(idx, keys, |keys|, target)
  {
    out := [];
    for i := 0 to |keys|
      invariant out == WithSize(idx, keys, i, target)
    {
      var key := keys[i];
      if |idx[key]| == target {
        out := out + [key];
      }
    }
  }

  /** The filtered keys are, in time order, exactly the keys whose set has `target` members. */
  lemma KeysWithSizeMeaning(idx: Index, keys: seq<int>, target: nat)
    requires IsKeyOrder(idx, keys)
    ensures var out := WithSize(idx, keys, |keys|, target);
      && Ascending(out)
      && forall k :: k in out <==> k in idx && |idx[k]| == target
  {
    WithSizeAscending(idx, keys, |keys|, target);
    WithSizeMembers(idx, keys, |keys|, target);
    assert keys[..|keys|] == keys;
  }

  /** The summed set sizes of the first `n` keys. */
  function SumSizes(idx: Index, keys: seq<int>, n: nat): nat
    requires n <= |keys|
  {
    if n == 0 then 0 else SumSizes(idx, keys, n - 1) + SizeAt(idx, keys[n - 1])
  }

  /** Set sizes between `lo` and `hi` give a sum between `n * lo` and `n * hi`. */
  lemma {:induction false} SumSizesBounds(idx: Index, keys: seq<int>, n: nat, lo: nat, hi: nat)
    requires n <= |keys|
    requires forall i :: 0 <= i < n ==> lo <= SizeAt(idx, keys[i]) <= hi
    ensures n * lo <= SumSizes(idx, keys, n) <= n * hi
  {
    if n > 0 {
      SumSizesBounds(idx, keys, n - 1, lo, hi);
      assert n * lo == (n - 1) * lo + lo;
      assert n * hi == (n - 1) * hi + hi;
    }
  }

  /** `totalParticipantSlots`: the sizes of all participant sets added up. */
  method TotalParticipantSlots(idx: Index, keys: seq<int>) returns (total: nat)
    requires IsKeyOrder(idx, keys)
    ensures total == SumSizes(idx, keys, |keys|)
  {
    total := 0;
    for i := 0 to |keys|
      invariant total == SumSizes(idx, keys, i)
    {
      total := total + |idx[keys[i]]|;
    }
  }

  /** Which calendar field a bucket count groups slots by. */
  datatype Grouping = ByWeekday | ByHour

  function NumBuckets(g: Grouping): nat
  {
    match g
    case ByWeekday => 7
    case ByHour => 24
  }

  /** `parseSlotKey(key).getDay()` or `parseSlotKey(key).getHours()`. */
  function Bucket(g: Grouping, k: int): (b: nat)
    ensures b < NumBuckets(g)
  {
    match g
    case ByWeekday => DayOfWeek(k)
    case ByHour => Hours(k)
  }

  /** How many of the first `n` keys fall in bucket `b`. */
  function BucketCount(keys: seq<int>, n: nat, g: Grouping, b: nat): nat
    requires n <= |keys|
  {
    if n == 0 then 0
    else BucketCount(keys, n - 1, g, b) + (if Bucket(g, keys[n - 1]) == b then 1 else 0)
  }

  /** The summed set sizes of the first `n` keys that fall in bucket `b`. */
  function BucketTotal(idx: Index, keys: seq<int>, n: nat, g: Grouping, b: nat): nat
    requires n <= |keys|
  {
    if n == 0 then 0
    else BucketTotal(idx, keys, n - 1, g, b) + (if Bucket(g, keys[n - 1]) == b then SizeAt(idx, keys[n - 1]) else 0)
  }

  /** The counts of buckets `0 .. m-1` added up. */
  function SumBucketCounts(keys: seq<int>, n: nat, g: Grouping, m: nat): nat
    requires n <= |keys|
  {
    if m == 0 then 0 else SumBucketCounts(keys, n, g, m - 1) + BucketCount(keys, n, g, m - 1)
  }

  lemma {:induction false} SumBucketCountsStep(keys: seq<int>, n: nat, g: Grouping, m: nat)
    requires n < |keys|
    ensures SumBucketCounts(keys, n + 1, g, m)
         == SumBucketCounts(keys, n, g, m) + (if Bucket(g, keys[n]) < m then 1 else 0)
  {
    if m > 0 {
      SumBucketCountsStep(keys, n, g, m - 1);
    }
  }

  lemma {:induction false} SumBucketCountsNone(keys: seq<int>, g: Grouping, m: nat)
    ensures SumBucketCounts(keys, 0, g, m) == 0
  {
    if m > 0 {
      SumBucketCountsNone(keys, g, m - 1);
    }
  }

  /** Every key lands in exactly one bucket: the bucket counts add up to the number of keys. */
  lemma {:induction false} BucketCountsSum(keys: seq<int>, n: nat, g: Grouping)
    requires n <= |keys|
    ensures SumBucketCounts(keys, n, g, NumBuckets(g)) == n
  {
    if n > 0 {
      BucketCountsSum(keys, n - 1, g);
      SumBucketCountsStep(keys, n - 1, g, NumBuckets(g));
      assert Bucket(g, keys[n - 1]) < NumBuckets(g);
    } else {
      SumBucketCountsNone(keys, g, NumBuckets(g));
    }
  }

  /** The slot counts of the buckets of a grouping, bucket by bucket. */
  function CountsOf(keys: seq<int>, g: Grouping): seq<nat>
  {
    seq(NumBuckets(g), b requires 0 <= b => BucketCount(keys, |keys|, g, b))
  }

  /** The participant totals of the buckets of a grouping, bucket by bucket. */
  function TotalsOf(idx: Index, keys: seq<int>, g: Grouping): seq<nat>
  {
    seq(NumBuckets(g), b requires 0 <= b => BucketTotal(idx, keys, |keys|, g, b))
  }

  /**
   * The `daySlotCounts`/`dayParticipantTotals` loop, and its twin for
   * `hourSlotCounts`/`hourParticipantTotals`: one pass over the index
   * incrementing the slot's bucket in two zero-filled arrays.
   */
  method BucketTotals(idx: Index, keys: seq<int>, g: Grouping) returns (counts: seq<nat>, totals: seq<nat>)
    requires IsKeyOrder(idx, keys)
    ensures counts == CountsOf(keys, g) && totals == TotalsOf(idx, keys, g)
  {
    var slotCounts := new nat[NumBuckets(g)](_ => 0);
    var participantTotals := new nat[NumBuckets(g)](_ => 0);
    for i := 0 to |keys|
      invariant forall b :: 0 <= b < slotCounts.Length ==> slotCounts[b] == BucketCount(keys, i, g, b)
      invariant forall b :: 0 <= b < participantTotals.Length ==>
        participantTotals[b] == BucketTotal(idx, keys, i, g, b)
    {
      var key := keys[i];
      var b := Bucket(g, key);
      slotCounts[b] := slotCounts[b] + 1;
      participantTotals[b] := participantTotals[b] + |idx[key]|;
    }
    counts := slotCounts[..];
    totals := participantTotals[..];
  }

  /** How many of the first `n` keys fall on a weekend. */
  function WeekendCount(keys: seq<int>, n: nat): (c: nat)
    requires n <= |keys|
    ensures c <= n
  {
    if n == 0 then 0 else WeekendCount(keys, n - 1) + (if IsWeekend(keys[n - 1]) then 1 else 0)
  }

  /** The weekend slots are the Sunday bucket and the Saturday bucket together. */
  lemma {:induction false} WeekendIsSundayAndSaturday(keys: seq<int>, n: nat)
    requires n <= |keys|
    ensures WeekendCount(keys, n) == BucketCount(keys, n, ByWeekday, 0) + BucketCount(keys, n, ByWeekday, 6)
  {
    if n > 0 {
      WeekendIsSundayAndSaturday(keys, n - 1);
    }
  }

  /**
   * The weekend/weekday loop: every key is counted once, on the weekend
   * side exactly when it falls on a Sunday or a Saturday.
   */
  method WeekendSplit(keys: seq<int>) returns (weekendSlots: nat, weekdaySlots: nat)
    ensures weekendSlots + weekdaySlots == |keys|
    ensures weekendSlots == WeekendCount(keys, |keys|)
  {
    weekendSlots, weekdaySlots := 0, 0;
    for i := 0 to |keys|
      invariant weekendSlots + weekdaySlots == i
      invariant weekendSlots == WeekendCount(keys, i)
    {
      var day := DayOfWeek(keys[i]);
      if day == 0 || day == 6 {
        weekendSlots := weekendSlots + 1;
      } else {
        weekdaySlots := weekdaySlots + 1;
      }
    }
  }

  /** The heatmap after visiting the first `n` keys: each date keeps the largest set size seen so far. */
  function HeatOf(idx: Index, keys: seq<int>, n: nat): map<int, nat>
    requires n <= |keys|
  {
    if n == 0 then map[]
    else
      var h, k := HeatOf(idx, keys, n - 1), keys[n - 1];
      var current := if DayNumber(k) in h then h[DayNumber(k)] else 0;
      if SizeAt(idx, k) > current then h[DayNumber(k) := SizeAt(idx, k)] else h
  }

  /** A date is in the heatmap iff one of its slots has a non-empty participant set. */
  lemma {:induction false} HeatOfDomain(idx: Index, keys: seq<int>, n: nat, d: int)
    requires n <= |keys|
    ensures d in HeatOf(idx, keys, n) <==>
      exists j :: 0 <= j < n && DayNumber(keys[j]) == d && SizeAt(idx, keys[j]) > 0
  {
    if n > 0 {
      HeatOfDomain(idx, keys, n - 1, d);
    }
  }

  /** No slot of a date has more participants than the date's heatmap value. */
  lemma {:induction false} HeatOfBound(idx: Index, keys: seq<int>, n: nat, j: nat)
    requires j < n <= |keys|
    ensures var h, d := HeatOf(idx, keys, n), DayNumber(keys[j]);
      SizeAt(idx, keys[j]) <= if d in h then h[d] else 0
  {
    if j < n - 1 {
      HeatOfBound(idx, keys, n - 1, j);
    }
  }

  /**
   * The heatmap value of a date is attained by one of its slots; with
   * `HeatOfBound`, it is the largest set size among that date's slots (a
   * maximum, not a sum).
   */
  lemma {:induction false} HeatOfAttained(idx: Index, keys: seq<int>, n: nat, d: int)
    requires n <= |keys|
    requires d in HeatOf(idx, keys, n)
    ensures exists j :: 0 <= j < n && DayNumber(keys[j]) == d && SizeAt(idx, keys[j]) == HeatOf(idx, keys, n)[d]
  {
    var h, k := HeatOf(idx, keys, n - 1), keys[n - 1];
    if d in h && HeatOf(idx, keys, n)[d] == h[d] {
      HeatOfAttained(idx, keys, n - 1, d);
      var j :| 0 <= j < n - 1 && DayNumber(keys[j]) == d && SizeAt(idx, keys[j]) == h[d];
    } else {
      assert DayNumber(k) == d && SizeAt(idx, k) == HeatOf(idx, keys, n)[d];
    }
  }

  /** `heatmapData`: the per-date maximum, built in one pass over the index. */
  method Heatmap(idx: Index, keys: seq<int>) returns (heat: map<int, nat>)
    requires IsKeyOrder(idx, keys)
    ensures heat == HeatOf(idx, keys, |keys|)
  {
    heat := map[];
    for i := 0 to |keys|
      invariant heat == HeatOf(idx, keys, i)
    {
      var key := keys[i];
      var dateStr := DayNumber(key);
      var current := if dateStr in heat then heat[dateStr] else 0;
      if |idx[key]| > current {
        heat := heat[dateStr := |idx[key]|];
      }
    }
  }
}
