/**
 * The slot discretiser: `generateSlotKeys` cuts an interval into 15-minute
 * slots, each identified by the instant it starts at, and `isAllDayEvent`
 * tells whole-day intervals from timed ones.
 */
module Slots {
  import opened Time

  /**
   * The first slot of an interval starting at `t`: seconds and milliseconds
   * cleared (`setSeconds(0, 0)`), then the minutes floored to a multiple of
   * `SLOT_MINUTES` (`setMinutes(floor(m / 15) * 15)`).  The result is the
   * slot boundary at or before `t`.
   */
  function SlotStart(t: int): (s: int)
    ensures s % SLOT_MS == 0 && s <= t < s + SLOT_MS
  {
    var cleared := t - t % MINUTE_MS;
    var m := Minutes(cleared);
    ClearedMinutes(t);
    cleared - (m % SLOT_MINUTES) * MINUTE_MS
  }

  /**
   * Clearing the seconds of `t` leaves a whole number `q` of hours plus
   * `Minutes` minutes, so moving back `Minutes % 15` minutes lands on a
   * multiple of the slot width at most one slot before `t`.
   */
  lemma ClearedMinutes(t: int)
    ensures var cleared := t - t % MINUTE_MS;
      var m := Minutes(cleared);
      var s := cleared - (m % SLOT_MINUTES) * MINUTE_MS;
      s % SLOT_MS == 0 && s <= t < s + SLOT_MS
  {
    var r := t % 60_000;
    var mi := t / 60_000;
    var h, m := mi / 60, mi % 60;
    var cleared := t - r;
    assert cleared == h * 3_600_000 + m * 60_000 && 0 <= r < 60_000 by {
      assert t == mi * 60_000 + r;
      assert mi == h * 60 + m;
    }
    assert Minutes(cleared) == m by {
      assert cleared % 3_600_000 == m * 60_000;
    }
    var a, b := m / 15, m % 15;
    var s := cleared - b * 60_000;
    assert s == (h * 4 + a) * 900_000 by {
      assert m == a * 15 + b;
    }
    assert s % 900_000 == 0;
    assert t - s == r + b * 60_000;
  }

  /** The slot starts `cur`, `cur + 15 min`, ... that lie strictly before `end`. */
  function SlotsFrom(cur: int, end: int): seq<int>
    decreases end - cur
  {
    if cur < end then [cur] + SlotsFrom(cur + SLOT_MS, end) else []
  }

  /** The keys `generateSlotKeys(start, end)` returns. */
  function SlotKeys(start: int, end: int): seq<int>
  {
    SlotsFrom(SlotStart(start), end)
  }

  /**
   * `generateSlotKeys`: starts at the aligned slot of `start` and pushes one
   * key per slot while the slot starts before `end`.  Nothing rejects an
   * interval with `end <= start`.
   */
  method GenerateSlotKeys(start: int, end: int) returns (keys: seq<int>)
    ensures keys == SlotKeys(start, end)
    ensures forall i :: 0 <= i < |keys| ==> keys[i] % SLOT_MS == 0 && keys[i] < end
  {
    keys := [];
    var current := SlotStart(start);
    while current < end
      invariant current % SLOT_MS == 0
      invariant keys + SlotsFrom(current, end) == SlotKeys(start, end)
      invariant forall i :: 0 <= i < |keys| ==> keys[i] % SLOT_MS == 0 && keys[i] < end
      decreases end - current
    {
      keys := keys + [current];
      current := current + SLOT_MS;
    }
  }

  /**
   * The shape of the discretisation: the first slot is the aligned start,
   * successive slots are exactly one slot apart, every slot starts before
   * `end`, and the slot after the last one starts at or after `end`.
   */
  lemma {:induction false} SlotsFromShape(cur: int, end: int)
    ensures var r := SlotsFrom(cur, end);
      && (|r| > 0 ==> r[0] == cur)
      && (forall i :: 0 <= i < |r| - 1 ==> r[i + 1] == r[i] + SLOT_MS)
      && (forall i :: 0 <= i < |r| ==> r[i] < end)
      && (if |r| == 0 then end <= cur else end <= r[|r| - 1] + SLOT_MS)
    decreases end - cur
  {
    if cur < end {
      SlotsFromShape(cur + SLOT_MS, end);
    }
  }

  lemma SlotKeysShape(start: int, end: int)
    ensures var r := SlotKeys(start, end);
      && (|r| > 0 ==> r[0] == SlotStart(start))
      && (forall i :: 0 <= i < |r| - 1 ==> r[i + 1] == r[i] + SLOT_MS)
      && (forall i :: 0 <= i < |r| ==> r[i] < end)
      && (if |r| == 0 then end <= SlotStart(start) else end <= r[|r| - 1] + SLOT_MS)
  {
    SlotsFromShape(SlotStart(start), end);
  }

  /** Membership in `SlotsFrom`, from an aligned `cur`: the aligned instants in `[cur, end)`. */
  lemma {:induction false} SlotsFromMembership(cur: int, end: int, k: int)
    requires cur % SLOT_MS == 0
    ensures k in SlotsFrom(cur, end) <==> k % SLOT_MS == 0 && cur <= k < end
    decreases end - cur
  {
    if cur < end {
      SlotsFromMembership(cur + SLOT_MS, end, k);
    }
  }

  /**
   * A slot key belongs to an interval exactly when it is slot-aligned, not
   * before the interval's aligned start, and strictly before its end.
   */
  lemma SlotKeysMembership(start: int, end: int, k: int)
    ensures k in SlotKeys(start, end) <==> k % SLOT_MS == 0 && SlotStart(start) <= k < end
  {
    SlotsFromMembership(SlotStart(start), end, k);
  }

  /** The discretisation is empty exactly when `end` is at or before the aligned start. */
  lemma SlotKeysEmpty(start: int, end: int)
    ensures SlotKeys(start, end) == [] <==> end <= SlotStart(start)
  {
  }

  /**
   * A zero-length event that starts off a slot boundary still covers the one
   * slot its start lies in, because the start is aligned before the loop.
   */
  lemma ZeroLengthUnalignedCoversOne(start: int)
    requires start % SLOT_MS != 0
    ensures SlotKeys(start, start) == [SlotStart(start)]
  {
    var s := SlotStart(start);
    assert s < start < s + SLOT_MS;
    assert SlotsFrom(s + SLOT_MS, start) == [];
  }

  /** Two slot boundaries less than one slot apart are the same boundary. */
  lemma AlignedUnique(a: int, b: int)
    requires a % SLOT_MS == 0 && b % SLOT_MS == 0 && a <= b < a + SLOT_MS
    ensures a == b
  {
    var qa, qb := a / SLOT_MS, b / SLOT_MS;
    assert a == qa * SLOT_MS && b == qb * SLOT_MS;
    assert (qb - qa) * SLOT_MS < SLOT_MS;
    assert 0 <= (qb - qa) * SLOT_MS;
  }

  /** Re-discretising a slot boundary is a no-op: every produced key is its own slot start. */
  lemma SlotStartIdempotent(start: int, end: int, k: int)
    requires k in SlotKeys(start, end)
    ensures SlotStart(k) == k
  {
    SlotKeysMembership(start, end, k);
    AlignedUnique(SlotStart(k), k);
  }

  /**
   * `isAllDayEvent`: both ends fall on midnight to the second (hours,
   * minutes and seconds are zero; milliseconds are not inspected) and the
   * end is later than the start.
   */
  predicate IsAllDayEvent(start: int, end: int)
  {
    && Hours(start) == 0 && Minutes(start) == 0 && Seconds(start) == 0
    && Hours(end) == 0 && Minutes(end) == 0 && Seconds(end) == 0
    && end > start
  }

  /** All-day means: each end lies in the first second of its day, and end > start. */
  lemma AllDayCharacterisation(start: int, end: int)
    ensures IsAllDayEvent(start, end) <==>
      start % DAY_MS < SECOND_MS && end % DAY_MS < SECOND_MS && end > start
  {
    MidnightToTheSecond(start);
    MidnightToTheSecond(end);
  }

  /** The minute-and-second part of an instant is that of its time of day. */
  lemma HourOfDay(t: int)
    ensures t % HOUR_MS == (t % DAY_MS) % HOUR_MS
  {
    var q, d := t / 86_400_000, t % 86_400_000;
    var h, rh := d / 3_600_000, d % 3_600_000;
    assert t == (q * 24 + h) * 3_600_000 + rh;
  }

  /** The second-and-millisecond part of an instant is that of its hour. */
  lemma MinuteOfHour(t: int)
    ensures t % MINUTE_MS == (t % HOUR_MS) % MINUTE_MS
  {
    var q, d := t / 3_600_000, t % 3_600_000;
    var m, rm := d / 60_000, d % 60_000;
    assert t == (q * 60 + m) * 60_000 + rm;
  }

  /** Hours, minutes and seconds are all zero exactly in the first second of a day. */
  lemma MidnightToTheSecond(t: int)
    ensures Hours(t) == 0 && Minutes(t) == 0 && Seconds(t) == 0 <==> t % DAY_MS < SECOND_MS
  {
    HourOfDay(t);
    MinuteOfHour(t);
    var d := t % DAY_MS;
    if d < SECOND_MS {
      assert d % HOUR_MS == d && d % MINUTE_MS == d;
    } else if Hours(t) == 0 && Minutes(t) == 0 {
      assert d % HOUR_MS == d;
      assert d % MINUTE_MS == d;
    }
  }
}
