/**
 * Slot keys as the source writes them.
 *
 * `generateSlotKeys` formats each slot as "yyyy-MM-dd'T'HH:mm" and
 * `parseSlotKey` reads such a key back into a local date.  Here a key is
 * the record of its three fixed-width parts: the date (as a day count, in
 * place of year-month-day), the hour and the minute.  The rest of the model
 * uses the slot-start instant itself as the key; the two lemmas below are
 * what makes that sound: formatting then parsing gives the instant back,
 * and comparing keys the way `sort()` compares fixed-width strings is the
 * same as comparing instants.  The parts are fixed-width only for years 100
 * to 9999, and the model assumes every instant lies in that range.
 */
module SlotKey {
  import opened Time

  datatype SlotKeyFields = SlotKeyFields(date: int, hours: nat, minutes: nat)

  /** `format(current, "yyyy-MM-dd'T'HH:mm")`. */
  function FormatSlotKey(t: int): SlotKeyFields
  {
    SlotKeyFields(DayNumber(t), Hours(t), Minutes(t))
  }

  /** `parseSlotKey`: `new Date(year, month - 1, day, hours, minutes)`. */
  function ParseSlotKey(k: SlotKeyFields): int
  {
    k.date * DAY_MS + k.hours * HOUR_MS + k.minutes * MINUTE_MS
  }

  /** Lexicographic order of two fixed-width keys: date, then hour, then minute. */
  predicate KeyLess(a: SlotKeyFields, b: SlotKeyFields)
  {
    a.date < b.date
    || (a.date == b.date && a.hours < b.hours)
    || (a.date == b.date && a.hours == b.hours && a.minutes < b.minutes)
  }

  /** Formatting then parsing returns the instant truncated to the minute. */
  lemma ParseFormatRoundTrip(t: int)
    ensures ParseSlotKey(FormatSlotKey(t)) == t - t % MINUTE_MS
  {
    var d, r := t / DAY_MS, t % DAY_MS;
    assert t == d * DAY_MS + r;
    var h, r2 := r / HOUR_MS, r % HOUR_MS;
    assert r == h * HOUR_MS + r2;
    assert t % HOUR_MS == r2 by {
      assert t == (d * 24 + h) * HOUR_MS + r2;
    }
    var m, r3 := r2 / MINUTE_MS, r2 % MINUTE_MS;
    assert r2 == m * MINUTE_MS + r3;
    assert t % MINUTE_MS == r3 by {
      assert t == (d * 1440 + h * 60 + m) * MINUTE_MS + r3;
    }
  }

  /** For minute-aligned instants (every slot start), a key is unique to its instant. */
  lemma FormatInjective(a: int, b: int)
    requires a % MINUTE_MS == 0 && b % MINUTE_MS == 0
    requires FormatSlotKey(a) == FormatSlotKey(b)
    ensures a == b
  {
    ParseFormatRoundTrip(a);
    ParseFormatRoundTrip(b);
  }

  /**
   * Sorting keys as strings sorts slots chronologically: for minute-aligned
   * instants, key order and instant order agree.
   */
  lemma KeyOrderIsTimeOrder(a: int, b: int)
    requires a % MINUTE_MS == 0 && b % MINUTE_MS == 0
    ensures KeyLess(FormatSlotKey(a), FormatSlotKey(b)) <==> a < b
  {
    ParseFormatRoundTrip(a);
    ParseFormatRoundTrip(b);
    var ka, kb := FormatSlotKey(a), FormatSlotKey(b);
    assert a == ka.date * DAY_MS + ka.hours * HOUR_MS + ka.minutes * MINUTE_MS;
    assert b == kb.date * DAY_MS + kb.hours * HOUR_MS + kb.minutes * MINUTE_MS;
    if ka.date < kb.date {
      assert ka.date * DAY_MS + DAY_MS <= kb.date * DAY_MS;
    } else if ka.date > kb.date {
      assert kb.date * DAY_MS + DAY_MS <= ka.date * DAY_MS;
    }
  }
}
