/**
 * Local wall-clock time as integer milliseconds.
 *
 * An instant is the number of milliseconds since local midnight of 1970-01-01,
 * read on the local wall clock (no time zone, no daylight-saving jumps).  The
 * JavaScript `Date` getters the engine uses (`getHours`, `getMinutes`,
 * `getSeconds`, `getDay`, and the calendar date of a slot key) become plain
 * arithmetic on that number.  Dafny's `/` and `%` floor, so instants before
 * 1970 get the same fields a local clock shows.
 */
module Time {

  /** Width of one availability slot, in minutes (`SLOT_MINUTES`). */
  const SLOT_MINUTES: nat := 15

  const SECOND_MS: nat := 1000
  const MINUTE_MS: nat := 60_000
  const HOUR_MS: nat := 3_600_000
  const DAY_MS: nat := 86_400_000
  /** Width of one slot in milliseconds: `SLOT_MINUTES * 60 * 1000`. */
  const SLOT_MS: nat := 900_000

  /** `getHours()`: the hour of the day. */
  function Hours(t: int): (h: nat)
    ensures h < 24
  {
    (t % DAY_MS) / HOUR_MS
  }

  /** `getMinutes()`: the minute of the hour. */
  function Minutes(t: int): (m: nat)
    ensures m < 60
  {
    (t % HOUR_MS) / MINUTE_MS
  }

  /** `getSeconds()`: the second of the minute (milliseconds are not part of it). */
  function Seconds(t: int): (s: nat)
    ensures s < 60
  {
    (t % MINUTE_MS) / SECOND_MS
  }

  /** The calendar date of an instant, as a day count since 1970-01-01. */
  function DayNumber(t: int): int
  {
    t / DAY_MS
  }

  /** `getDay()`: 0 is Sunday, 6 is Saturday; 1970-01-01 was a Thursday. */
  function DayOfWeek(t: int): (d: nat)
    ensures d < 7
  {
    (DayNumber(t) + 4) % 7
  }

  /** Saturday or Sunday, the weekend test of the weekday/weekend split. */
  predicate IsWeekend(t: int)
  {
    DayOfWeek(t) == 0 || DayOfWeek(t) == 6
  }
}
