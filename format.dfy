/**
 * The text the engine produces: `formatDuration` for minute counts and the
 * hour labels of the peak-hours list.  Each format comes with a reader that
 * recovers the number from the text, so the round-trip lemmas show that no
 * two values share a text.
 */
module Format {
  import opened Wrappers
  import opened Numeric
  import opened SettingsStore

  const DAY_MINUTES: nat := 1440

  predicate IsDigit(c: char)
  {
    '0' <= c <= '9'
  }

  /** The character of the decimal digit `d`. */
  function Digit(d: nat): (c: char)
    requires d < 10
    ensures IsDigit(c)
  {
    ('0' as int + d) as char
  }

  /** `String(n)` for a non-negative integer: its decimal digits, most significant first. */
  function NatToString(n: nat): (s: string)
    ensures |s| > 0
    ensures forall i :: 0 <= i < |s| ==> IsDigit(s[i])
  {
    if n < 10 then [Digit(n)] else NatToString(n / 10) + [Digit(n % 10)]
  }

  /** The number a string of digits denotes. */
  function DigitsValue(ds: string): nat
  {
    if ds == [] then 0
    else
      var c := ds[|ds| - 1];
      DigitsValue(ds[..|ds| - 1]) * 10 + (if IsDigit(c) then c as int - '0' as int else 0)
  }

  /** How many digits `s` starts with. */
  function DigitPrefixLength(s: string): (k: nat)
    ensures k <= |s|
  {
    if s != [] && IsDigit(s[0]) then 1 + DigitPrefixLength(s[1..]) else 0
  }

  /** Reads the leading decimal number of `s`, returning it and the rest of `s`. */
  function ReadNat(s: string): (nat, string)
  {
    var k := DigitPrefixLength(s);
    (DigitsValue(s[..k]), s[k..])
  }

  lemma {:induction false} NatToStringValue(n: nat)
    ensures DigitsValue(NatToString(n)) == n
  {
    if n >= 10 {
      NatToStringValue(n / 10);
      var s := NatToString(n);
      assert s[..|s| - 1] == NatToString(n / 10);
    }
  }

  lemma {:induction false} DigitPrefixOf(ds: string, rest: string)
    requires forall i :: 0 <= i < |ds| ==> IsDigit(ds[i])
    requires rest == [] || !IsDigit(rest[0])
    ensures DigitPrefixLength(ds + rest) == |ds|
  {
    if ds != [] {
      assert (ds + rest)[1..] == ds[1..] + rest;
      DigitPrefixOf(ds[1..], rest);
    }
  }

  /** Reading a written number back gives the number and leaves what follows it. */
  lemma ReadNatOf(n: nat, rest: string)
    requires rest == [] || !IsDigit(rest[0])
    ensures ReadNat(NatToString(n) + rest) == (n, rest)
  {
    var s := NatToString(n);
    DigitPrefixOf(s, rest);
    assert (s + rest)[..|s|] == s;
    assert (s + rest)[|s|..] == rest;
    NatToStringValue(n);
  }

  /** The number-to-text direction loses nothing: distinct numbers are written differently. */
  lemma NatToStringInjective(a: nat, b: nat)
    requires NatToString(a) == NatToString(b)
    ensures a == b
  {
    NatToStringValue(a);
    NatToStringValue(b);
  }

  // ---------------------------------------------------------------------
  // formatDuration

  /** A number followed by its unit, such as `2 hrs`. */
  datatype Piece = Piece(n: nat, unit: string)

  /** The units `formatDuration` writes, with the minutes each stands for. */
  function UnitMinutes(unit: string): Option<nat>
  {
    if unit == "d" || unit == " day" || unit == " days" then Some(DAY_MINUTES)
    else if unit == " hr" || unit == " hrs" then Some(60)
    else if unit == " min" then Some(1)
    else None
  }

  function PieceText(p: Piece): string
  {
    NatToString(p.n) + p.unit
  }

  /** `parts.join(" ")`. */
  function JoinPieces(ps: seq<Piece>): string
  {
    if ps == [] then ""
    else if |ps| == 1 then PieceText(ps[0])
    else PieceText(ps[0]) + " " + JoinPieces(ps[1..])
  }

  /** `s` pluralised with "s" unless the count is 1. */
  function Plural(unit: string, n: nat): string
  {
    if n != 1 then unit + "s" else unit
  }

  /**
   * What `formatDuration(minutes)` writes, as pieces: "0 min" for nothing,
   * "N day(s)" for whole days, and otherwise the non-zero parts among days
   * ("Nd"), hours ("N hr(s)") and minutes ("N min").
   */
  function DurationPieces(minutes: int): seq<Piece>
  {
    if minutes <= 0 then [Piece(0, " min")]
    else
      var days := minutes / DAY_MINUTES;
      var remainingHours := (minutes % DAY_MINUTES) / 60;
      var remainingMinutes := minutes % 60;
      if remainingHours == 0 && remainingMinutes == 0 && days > 0 then [Piece(days, Plural(" day", days))]
      else
        (if days > 0 then [Piece(days, "d")] else [])
        + (if remainingHours > 0 then [Piece(remainingHours, Plural(" hr", remainingHours))] else [])
        + (if remainingMinutes > 0 then [Piece(remainingMinutes, " min")] else [])
  }

  /** `formatDuration`. */
  function FormatDuration(minutes: int): (s: string)
    ensures minutes <= 0 ==> s == "0 min"
  {
    JoinPieces(DurationPieces(minutes))
  }

  /** The minutes a piece stands for. */
  function PieceMinutes(p: Piece): int
  {
    p.n * UnitMinutes(p.unit).GetOr(0)
  }

  /** The minutes a list of pieces stands for. */
  function PiecesMinutes(ps: seq<Piece>): int
  {
    if ps == [] then 0 else PieceMinutes(ps[0]) + PiecesMinutes(ps[1..])
  }

  /** Reads the unit at the head of `rest`: the minutes it stands for and its length. */
  function ReadUnit(rest: string): Option<(nat, nat)>
  {
    if |rest| >= 1 && rest[0] == 'd' then Some((DAY_MINUTES, 1))
    else if |rest| >= 4 && rest[0] == ' ' && rest[1] == 'd' && rest[2] == 'a' && rest[3] == 'y' then
      (if |rest| >= 5 && rest[4] == 's' then Some((DAY_MINUTES, 5)) else Some((DAY_MINUTES, 4)))
    else if |rest| >= 3 && rest[0] == ' ' && rest[1] == 'h' && rest[2] == 'r' then
      (if |rest| >= 4 && rest[3] == 's' then Some((60, 4)) else Some((60, 3)))
    else if |rest| >= 4 && rest[0] == ' ' && rest[1] == 'm' && rest[2] == 'i' && rest[3] == 'n' then Some((1, 4))
    else None
  }

  /** `x` added to a reading that may have failed. */
  function AddTo(x: int, r: Option<int>): Option<int>
  {
    if r.None? then None else Some(x + r.value)
  }

  /** Reads a duration text back into minutes: pieces separated by single spaces. */
  function ParseDuration(s: string): Option<int>
    decreases |s|
  {
    var k := DigitPrefixLength(s);
    if k == 0 then None
    else
      var (n, rest) := ReadNat(s);
      match ReadUnit(rest)
      case None => None
      case Some((unitMinutes, len)) =>
        if len > |rest| then None
        else
          var after := rest[len..];
          if after == [] then Some(n * unitMinutes)
          else if after[0] != ' ' then None
          else AddTo(n * unitMinutes, ParseDuration(after[1..]))
  }

  lemma ReadUnitOf(unit: string, tail: string)
    requires UnitMinutes(unit).Some?
    requires tail == [] || tail[0] == ' '
    ensures ReadUnit(unit + tail) == Some((UnitMinutes(unit).value, |unit|))
  {
    var rest := unit + tail;
    assert forall i :: 0 <= i < |unit| ==> rest[i] == unit[i];
    assert tail != [] ==> rest[|unit|] == ' ';
  }

  /** Reading the first piece of a text: its minutes, then the rest after one space. */
  lemma ParseHead(p: Piece, tail: string)
    requires UnitMinutes(p.unit).Some?
    requires tail == [] || tail[0] == ' '
    ensures ParseDuration(PieceText(p) + tail)
      == if tail == [] then Some(PieceMinutes(p)) else AddTo(PieceMinutes(p), ParseDuration(tail[1..]))
  {
    var rest := p.unit + tail;
    ReadUnitOf(p.unit, tail);
    assert !IsDigit(rest[0]);
    ReadNatOf(p.n, rest);
    DigitPrefixOf(NatToString(p.n), rest);
    assert rest[|p.unit|..] == tail;
    assert PieceText(p) + tail == NatToString(p.n) + rest;
  }

  /** Reading a joined text: the first piece, then the text of the others. */
  lemma ParseJoinStep(ps: seq<Piece>)
    requires ps != [] && UnitMinutes(ps[0].unit).Some?
    ensures ParseDuration(JoinPieces(ps))
      == if |ps| == 1 then Some(PieceMinutes(ps[0])) else AddTo(PieceMinutes(ps[0]), ParseDuration(JoinPieces(ps[1..])))
  {
    var tail := if |ps| == 1 then "" else " " + JoinPieces(ps[1..]);
    assert JoinPieces(ps) == PieceText(ps[0]) + tail;
    ParseHead(ps[0], tail);
    if |ps| > 1 {
      assert tail[1..] == JoinPieces(ps[1..]);
    }
  }

  /** `read` takes the first piece of a text of pieces and then reads the others. */
  predicate ReadsHead(read: seq<Piece> -> Option<int>, ps: seq<Piece>)
  {
    ps != [] && UnitMinutes(ps[0].unit).Some? ==>
      read(ps) == if |ps| == 1 then Some(PieceMinutes(ps[0])) else AddTo(PieceMinutes(ps[0]), read(ps[1..]))
  }

  /** A reader that takes one piece at a time recovers the minutes of all of them. */
  lemma {:induction false} ReadsAll(read: seq<Piece> -> Option<int>, ps: seq<Piece>)
    requires ps != []
    requires forall i :: 0 <= i < |ps| ==> UnitMinutes(ps[i].unit).Some?
    requires forall qs :: ReadsHead(read, qs)
    ensures read(ps) == Some(PiecesMinutes(ps))
    decreases |ps|
  {
    assert ReadsHead(read, ps);
    if |ps| > 1 {
      ReadsAll(read, ps[1..]);
    }
  }

  /** Reading a text of pieces gives back the minutes they stand for. */
  lemma ParsePieces(ps: seq<Piece>)
    requires ps != []
    requires forall i :: 0 <= i < |ps| ==> UnitMinutes(ps[i].unit).Some?
    ensures ParseDuration(JoinPieces(ps)) == Some(PiecesMinutes(ps))
  {
    var read := (qs: seq<Piece>) => ParseDuration(JoinPieces(qs));
    forall qs: seq<Piece>
      ensures ReadsHead(read, qs)
    {
      if qs != [] && UnitMinutes(qs[0].unit).Some? {
        ParseJoinStep(qs);
      }
    }
    ReadsAll(read, ps);
  }

  /** Days, hours and minutes of a positive duration recombine to it. */
  lemma DurationParts(minutes: int)
    requires minutes > 0
    ensures var days, hours, mins := minutes / DAY_MINUTES, (minutes % DAY_MINUTES) / 60, minutes % 60;
      && days * DAY_MINUTES + hours * 60 + mins == minutes
      && hours < 24
  {
    var days, r := minutes / DAY_MINUTES, minutes % DAY_MINUTES;
    var hours, r2 := r / 60, r % 60;
    assert minutes == (days * 24 + hours) * 60 + r2;
    DivUnique(minutes, 60, days * 24 + hours, r2);
  }

  /** A part that is written only when non-zero stands for its count times its unit. */
  lemma OptionalPiece(n: nat, unit: string)
    requires UnitMinutes(unit).Some?
    ensures var ps := if n > 0 then [Piece(n, unit)] else [];
      && PiecesMinutes(ps) == n * UnitMinutes(unit).value
      && forall i :: 0 <= i < |ps| ==> UnitMinutes(ps[i].unit).Some?
  {
  }

  /**
   * The pieces of a duration use the written units only, there is at least
   * one, and together they stand for exactly the minutes formatted (none for
   * a duration that is not positive).
   */
  lemma DurationPiecesMinutes(minutes: int)
    ensures DurationPieces(minutes) != []
    ensures forall i :: 0 <= i < |DurationPieces(minutes)| ==> UnitMinutes(DurationPieces(minutes)[i].unit).Some?
    ensures PiecesMinutes(DurationPieces(minutes)) == if minutes <= 0 then 0 else minutes
  {
    if minutes > 0 {
      DurationParts(minutes);
      var ps := DurationPieces(minutes);
      var days, hours, mins := minutes / DAY_MINUTES, (minutes % DAY_MINUTES) / 60, minutes % 60;
      if !(hours == 0 && mins == 0 && days > 0) {
        var d := if days > 0 then [Piece(days, "d")] else [];
        var h := if hours > 0 then [Piece(hours, Plural(" hr", hours))] else [];
        var m := if mins > 0 then [Piece(mins, " min")] else [];
        OptionalPiece(days, "d");
        OptionalPiece(hours, Plural(" hr", hours));
        OptionalPiece(mins, " min");
        assert ps == d + (h + m);
        PiecesMinutesAppend(d, h + m);
        PiecesMinutesAppend(h, m);
      } else {
        assert PiecesMinutes(ps) == days * DAY_MINUTES + PiecesMinutes([]);
      }
    }
  }

  lemma {:induction false} PiecesMinutesAppend(xs: seq<Piece>, ys: seq<Piece>)
    ensures PiecesMinutes(xs + ys) == PiecesMinutes(xs) + PiecesMinutes(ys)
  {
    if xs != [] {
      assert (xs + ys)[0] == xs[0];
      assert (xs + ys)[1..] == xs[1..] + ys;
      PiecesMinutesAppend(xs[1..], ys);
    } else {
      assert xs + ys == ys;
    }
  }

  /**
   * `formatDuration` loses nothing for a positive duration: reading the
   * text back gives the minutes; every duration that is not positive reads
   * as "0 min".
   */
  lemma FormatDurationRoundTrip(minutes: int)
    ensures ParseDuration(FormatDuration(minutes)) == Some(if minutes <= 0 then 0 else minutes)
  {
    DurationPiecesMinutes(minutes);
    ParsePieces(DurationPieces(minutes));
  }

  /** An exact positive number of days is written "N day" or "N days". */
  lemma FormatDurationDays(minutes: int)
    requires minutes > 0 && minutes % DAY_MINUTES == 0
    ensures var days := minutes / DAY_MINUTES;
      FormatDuration(minutes) == NatToString(days) + (if days == 1 then " day" else " days")
  {
    DurationParts(minutes);
  }

  // ---------------------------------------------------------------------
  // Hour labels of the peak-hours list

  /** `String(h).padStart(2, "0")`. */
  function Pad2(s: string): string
  {
    if |s| >= 2 then s else seq(2 - |s|, _ => '0') + s
  }

  /** The text of hour `h`: "HH:00" on a 24-hour clock, "hAM"/"hPM" with hours 1..12 otherwise. */
  function HourLabel(h: nat, timeFormat: TimeFormat): string
    requires h < 24
  {
    if timeFormat == TwentyFourHour then Pad2(NatToString(h)) + ":00"
    else
      var period := if h < 12 then "AM" else "PM";
      var displayHour := if h % 12 == 0 then 12 else h % 12;
      NatToString(displayHour) + period
  }

  /** Reads an hour text back into the hour of the day. */
  function ParseHourLabel(text: string, timeFormat: TimeFormat): int
  {
    var (n, rest) := ReadNat(text);
    if timeFormat == TwentyFourHour then n
    else n % 12 + (if rest == "PM" then 12 else 0)
  }

  lemma DigitOf(d: nat)
    requires d < 10
    ensures DigitsValue([Digit(d)]) == d
  {
    assert [Digit(d)][..0] == [];
  }

  /** Hours of the day are written with two digits when padded. */
  lemma TwoDigits(h: nat)
    requires h < 24
    ensures Pad2(NatToString(h)) == [Digit(h / 10), Digit(h % 10)]
    ensures DigitsValue([Digit(h / 10), Digit(h % 10)]) == h
  {
    if h >= 10 {
      assert NatToString(h / 10) == [Digit(h / 10)];
    }
    DigitOf(h / 10);
    assert [Digit(h / 10), Digit(h % 10)][..1] == [Digit(h / 10)];
  }

  lemma HourLabel24RoundTrip(h: nat)
    requires h < 24
    ensures ParseHourLabel(HourLabel(h, TwentyFourHour), TwentyFourHour) == h
    ensures |HourLabel(h, TwentyFourHour)| == 5
  {
    var digits := [Digit(h / 10), Digit(h % 10)];
    TwoDigits(h);
    DigitPrefixOf(digits, ":00");
    assert (digits + ":00")[..2] == digits;
  }

  /**
   * Each hour has its own label: reading the label back gives the hour, and
   * the 24-hour label is always five characters with the hour in two digits.
   */
  lemma HourLabelRoundTrip(h: nat, timeFormat: TimeFormat)
    requires h < 24
    ensures ParseHourLabel(HourLabel(h, timeFormat), timeFormat) == h
    ensures timeFormat == TwentyFourHour ==> |HourLabel(h, timeFormat)| == 5
  {
    if timeFormat == TwentyFourHour {
      HourLabel24RoundTrip(h);
    } else {
      var period := if h < 12 then "AM" else "PM";
      var displayHour := if h % 12 == 0 then 12 else h % 12;
      ReadNatOf(displayHour, period);
    }
  }

  lemma HourLabelInjective(a: nat, b: nat, timeFormat: TimeFormat)
    requires a < 24 && b < 24
    requires HourLabel(a, timeFormat) == HourLabel(b, timeFormat)
    ensures a == b
  {
    HourLabelRoundTrip(a, timeFormat);
    HourLabelRoundTrip(b, timeFormat);
  }
}
