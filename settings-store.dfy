/**
 * The user's display settings: 12- or 24-hour clock and the first day of
 * the week.  They are read once from browser storage when the store is
 * created (with every unusable value replaced by its default) and written
 * back whole after each change.
 *
 * Browser storage is an input here: whether a `window` exists, and what
 * `localStorage.getItem("issho-settings")` returned together with what
 * `JSON.parse` made of it.  Writing is a field of the store that holds the
 * last record written.
 */
module SettingsStore {
  import opened Wrappers

  datatype TimeFormat = TwelveHour | TwentyFourHour

  /** `weekStartsOn`: 0 is Sunday, 1 is Monday. */
  type WeekStart = d: int | 0 <= d <= 1

  datatype SettingsState = SettingsState(timeFormat: TimeFormat, weekStartsOn: WeekStart)

  /** `{ timeFormat: "12h", weekStartsOn: 1 }`. */
  const DEFAULT_SETTINGS := SettingsState(TwelveHour, 1)

  /** A value `JSON.parse` can return. */
  datatype Json =
    | JNull
    | JBool(b: bool)
    | JNumber(n: real)
    | JString(s: string)
    | JArray(items: seq<Json>)
    | JObject(fields: map<string, Json>)

  /**
   * What storage held: the raw text `getItem` returned (None when there was
   * no entry, or when reading storage threw) and the outcome of `JSON.parse`
   * on it (None when it threw).
   */
  datatype Stored = Stored(raw: Option<string>, parsed: Option<Json>)

  /** `parsed.name`: None stands for `undefined`; only objects have properties. */
  function Property(j: Json, name: string): Option<Json>
  {
    if j.JObject? && name in j.fields then Some(j.fields[name]) else None
  }

  /** A stored `timeFormat` survives only when it is "12h" or "24h". */
  function SanitizeTimeFormat(v: Option<Json>): TimeFormat
  {
    if v == Some(JString("24h")) then TwentyFourHour
    else TwelveHour
  }

  /** A stored `weekStartsOn` survives only when it is the number 0 or 1. */
  function SanitizeWeekStart(v: Option<Json>): WeekStart
  {
    if v == Some(JNumber(0.0)) then 0
    else 1
  }

  /**
   * There is a window, storage held non-empty text, and `JSON.parse` turned
   * it into something other than `null`: the cases where fields are read.
   */
  predicate HasRecord(hasWindow: bool, stored: Stored)
  {
    && hasWindow
    && stored.raw.Some? && stored.raw != Some("")
    && stored.parsed.Some? && stored.parsed != Some(JNull)
  }

  /**
   * `loadSettings`: defaults when there is no window, no stored text, an
   * empty stored text, text `JSON.parse` rejects, or the value `null`
   * (reading a property of it throws, which the `catch` swallows);
   * otherwise each field is kept when valid and defaulted when not.
   */
  function LoadSettings(hasWindow: bool, stored: Stored): (s: SettingsState)
    ensures !HasRecord(hasWindow, stored) ==> s == DEFAULT_SETTINGS
    ensures HasRecord(hasWindow, stored) ==>
              var p := stored.parsed.value;
              && (s.timeFormat == TwentyFourHour <==> Property(p, "timeFormat") == Some(JString("24h")))
              && (s.weekStartsOn == 0 <==> Property(p, "weekStartsOn") == Some(JNumber(0.0)))
  {
    if !hasWindow then DEFAULT_SETTINGS
    else match stored.raw
      case None => DEFAULT_SETTINGS
      case Some(raw) =>
        if raw == "" then DEFAULT_SETTINGS
        else match stored.parsed
          case None => DEFAULT_SETTINGS
          case Some(p) =>
            if p == JNull then DEFAULT_SETTINGS
            else SettingsState(
              SanitizeTimeFormat(Property(p, "timeFormat")),
              SanitizeWeekStart(Property(p, "weekStartsOn")))
  }

  /** The record `JSON.stringify` writes for a settings state, as `JSON.parse` reads it back. */
  function ToJson(s: SettingsState): (j: Json)
    ensures j.JObject? && j.fields.Keys == {"timeFormat", "weekStartsOn"}
  {
    JObject(map[
      "timeFormat" := JString(if s.timeFormat == TwentyFourHour then "24h" else "12h"),
      "weekStartsOn" := JNumber(s.weekStartsOn as real)])
  }

  /** Loading a record the store persisted gives back exactly the persisted state. */
  lemma LoadPersisted(s: SettingsState, raw: string)
    requires raw != ""
    ensures LoadSettings(true, Stored(Some(raw), Some(ToJson(s)))) == s
  {
    var p := ToJson(s);
    assert Property(p, "timeFormat") == Some(p.fields["timeFormat"]);
    assert Property(p, "weekStartsOn") == Some(p.fields["weekStartsOn"]);
  }

  /** Values of the wrong type or range fall back field by field, never failing. */
  lemma LoadInvalidFields(raw: string, fields: map<string, Json>)
    requires raw != ""
    requires "timeFormat" in fields && fields["timeFormat"] !in {JString("12h"), JString("24h")}
    requires "weekStartsOn" in fields && fields["weekStartsOn"] !in {JNumber(0.0), JNumber(1.0)}
    ensures LoadSettings(true, Stored(Some(raw), Some(JObject(fields)))) == DEFAULT_SETTINGS
  {
  }

  class Store {
    var timeFormat: TimeFormat
    var weekStartsOn: WeekStart
    /** The record last written to storage by this store, if any. */
    var persisted: Option<SettingsState>

    function State(): SettingsState
      reads this
    {
      SettingsState(timeFormat, weekStartsOn)
    }

    /** `create(...)` spreads `loadSettings()` into the initial state. */
    constructor (hasWindow: bool, stored: Stored)
      ensures State() == LoadSettings(hasWindow, stored)
      ensures persisted == None
    {
      var s := LoadSettings(hasWindow, stored);
      timeFormat := s.timeFormat;
      weekStartsOn := s.weekStartsOn;
      persisted := None;
    }

    /**
     * `persistSettings`: writes the whole state; a failing write (no
     * storage, quota exceeded) is swallowed and leaves storage as it was.
     */
    method PersistSettings(storageWritable: bool)
      modifies this`persisted
      ensures persisted == if storageWritable then Some(State()) else old(persisted)
    {
      if storageWritable {
        persisted := Some(State());
      }
    }

    /** `setTimeFormat`: replaces only `timeFormat`, then persists the new full state. */
    method SetTimeFormat(f: TimeFormat, storageWritable: bool)
      modifies this
      ensures State() == old(State()).(timeFormat := f)
      ensures persisted == if storageWritable then Some(State()) else old(persisted)
    {
      timeFormat := f;
      PersistSettings(storageWritable);
    }

    /** `setWeekStartsOn`: replaces only `weekStartsOn`, then persists the new full state. */
    method SetWeekStartsOn(d: WeekStart, storageWritable: bool)
      modifies this
      ensures State() == old(State()).(weekStartsOn := d)
      ensures persisted == if storageWritable then Some(State()) else old(persisted)
    {
      weekStartsOn := d;
      PersistSettings(storageWritable);
    }
  }
}
