/**
 * `validateConfig` and its helpers: the start-up pass that replaces a missing
 * name, invalid colours, a too-short float duration and an out-of-range heart
 * explosion size with fixed defaults, recording one warning per replacement.
 */
module ConfigValidation {
  import opened Wrappers
  import JsText
  import JsNumbers

  // ---------------------------------------------------------------------------
  // isValidHex: /^#([A-Fa-f0-9]{6}|[A-Fa-f0-9]{3})$/
  // ---------------------------------------------------------------------------

  predicate IsHexDigit(c: char) {
    '0' <= c <= '9' || 'a' <= c <= 'f' || 'A' <= c <= 'F'
  }

  /** `s` is exactly `n` hex digits: the pattern's `[A-Fa-f0-9]{n}$`. */
  predicate HexDigitsExactly(s: string, n: nat)
    decreases n
  {
    if n == 0 then s == [] else s != [] && IsHexDigit(s[0]) && HexDigitsExactly(s[1..], n - 1)
  }

  /** The colour pattern read as written: `#`, then six hex digits or three, then the end. */
  predicate IsValidHex(s: string) {
    s != [] && s[0] == '#' && (HexDigitsExactly(s[1..], 6) || HexDigitsExactly(s[1..], 3))
  }

  lemma {:induction false} HexDigitsExactlyIff(s: string, n: nat)
    ensures HexDigitsExactly(s, n) <==> |s| == n && forall i :: 0 <= i < |s| ==> IsHexDigit(s[i])
    decreases n
  {
    if n > 0 && s != [] {
      HexDigitsExactlyIff(s[1..], n - 1);
      if forall i :: 0 <= i < |s| ==> IsHexDigit(s[i]) {
        assert forall i :: 0 <= i < |s[1..]| ==> IsHexDigit(s[1..][i]) by {
          forall i | 0 <= i < |s[1..]| ensures IsHexDigit(s[1..][i]) {
            assert s[1..][i] == s[i + 1];
          }
        }
      }
    }
  }

  /**
   * A colour is valid exactly when it is `#` followed by 3 or 6 hex digits of
   * either case; every other length and every other character is rejected.
   */
  lemma IsValidHexShape(s: string)
    ensures IsValidHex(s) <==>
      (|s| == 4 || |s| == 7) && s[0] == '#' && forall i :: 1 <= i < |s| ==> IsHexDigit(s[i])
  {
    if s != [] {
      HexDigitsExactlyIff(s[1..], 6);
      HexDigitsExactlyIff(s[1..], 3);
      assert forall i :: 1 <= i < |s| ==> s[i] == s[1..][i - 1];
    }
  }

  // ---------------------------------------------------------------------------
  // getDefaultColor
  // ---------------------------------------------------------------------------

  const KnownColorKeys: set<string> :=
    {"backgroundStart", "backgroundEnd", "buttonBackground", "buttonHover", "textColor"}

  /** The documented default for a colour key; `undefined` (None) for any other key. */
  function DefaultColor(key: string): (r: Option<string>)
    ensures r.Some? <==> key in KnownColorKeys
    ensures r.Some? ==> IsValidHex(r.value)
  {
    match key
    case "backgroundStart" => Some("#ffafbd")
    case "backgroundEnd" => Some("#ffc3a0")
    case "buttonBackground" => Some("#ff6b6b")
    case "buttonHover" => Some("#ff8787")
    case "textColor" => Some("#ff4757")
    case _ => None
  }

  /** `isValidHex(value)` on a stored colour: `undefined` never matches the pattern. */
  predicate ColorIsValid(v: Option<string>) {
    v.Some? && IsValidHex(v.value)
  }

  // ---------------------------------------------------------------------------
  // The settings validateConfig reads and writes, and what it does to them
  // ---------------------------------------------------------------------------

  /**
   * The validated part of the configuration. `colorKeys` is the enumeration
   * order of the colour object's own keys; `colors` maps each key to its value.
   */
  datatype Settings = Settings(
    valentineName: Option<string>,
    colorKeys: seq<string>,
    colors: map<string, Option<string>>,
    floatDuration: Option<string>,
    heartExplosionSize: JsNumbers.Number)

  predicate Distinct(keys: seq<string>) {
    forall i, j :: 0 <= i < j < |keys| ==> keys[i] != keys[j]
  }

  /** An object's keys are distinct, and the enumeration lists exactly its keys. */
  predicate KeysEnumerated(keys: seq<string>, colors: map<string, Option<string>>) {
    Distinct(keys)
    && (forall k :: k in colors ==> k in keys)
    && (forall k :: k in keys ==> k in colors)
  }

  predicate WellFormed(s: Settings) {
    KeysEnumerated(s.colorKeys, s.colors)
  }

  const DefaultName := "My Love"
  const DefaultDuration := "5s"
  const DefaultSize: real := 1.5
  const MinDuration: real := 5.0
  const MinSize: real := 1.0
  const MaxSize: real := 3.0

  /** One recorded warning; `Text` is the message the script pushes for it. */
  datatype Warning = NameNotSet | InvalidColor(key: string) | FloatDurationTooShort | HeartSizeOutOfRange
  {
    function Text(): string {
      match this
      case NameNotSet => "Valentine's name is not set! Using default."
      case InvalidColor(key) => "Invalid color for " + key + "! Using default."
      case FloatDurationTooShort => "Float duration too short! Setting to 5s minimum."
      case HeartSizeOutOfRange => "Heart explosion size should be between 1 and 3! Using default."
    }
  }

  /** `!config.valentineName`: missing or the empty string. */
  predicate NameMissing(name: Option<string>) {
    name.None? || name.value == ""
  }

  /** `parseFloat(floatDuration) < 5`; `parseFloat(undefined)` is NaN. */
  predicate DurationTooShort(d: Option<string>) {
    match d
    case None => false
    case Some(text) => JsNumbers.LessThan(JsNumbers.ParseFloat(text), MinDuration)
  }

  /** `size < 1 || size > 3`; both comparisons are false for NaN. */
  predicate SizeOutOfRange(x: JsNumbers.Number) {
    JsNumbers.LessThan(x, MinSize) || JsNumbers.GreaterThan(x, MaxSize)
  }

  /** The colour each key holds after the pass. */
  function FixedColor(key: string, v: Option<string>): Option<string> {
    if ColorIsValid(v) then v else DefaultColor(key)
  }

  /** The colour map after the pass: each key repaired on its own. */
  function FixedColors(colors: map<string, Option<string>>): map<string, Option<string>> {
    map k | k in colors :: FixedColor(k, colors[k])
  }

  /** The settings after one validation pass. */
  function Sanitise(s: Settings): Settings {
    Settings(
      if NameMissing(s.valentineName) then Some(DefaultName) else s.valentineName,
      s.colorKeys,
      FixedColors(s.colors),
      if DurationTooShort(s.floatDuration) then Some(DefaultDuration) else s.floatDuration,
      if SizeOutOfRange(s.heartExplosionSize) then JsNumbers.Finite(DefaultSize)
      else s.heartExplosionSize)
  }

  /** One warning per invalid colour, in enumeration order. */
  function ColorWarnings(keys: seq<string>, colors: map<string, Option<string>>): seq<Warning> {
    if keys == [] then []
    else
      var last := keys[|keys| - 1];
      ColorWarnings(keys[..|keys| - 1], colors)
      + (if last in colors && !ColorIsValid(colors[last]) then [InvalidColor(last)] else [])
  }

  /** The warnings one validation pass records, in the order it records them. */
  function Warnings(s: Settings): seq<Warning>
    requires WellFormed(s)
  {
    (if NameMissing(s.valentineName) then [NameNotSet] else [])
    + ColorWarnings(s.colorKeys, s.colors)
    + (if DurationTooShort(s.floatDuration) then [FloatDurationTooShort] else [])
    + (if SizeOutOfRange(s.heartExplosionSize) then [HeartSizeOutOfRange] else [])
  }

  // ---------------------------------------------------------------------------
  // Properties of one pass and of a second pass
  // ---------------------------------------------------------------------------

  /**
   * After a pass the name is set and the duration and size no longer fail
   * their checks; a field that was already acceptable is untouched. Because
   * both checks are comparisons that are false on NaN, this does not mean the
   * duration parses to at least 5 or the size lies in [1, 3]: see
   * UnparsableValuesKept.
   */
  lemma SanitiseRepairs(s: Settings)
    ensures !NameMissing(Sanitise(s).valentineName)
    ensures !DurationTooShort(Sanitise(s).floatDuration)
    ensures !SizeOutOfRange(Sanitise(s).heartExplosionSize)
    ensures !NameMissing(s.valentineName) ==> Sanitise(s).valentineName == s.valentineName
    ensures !DurationTooShort(s.floatDuration) ==> Sanitise(s).floatDuration == s.floatDuration
    ensures !SizeOutOfRange(s.heartExplosionSize) ==> Sanitise(s).heartExplosionSize == s.heartExplosionSize
  {
    var r := Sanitise(s);
    if DurationTooShort(s.floatDuration) {
      assert r.floatDuration == Some(DefaultDuration);
      DefaultDurationIsLongEnough();
    } else {
      assert r.floatDuration == s.floatDuration;
    }
  }

  /**
   * After a pass every key is still there, in the same order, and holds its
   * old colour when that was valid and getDefaultColor(key) otherwise.
   */
  lemma SanitiseColors(s: Settings)
    ensures Sanitise(s).colorKeys == s.colorKeys
    ensures Sanitise(s).colors.Keys == s.colors.Keys
    ensures forall k :: k in s.colors ==>
      Sanitise(s).colors[k] == (if ColorIsValid(s.colors[k]) then s.colors[k] else DefaultColor(k))
  {
  }

  /** The replacement duration `"5s"` parses to exactly 5, which is not too short. */
  lemma DefaultDurationIsLongEnough()
    ensures JsNumbers.ParseFloat(DefaultDuration) == JsNumbers.Finite(MinDuration)
    ensures !DurationTooShort(Some(DefaultDuration))
  {
    JsNumbers.ParseFloatDecimal(5, "s");
    assert JsText.DecimalString(5) + "s" == DefaultDuration;
  }

  /**
   * Values the comparisons cannot reject pass through a pass unchanged: an
   * undefined duration, one whose text has no numeric prefix, and a NaN size.
   */
  lemma UnparsableValuesKept(s: Settings)
    ensures s.floatDuration == None ==> Sanitise(s).floatDuration == None
    ensures s.floatDuration.Some? && JsNumbers.ParseFloat(s.floatDuration.value) == JsNumbers.NaN
            ==> Sanitise(s).floatDuration == s.floatDuration
    ensures s.heartExplosionSize == JsNumbers.NaN ==> Sanitise(s).heartExplosionSize == JsNumbers.NaN
  {
  }

  /**
   * The duration check compares the parsed number and ignores the unit:
   * `"40ms"` is kept although it is far shorter than five seconds ...
   */
  lemma LongMillisecondsKept()
    ensures !DurationTooShort(Some("40ms"))
  {
    JsNumbers.ParseFloatDigits("40", "ms");
    assert "40"[..1] == "4";
    assert JsText.DigitsValue("40") == 40;
    assert "40" + "ms" == "40ms";
  }

  /** ... and `"3ms"` is replaced although it is a valid CSS time. */
  lemma ShortMillisecondsReplaced()
    ensures DurationTooShort(Some("3ms"))
  {
    JsNumbers.ParseFloatDigits("3", "ms");
    assert "3" + "ms" == "3ms";
  }

  /** Every colour key known to getDefaultColor holds a valid colour after a pass. */
  lemma KnownColorsValidAfterPass(s: Settings, k: string)
    requires k in s.colors && k in KnownColorKeys
    ensures ColorIsValid(Sanitise(s).colors[k])
  {
  }

  /** Validation is idempotent on the settings: a second pass changes nothing. */
  lemma SanitiseIdempotent(s: Settings)
    ensures Sanitise(Sanitise(s)) == Sanitise(s)
  {
    var r := Sanitise(s);
    SanitiseRepairs(s);
    FixedColorsIdempotent(s.colors);
    assert Sanitise(r) == Settings(r.valentineName, r.colorKeys, r.colors, r.floatDuration, r.heartExplosionSize);
  }

  lemma FixedColorsIdempotent(colors: map<string, Option<string>>)
    ensures FixedColors(FixedColors(colors)) == FixedColors(colors)
  {
    var once := FixedColors(colors);
    forall k | k in once ensures FixedColor(k, once[k]) == once[k] {
      assert ColorIsValid(once[k]) || once[k] == DefaultColor(k);
    }
  }

  lemma ColorWarningsNames(keys: seq<string>, colors: map<string, Option<string>>, w: Warning)
    requires forall k :: k in keys ==> k in colors
    requires w in ColorWarnings(keys, colors)
    ensures exists k :: k in keys && !ColorIsValid(colors[k]) && w == InvalidColor(k)
  {
    if keys != [] {
      var init := keys[..|keys| - 1];
      if w in ColorWarnings(init, colors) {
        ColorWarningsNames(init, colors, w);
        var k :| k in init && !ColorIsValid(colors[k]) && w == InvalidColor(k);
        assert k in keys;
      }
    }
  }

  /**
   * A second pass warns only about colours it cannot repair: keys outside the
   * five known ones, which getDefaultColor left undefined. For the five known
   * keys, and for the name, duration and size, it adds no warning.
   */
  lemma SecondPassWarnings(s: Settings, w: Warning)
    requires WellFormed(s)
    requires w in Warnings(Sanitise(s))
    ensures exists k :: k in s.colorKeys && k !in KnownColorKeys && !ColorIsValid(s.colors[k])
                        && Sanitise(s).colors[k] == None && w == InvalidColor(k)
  {
    var r := Sanitise(s);
    SanitiseRepairs(s);
    SanitiseColors(s);
    assert WellFormed(r);
    assert w in ColorWarnings(r.colorKeys, r.colors);
    ColorWarningsNames(r.colorKeys, r.colors, w);
  }

  /** When every colour key is a known one, a second pass records no warning at all. */
  lemma SecondPassSilent(s: Settings)
    requires WellFormed(s)
    requires forall k :: k in s.colors ==> k in KnownColorKeys
    ensures Warnings(Sanitise(s)) == []
  {
    if Warnings(Sanitise(s)) != [] {
      SecondPassWarnings(s, Warnings(Sanitise(s))[0]);
    }
  }

  lemma {:induction false} ColorWarningsCount(keys: seq<string>, colors: map<string, Option<string>>, k: string)
    requires forall x :: x in keys ==> x in colors
    requires Distinct(keys) && k in keys
    ensures multiset(ColorWarnings(keys, colors))[InvalidColor(k)]
            == if ColorIsValid(colors[k]) then 0 else 1
  {
    var init, last := keys[..|keys| - 1], keys[|keys| - 1];
    assert keys == init + [last];
    assert Distinct(init);
    var tail := if ColorIsValid(colors[last]) then [] else [InvalidColor(last)];
    assert ColorWarnings(keys, colors) == ColorWarnings(init, colors) + tail;
    if k == last {
      assert k !in init;
      ColorWarningsAbsent(init, colors, k);
    } else {
      ColorWarningsCount(init, colors, k);
    }
  }

  lemma {:induction false} ColorWarningsAbsent(keys: seq<string>, colors: map<string, Option<string>>, k: string)
    requires forall x :: x in keys ==> x in colors
    requires k !in keys
    ensures InvalidColor(k) !in ColorWarnings(keys, colors)
  {
    if InvalidColor(k) in ColorWarnings(keys, colors) {
      ColorWarningsNames(keys, colors, InvalidColor(k));
    }
  }

  /**
   * Exactly one warning names each invalid colour key, and none names a valid
   * one; the name, duration and size warnings are never mistaken for it.
   */
  lemma OneWarningPerInvalidColor(s: Settings, k: string)
    requires WellFormed(s) && k in s.colors
    ensures multiset(Warnings(s))[InvalidColor(k)] == if ColorIsValid(s.colors[k]) then 0 else 1
  {
    ColorWarningsCount(s.colorKeys, s.colors, k);
  }

  /** The colour map once the keys in `done` have been repaired. */
  function PartlyFixed(colors: map<string, Option<string>>, done: seq<string>): map<string, Option<string>> {
    map k | k in colors :: if k in done then FixedColor(k, colors[k]) else colors[k]
  }

  /**
   * One step of the enumeration: the key at position i has not been visited
   * yet, and repairing it extends the partial map and the warnings by that key.
   */
  lemma PartlyFixedStep(colors: map<string, Option<string>>, keys: seq<string>, i: nat)
    requires Distinct(keys) && i < |keys| && keys[i] in colors
    ensures PartlyFixed(colors, keys[..i])[keys[i]] == colors[keys[i]]
    ensures ColorIsValid(colors[keys[i]]) ==>
      PartlyFixed(colors, keys[..i + 1]) == PartlyFixed(colors, keys[..i])
      && ColorWarnings(keys[..i + 1], colors) == ColorWarnings(keys[..i], colors)
    ensures !ColorIsValid(colors[keys[i]]) ==>
      PartlyFixed(colors, keys[..i + 1]) == PartlyFixed(colors, keys[..i])[keys[i] := DefaultColor(keys[i])]
      && ColorWarnings(keys[..i + 1], colors) == ColorWarnings(keys[..i], colors) + [InvalidColor(keys[i])]
  {
    var key, done := keys[i], keys[..i];
    assert key !in done;
    assert keys[..i + 1] == done + [key];
    assert (done + [key])[..|done|] == done;
    var before, after := PartlyFixed(colors, done), PartlyFixed(colors, done + [key]);
    assert after == before[key := FixedColor(key, colors[key])];
  }

  lemma PartlyFixedAll(colors: map<string, Option<string>>, keys: seq<string>)
    requires forall k :: k in colors ==> k in keys
    ensures PartlyFixed(colors, keys) == FixedColors(colors)
  {
  }

  // ---------------------------------------------------------------------------
  // The configuration object, validated in place
  // ---------------------------------------------------------------------------

  class Config {
    var valentineName: Option<string>
    var colorKeys: seq<string>
    var colors: map<string, Option<string>>
    var floatDuration: Option<string>
    var heartExplosionSize: JsNumbers.Number

    function Snapshot(): Settings
      reads this
    {
      Settings(valentineName, colorKeys, colors, floatDuration, heartExplosionSize)
    }

    ghost predicate Valid()
      reads this
    {
      KeysEnumerated(colorKeys, colors)
    }

    constructor (s: Settings)
      requires WellFormed(s)
      ensures Valid() && Snapshot() == s
    {
      valentineName := s.valentineName;
      colorKeys := s.colorKeys;
      colors := s.colors;
      floatDuration := s.floatDuration;
      heartExplosionSize := s.heartExplosionSize;
    }

    /**
     * validateConfig: repairs the fields in place and returns the warnings
     * that the script logs with console.warn.
     */
    method Validate() returns (warnings: seq<Warning>)
      requires Valid()
      modifies this
      ensures Valid()
      ensures Snapshot() == Sanitise(old(Snapshot()))
      ensures warnings == Warnings(old(Snapshot()))
    {
      ghost var s := Snapshot();
      warnings := [];

      if NameMissing(valentineName) {
        warnings := warnings + [NameNotSet];
        valentineName := Some(DefaultName);
      }

      var colorWarnings := RepairColors();
      warnings := warnings + colorWarnings;
      ghost var upToColors := warnings;
      assert upToColors == (if NameMissing(s.valentineName) then [NameNotSet] else [])
        + ColorWarnings(s.colorKeys, s.colors);

      if DurationTooShort(floatDuration) {
        warnings := warnings + [FloatDurationTooShort];
        floatDuration := Some(DefaultDuration);
      }

      if SizeOutOfRange(heartExplosionSize) {
        warnings := warnings + [HeartSizeOutOfRange];
        heartExplosionSize := JsNumbers.Finite(DefaultSize);
      }
      assert warnings == upToColors
        + (if DurationTooShort(s.floatDuration) then [FloatDurationTooShort] else [])
        + (if SizeOutOfRange(s.heartExplosionSize) then [HeartSizeOutOfRange] else []);
    }

    /**
     * The `Object.entries(config.colors).forEach` step: each invalid colour is
     * replaced by its default and reported, in enumeration order.
     */
    method RepairColors() returns (warnings: seq<Warning>)
      requires Valid()
      modifies this`colors
      ensures Valid()
      ensures colors == FixedColors(old(colors))
      ensures warnings == ColorWarnings(colorKeys, old(colors))
    {
      ghost var original := colors;
      var entries := colorKeys;
      warnings := [];
      var i := 0;
      while i < |entries|
        invariant 0 <= i <= |entries|
        invariant colors == PartlyFixed(original, entries[..i])
        invariant warnings == ColorWarnings(entries[..i], original)
      {
        var key := entries[i];
        PartlyFixedStep(original, entries, i);
        if !ColorIsValid(colors[key]) {
          warnings := warnings + [InvalidColor(key)];
          colors := colors[key := DefaultColor(key)];
        }
        i := i + 1;
      }
      assert entries[..i] == entries;
      PartlyFixedAll(original, entries);
      assert colors.Keys == original.Keys;
    }
  }
}
