# Valentine page: a verified model of its script logic

This project models the logic in `script.js` of the valentine-day page that does not
depend on the browser. It has four pieces:

- **Config check (`validateConfig`).** Runs once at start-up. It replaces a missing
  valentine name, invalid colours, a float duration whose parsed number is below 5 (the unit
  is ignored) and an out-of-range heart explosion size with fixed defaults. It records one warning per
  replacement.
- **Secret-answer reveal.** A click counter that stops at 15 and drives the element's
  scale. Question navigation shows or hides the element but never resets the counter.
- **Love-meter input handler.** Sets the fill percentage, the overlay and its message
  tier. It also keeps the milestone watermark, so each threshold fires at most one heart
  burst until the slider drops back to 100 or below.
- **Celebration emoji row.** Shows each configured entry unless its trimmed text is empty.

The modules follow the script:

| file | module | contents |
|---|---|---|
| `wrappers.dfy` | `Wrappers` | `Option`. It stands for JavaScript's `undefined`. |
| `js_text.dfy` | `JsText` | `String.prototype.trim` with the ECMAScript whitespace set, and decimal digit strings (`String(n)`). |
| `js_numbers.dfy` | `JsNumbers` | Numbers with NaN and the infinities. Comparisons with NaN are false, as in JavaScript. Also `parseFloat` on strings. |
| `config_validation.dfy` | `ConfigValidation` | `isValidHex`, `getDefaultColor`, and `validateConfig` as the `Config` class. |
| `secret_reveal.dfy` | `SecretReveal` | `revealSecretAnswer` and the secret-answer part of `showNextQuestion`, as the `Reveal` class. |
| `love_meter.dfy` | `LoveMeter` | `updateLoveFill` and the `input` listener, as the `Meter` class. |
| `celebration.dfy` | `Celebration` | The emoji loop of `celebrate`, as the `EmojiRow` class. |

Code that updates state in place is modelled as a class with the same fields. Each
method there is proved against a pure function of the old state:

| method | specification function |
|---|---|
| `Config.Validate` | `Sanitise` and `Warnings` |
| `Config.RepairColors` | `FixedColors` and `ColorWarnings` |
| `Meter.Input` | `WatermarkAfter`, `Bursts` and `TierOf` |
| `EmojiRow.Populate` | `Shown` |

The properties the page relies on are lemmas about those functions.

Three behaviours of the code are easy to misread:

- **High tier starts above 1000.** The code tests `value > 1000` (`script.js:239`,
  `script.js:250`), so exactly 1000 still shows the normal message and records the 100
  milestone.
- **No re-fire above 100.** The watermark is cleared only when the value is 100 or below
  (`script.js:257-262`). Dragging from 6000 back to 2000 and up to 5000 fires no second
  burst (`LoveMeter.DragBackDoesNotRefire`).
- **The reveal level never resets.** The comment at `script.js:158` says the level resets
  when the visitor returns to the first question, but `showNextQuestion` never touches
  the counter (`SecretReveal.NavigationNeverResets`, `SecretReveal.Reveal.Run`).

## Model

| member | source | states |
|---|---|---|
| `ConfigValidation.IsValidHexShape` | script.js:18 | A colour passes `isValidHex` exactly when it is `#` followed by 3 or 6 hex digits of either case. Every other length or character is rejected. |
| `ConfigValidation.HexDigitsExactlyIff` | script.js:18 | The pattern's `[A-Fa-f0-9]{n}$` holds exactly when the rest of the string has length n and is all hex digits. |
| `ConfigValidation.DefaultColor` | script.js:45-54 | `getDefaultColor` is defined exactly for the five known colour keys. Every default it returns passes `isValidHex`. Any other own key gives `undefined`. |
| `ConfigValidation.Config.Validate` | script.js:8-42 | The name, colour, duration and size checks run in the source's order. The new settings are `Sanitise` of the old ones. The warnings are `Warnings` of the old settings, in the order the script pushes them. The key enumeration stays consistent. |
| `ConfigValidation.Config.RepairColors` | script.js:19-24 | Each colour that fails `isValidHex` is replaced by `getDefaultColor(key)`, and valid ones are kept. One warning is recorded per invalid key, in the order `Object.entries` lists the keys. |
| `ConfigValidation.SanitiseRepairs` | script.js:12-35 | After a pass the name is set, and the duration and size no longer fail their checks. A field that was already acceptable is left unchanged. A NaN or undefined value passes both checks and is kept. |
| `ConfigValidation.SanitiseColors` | script.js:19-24 | After a pass the colour keys and their order are unchanged. Each value is the old one if valid, or the key's default otherwise. |
| `ConfigValidation.UnparsableValuesKept` | script.js:27-35 | An undefined duration, a duration with no numeric prefix and a NaN size are kept unchanged, because comparisons with NaN are false. |
| `ConfigValidation.LongMillisecondsKept` | script.js:27 | The check ignores the unit: `"40ms"` parses to 40 and is kept. |
| `ConfigValidation.ShortMillisecondsReplaced` | script.js:27-30 | `"3ms"` parses to 3 and is too short, so it is replaced. |
| `ConfigValidation.DefaultDurationIsLongEnough` | script.js:27-30 | `parseFloat("5s")` is exactly 5, so the replacement duration never triggers the warning again. |
| `ConfigValidation.KnownColorsValidAfterPass` | script.js:19-54 | After a pass, each of the five known colour keys holds a valid colour. |
| `ConfigValidation.SanitiseIdempotent` | script.js:8-42 | A second validation pass leaves the settings unchanged. |
| `ConfigValidation.FixedColorsIdempotent` | script.js:19-24 | Repairing already-repaired colours changes nothing. |
| `ConfigValidation.ColorWarningsNames` | script.js:20-21 | Every colour warning names a configured key whose value is invalid. |
| `ConfigValidation.SecondPassWarnings` | script.js:8-42 | A second pass warns only about keys outside the five known ones whose colour is invalid. Those are left `undefined` by the first pass and stay invalid. It never warns about the name, duration or size. |
| `ConfigValidation.SecondPassSilent` | script.js:8-42 | If every colour key is a known one, a second pass records no warnings. |
| `ConfigValidation.ColorWarningsCount` | script.js:19-24 | With distinct keys, an invalid key is warned about exactly once and a valid key never. |
| `ConfigValidation.ColorWarningsAbsent` | script.js:19-24 | A key that is not enumerated is never warned about. |
| `ConfigValidation.OneWarningPerInvalidColor` | script.js:8-42 | Among all of `validateConfig`'s warnings, each invalid colour key is named once and each valid key never. |
| `ConfigValidation.PartlyFixedStep` | script.js:19-24 | One `forEach` step finds its key not yet visited. It extends the repaired map and the warning list by that key alone. |
| `ConfigValidation.PartlyFixedAll` | script.js:19 | Once every key has been enumerated, the partly repaired map is the fully repaired one. |
| `JsNumbers.ParseFloatDecimal` | script.js:27 | `parseFloat` of a decimal numeral followed by a unit such as `s` gives that number. |
| `JsNumbers.ParseFloatDigits` | script.js:27 | `parseFloat` of a digit string followed by a non-numeric suffix gives the digits' value. |
| `JsNumbers.DecimalPrefixOfDigits` | script.js:27 | The longest numeric prefix of digits followed by a unit is those digits. |
| `JsNumbers.DigitRunOfDigits` | script.js:27 | The digit run of a digit string followed by a unit stops exactly at the unit. |
| `JsNumbers.DigitRun` | script.js:27 | The scanned run is all digits, and the next character, if any, is not a digit. |
| `JsText.TrimStartSpec` | script.js:286 | `trim` drops only whitespace from the front. What remains is a suffix that is empty or starts with a non-whitespace character. |
| `JsText.TrimEndSpec` | script.js:286 | `trim` drops only whitespace from the back. What remains is a prefix that is empty or ends with a non-whitespace character. |
| `JsText.TrimEmptyIffBlank` | script.js:286 | `trim` gives the empty string exactly when the input is all whitespace. |
| `JsText.DecimalString` | script.js:144 | `String(level)` is a non-empty digit string with no leading zero (except "0" itself). |
| `JsText.DecimalStringValue` | script.js:144 | The digits of `String(n)` read back to n. |
| `SecretReveal.NextLevel` | script.js:140 | `Math.min(level + 1, 15)` is never above 15. It adds one below the cap and stays at 15 from then on. |
| `SecretReveal.NextLevelMonotone` | script.js:140 | A click never lowers the level. It leaves the level unchanged exactly at the cap. |
| `SecretReveal.LevelNeverFalls` | script.js:137-167 | During a session the level never falls below its start or rises above 15. More clicks never give a smaller level. |
| `SecretReveal.ScaleGrowsLinearly` | script.js:134-142 | The scale grows by 0.12 per level, from 0.85 up to at most 2.65 at the cap. |
| `SecretReveal.NavigationNeverResets` | script.js:148-167 | For any mix of reveal clicks and question changes starting from a level of at most 15, the level is min(start + number of clicks, 15). Navigation never resets it. |
| `SecretReveal.Reveal.RevealSecretAnswer` | script.js:137-145 | Without the element nothing changes. Otherwise the level steps to `NextLevel`, the element is revealed, and the scale and `data-reveal-level` attribute match the new level. |
| `SecretReveal.Reveal.ShowNextQuestion` | script.js:148-167 | If the target question's panel is missing, the script throws and the secret answer is left as it was. Otherwise the element is hidden on every question but the first. The level, scale and revealed state are never changed. |
| `SecretReveal.Reveal.Run` | script.js:137-167 | A session of reveal clicks and question changes calls the two handlers in turn. With the element present the level ends at min(old level + clicks, 15), whatever the navigation in between. Without it the level never moves. |
| `LoveMeter.FillPercent` | script.js:197-200 | The fill is `value / 100`, capped at 100. |
| `LoveMeter.Threshold` | script.js:236-245 | The milestone a value above 100 reaches is 100, 1000 or 5000, and never above the value. |
| `LoveMeter.WatermarkAfter` | script.js:236-261 | The watermark resets to 0 at or below 100. Above 100 it never falls and reaches at least the value's milestone. It only ever holds 0, 100, 1000 or 5000. |
| `LoveMeter.BurstIffWatermarkRises` | script.js:236-245 | A burst fires exactly when an input above 100 raises the watermark, and then it rises to the value's milestone. |
| `LoveMeter.TierMatchesThreshold` | script.js:247-256 | The message tier and the recorded milestone use the same thresholds. Extreme means 5000, high means 1000, normal means 100. |
| `LoveMeter.TierMonotone` | script.js:247-256 | A larger value above 100 never shows a lower tier. |
| `LoveMeter.BurstsBoundedByClimb` | script.js:224-263 | While the value stays above 100, the watermark never falls. Bursts fired plus the starting milestone rank never exceed the final rank. |
| `LoveMeter.AtMostThreeBursts` | script.js:224-263 | From a reset meter, a session above 100 fires at most three bursts. |
| `LoveMeter.DragBackDoesNotRefire` | script.js:236-245 | Dragging to 6000, back to 2000, then up to 5000 fires one burst, not two. |
| `LoveMeter.StepwiseClimbFiresEach` | script.js:236-245 | Climbing to 101, then 1001, then 5000 fires one burst at each threshold, three in all. |
| `LoveMeter.ResetRearms` | script.js:257-262 | After the value drops to 100 or below, any value above 100 fires a burst again. |
| `LoveMeter.Meter.Input` | script.js:224-263 | The watermark becomes `WatermarkAfter(old, value)`, and a burst fires exactly when `Bursts` holds. The overlay is hidden and the width reset exactly when value <= 100. The message is `TierOf(value)`, super-love exactly when value >= 5000, and the fill is `FillPercent(value)`. |
| `Celebration.ShownSound` | script.js:284-290 | The row shows only configured entries that are not blank, and never more than configured. |
| `Celebration.SkippedIffBlank` | script.js:286 | An entry is skipped exactly when it is all whitespace. |
| `Celebration.ShownAppend` | script.js:285-290 | Filtering a concatenation filters each part and keeps them in order. |
| `Celebration.ShownCount` | script.js:285-290 | Each kept entry appears as often as it was configured, and a blank entry not at all. |
| `Celebration.ShownIdempotent` | script.js:285-290 | Filtering the shown entries again removes nothing. |
| `Celebration.ShownSingle` | script.js:286-290 | A single entry is shown unless it is blank. |
| `Celebration.SpaceSkipped` | script.js:286 | A lone space is skipped. |
| `Celebration.PartyPopperKept` | script.js:286 | The party-popper emoji is kept. |
| `Celebration.HeartKept` | script.js:286 | The heart emoji (with its variation selector) is kept. |
| `Celebration.BlankMiddleSkipped` | script.js:285-290 | In a three-entry row, a blank middle entry is dropped and the other two are kept in order. |
| `Celebration.BlankEntrySkipped` | script.js:284-290 | The row of party popper, space and heart shows two entries. The space is skipped. |
| `Celebration.EmojiRow.Populate` | script.js:282-290 | The container is emptied, then ends up holding exactly `Shown(emojis)`: the non-blank entries in configured order. |

## Left out

- DOM work, timers, `requestAnimationFrame`, `Math.random` and the particle effects are not modelled. That covers floating elements, `milestoneBurst`, confetti and the heart explosion. A burst is a `burst` flag in the handler's result.
- `moveButton` is not modelled. Its position comes from `Math.random` and its wiggle from a timer.
- The music player is not modelled. Its `musicStarted` guard and volume default only matter when the browser's autoplay policy accepts or rejects `play()`, which is outside the script.
- `setInitialPosition` and the page text are not modelled. They only write fixed values into the DOM.
- The meter's overflow width is not modelled. It depends on `window.innerWidth`.
- `console.warn` is not modelled. The warnings are returned as a sequence of `Warning` values, and `Warning.Text` gives each message's wording.
- `JsNumbers.ParseFloat`: real numbers are exact. The rounding of decimal text to a double is not modelled.
- `JsNumbers.ParseFloat`: only string durations are modelled. Non-string durations and the string-to-number conversion of a string heart size are not modelled. The size is taken as an already-converted number.
- `ConfigValidation.Config.Validate`: colour values are strings or `undefined`. Other value types and colour keys that name inherited `Object.prototype` members are not modelled.
- `ConfigValidation.Config.Validate`: the TypeError thrown when `colors` or `animations` is missing or null is not modelled (script.js:19, script.js:27, script.js:32). The settings always hold both, so a pass always finishes.
- `ConfigValidation.Config.Validate`: the name is a string or `undefined`. Other falsy values that `!config.valentineName` also replaces (`0`, `false`, `null`, `NaN`) are not modelled.
- `ConfigValidation.DefaultColor`: `getDefaultColor` on a key that names an inherited `Object.prototype` member, such as `toString`, returns that member rather than `undefined` (script.js:53). The model gives None for every key outside the five known ones.
- `Celebration.EmojiRow.Populate`: takes the entries as a sequence. The spread of a configured string into code points is not modelled.
- `Celebration.EmojiRow.Populate`: every entry is a string. The TypeError `trim` throws on an entry that is not a string is not modelled (script.js:286).
- `LoveMeter.Meter.Input`: takes the integer `parseInt` returns for the slider. A NaN slider value is not modelled, since the range input always reports a number.
- `SecretReveal.Reveal.RevealSecretAnswer`: the scale is an exact real. The floating-point sum the script computes is not modelled.
