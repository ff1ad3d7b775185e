/**
 * JavaScript numbers as the script compares them, and `parseFloat`.
 * Finite values are exact reals; NaN makes every comparison false.
 */
module JsNumbers {
  import opened Wrappers
  import JsText

  datatype Number = NaN | PosInfinity | NegInfinity | Finite(value: real)

  /** `x < c` for a finite constant `c`: false whenever `x` is NaN. */
  predicate LessThan(x: Number, c: real) {
    match x
    case NaN => false
    case PosInfinity => false
    case NegInfinity => true
    case Finite(v) => v < c
  }

  /** `x > c` for a finite constant `c`: false whenever `x` is NaN. */
  predicate GreaterThan(x: Number, c: real) {
    match x
    case NaN => false
    case PosInfinity => true
    case NegInfinity => false
    case Finite(v) => v > c
  }

  /** Length of the run of decimal digits that starts `s`. */
  function DigitRun(s: string): (n: nat)
    ensures n <= |s| && JsText.AllDigits(s[..n])
    ensures n < |s| ==> !JsText.IsDigit(s[n])
  {
    if s == [] || !JsText.IsDigit(s[0]) then 0 else 1 + DigitRun(s[1..])
  }

  function Pow10(n: nat): (r: nat)
    ensures r > 0
  {
    if n == 0 then 1 else 10 * Pow10(n - 1)
  }

  /**
   * The factor an ExponentPart (`e` or `E`, an optional sign, at least one digit)
   * at the start of `s` contributes; 1 when `s` does not start with a complete one,
   * since parseFloat then stops before the `e`.
   */
  function ExponentScale(s: string): real {
    if |s| > 0 && (s[0] == 'e' || s[0] == 'E') then
      var signed := |s| > 1 && (s[1] == '+' || s[1] == '-');
      var digits := if signed then s[2..] else s[1..];
      var n := DigitRun(digits);
      var p := Pow10(JsText.DigitsValue(digits[..n])) as real;
      if n == 0 then 1.0
      else if signed && s[1] == '-' then 1.0 / p
      else p
    else 1.0
  }

  /**
   * The value of the longest unsigned decimal literal (digits, an optional `.` and
   * fraction digits, at least one digit in all, then an optional exponent) that
   * starts `s`; None when `s` does not start with one.
   */
  function UnsignedDecimalPrefix(s: string): Option<real> {
    var i := DigitRun(s);
    if i < |s| && s[i] == '.' then FractionPrefix(s[..i], s[i + 1..])
    else if i == 0 then None
    else Some(JsText.DigitsValue(s[..i]) as real * ExponentScale(s[i..]))
  }

  /** The literal `intDigits.afterDot...`: fraction digits, then an optional exponent. */
  function FractionPrefix(intDigits: string, afterDot: string): Option<real>
    requires JsText.AllDigits(intDigits)
  {
    var f := DigitRun(afterDot);
    if intDigits == [] && f == 0 then None
    else
      var mantissa := JsText.DigitsValue(intDigits + afterDot[..f]) as real / Pow10(f) as real;
      Some(mantissa * ExponentScale(afterDot[f..]))
  }

  /**
   * `parseFloat(s)`: skip leading whitespace, read an optional sign, then
   * `Infinity` or the longest decimal literal; NaN when neither is there.
   */
  function ParseFloat(s: string): Number {
    var t := JsText.TrimStart(s);
    var signed := t != [] && (t[0] == '+' || t[0] == '-');
    var negative := signed && t[0] == '-';
    var body := if signed then t[1..] else t;
    if |body| >= 8 && body[..8] == "Infinity" then
      (if negative then NegInfinity else PosInfinity)
    else
      match UnsignedDecimalPrefix(body)
      case None => NaN
      case Some(m) => Finite(if negative then -m else m)
  }

  /** A character that cannot continue a decimal literal, such as the `s` of a CSS time. */
  predicate EndsLiteral(unit: string) {
    unit == [] || !(JsText.IsDigit(unit[0]) || unit[0] == '.' || unit[0] == 'e' || unit[0] == 'E')
  }

  /** `parseFloat(String(n) + unit)` is `n` for a unit such as `"s"` or `"ms"`. */
  lemma ParseFloatDecimal(n: nat, unit: string)
    requires EndsLiteral(unit)
    ensures ParseFloat(JsText.DecimalString(n) + unit) == Finite(n as real)
  {
    ParseFloatDigits(JsText.DecimalString(n), unit);
    JsText.DecimalStringValue(n);
  }

  lemma ParseFloatDigits(d: string, unit: string)
    requires d != [] && JsText.AllDigits(d) && EndsLiteral(unit)
    ensures ParseFloat(d + unit) == Finite(JsText.DigitsValue(d) as real)
  {
    var s := d + unit;
    assert s[0] == d[0];
    var t := JsText.TrimStart(s);
    assert t == s;
    assert !(|t| >= 8 && t[..8] == "Infinity") by {
      if |t| >= 8 { assert t[..8][0] == t[0]; }
    }
    DecimalPrefixOfDigits(d, unit);
  }

  lemma DecimalPrefixOfDigits(d: string, unit: string)
    requires d != [] && JsText.AllDigits(d) && EndsLiteral(unit)
    ensures UnsignedDecimalPrefix(d + unit) == Some(JsText.DigitsValue(d) as real)
  {
    var s := d + unit;
    DigitRunOfDigits(d, unit);
    var i := DigitRun(s);
    assert i == |d|;
    assert !(i < |s| && s[i] == '.') by {
      if i < |s| { assert s[i] == unit[0]; }
    }
    assert s[..i] == d && s[i..] == unit;
    assert ExponentScale(unit) == 1.0;
  }

  lemma {:induction false} DigitRunOfDigits(d: string, unit: string)
    requires JsText.AllDigits(d) && EndsLiteral(unit)
    ensures DigitRun(d + unit) == |d|
  {
    if d != [] {
      assert (d + unit)[1..] == d[1..] + unit;
      DigitRunOfDigits(d[1..], unit);
    }
  }
}
