/**
 The names of the hue variations: the template
 `Hue ${shift > 0 ? '+' : ''}${shift}°` of src/App.js:63, with the
 degree sign written as U+00B0.
 */
module Labels {
  import opened Wrappers

  // ---------------------------------------------------------------------------
  // Decimal numerals
  // ---------------------------------------------------------------------------

  predicate IsDecimalDigit(ch: char) {
    '0' <= ch <= '9'
  }

  predicate AllDecimalDigits(s: string) {
    forall i :: 0 <= i < |s| ==> IsDecimalDigit(s[i])
  }

  function DecimalDigit(d: nat): (ch: char)
    requires d < 10
    ensures IsDecimalDigit(ch)
  {
    "0123456789"[d]
  }

  function DigitValue(ch: char): (d: nat)
    requires IsDecimalDigit(ch)
    ensures d < 10
  {
    ch as int - '0' as int
  }

  /** The decimal numeral of a natural number: no sign, no leading zeros. */
  function DecimalDigits(n: nat): (s: string)
    ensures 0 < |s|
    ensures AllDecimalDigits(s)
    ensures s[0] == '0' ==> n == 0
    decreases n
  {
    if n < 10 then [DecimalDigit(n)] else DecimalDigits(n / 10) + [DecimalDigit(n % 10)]
  }

  /** The value of a string of decimal digits, most significant first. */
  function ParseDecimal(s: string): nat
    requires AllDecimalDigits(s)
    decreases |s|
  {
    if |s| == 0 then 0 else 10 * ParseDecimal(s[..|s| - 1]) + DigitValue(s[|s| - 1])
  }

  /** Reading back a written numeral gives the number. */
  lemma {:induction false} DecimalRoundTrip(n: nat)
    ensures ParseDecimal(DecimalDigits(n)) == n
    decreases n
  {
    var s := DecimalDigits(n);
    if n >= 10 {
      DecimalRoundTrip(n / 10);
      assert s[..|s| - 1] == DecimalDigits(n / 10);
    }
  }

  /** `String(n)` for an integer: a `-` in front of the magnitude when negative. */
  function NumberToString(i: int): (s: string)
    ensures 0 < |s|
    ensures i < 0 <==> s[0] == '-'
  {
    if i < 0 then "-" + DecimalDigits(-i) else DecimalDigits(i)
  }

  // ---------------------------------------------------------------------------
  // Hue labels
  // ---------------------------------------------------------------------------

  const DegreeSign: char := '°'

  /** The name of a hue variation: an explicit `+` only for positive shifts. */
  function HueLabel(shift: int): (text: string)
    ensures 6 <= |text|
    ensures text[..4] == "Hue " && text[|text| - 1] == DegreeSign
  {
    "Hue " + (if shift > 0 then "+" else "") + NumberToString(shift) + [DegreeSign]
  }

  /** A whole string of the form `Hue [+-]\d+°`. */
  predicate IsSignedHueLabel(text: string) {
    && 7 <= |text|
    && text[..4] == "Hue "
    && (text[4] == '+' || text[4] == '-')
    && AllDecimalDigits(text[5..|text| - 1])
    && text[|text| - 1] == DegreeSign
  }

  /** Read the signed shift back out of a name of that form. */
  function ParseHueLabel(text: string): (shift: Option<int>)
    ensures shift.Some? <==> IsSignedHueLabel(text)
  {
    if IsSignedHueLabel(text) then
      var magnitude: int := ParseDecimal(text[5..|text| - 1]);
      var shift: int := if text[4] == '-' then -magnitude else magnitude;
      Some(shift)
    else None
  }

  /** Every non-zero shift gives a name of the form `Hue [+-]\d+°` that reads back as the shift. */
  lemma HueLabelRoundTrip(shift: int)
    requires shift != 0
    ensures IsSignedHueLabel(HueLabel(shift))
    ensures ParseHueLabel(HueLabel(shift)) == Some(shift)
  {
    var text := HueLabel(shift);
    var magnitude: nat := if shift < 0 then -shift else shift;
    var sign := if shift < 0 then '-' else '+';
    assert text == "Hue " + [sign] + DecimalDigits(magnitude) + [DegreeSign];
    assert text[5..|text| - 1] == DecimalDigits(magnitude);
    DecimalRoundTrip(magnitude);
  }

  /** Distinct non-zero shifts get distinct labels. */
  lemma HueLabelInjective(a: int, b: int)
    requires a != 0 && b != 0 && HueLabel(a) == HueLabel(b)
    ensures a == b
  {
    HueLabelRoundTrip(a);
    HueLabelRoundTrip(b);
  }

  /** The four labels the generator uses. */
  lemma HueLabelExamples()
    ensures HueLabel(-30) == "Hue -30°"
    ensures HueLabel(-15) == "Hue -15°"
    ensures HueLabel(15) == "Hue +15°"
    ensures HueLabel(30) == "Hue +30°"
  {
    assert DecimalDigits(30) == "30";
    assert DecimalDigits(15) == "15";
  }
}
