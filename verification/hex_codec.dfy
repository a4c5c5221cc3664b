/**
 Conversion between the textual colour form `#rrggbb` and RGB channels:
 `hexToRgb` (src/App.js:16-23) and `rgbToHex` with its `clamp`
 (src/App.js:25-31).
 */
module HexCodec {
  import opened Wrappers
  import opened Colors

  const LowerDigits: string := "0123456789abcdef"

  // ---------------------------------------------------------------------------
  // Digits
  // ---------------------------------------------------------------------------

  /** A character the case-insensitive class `[a-f\d]` accepts (ASCII digits only). */
  predicate IsHexDigit(ch: char) {
    '0' <= ch <= '9' || 'a' <= ch <= 'f' || 'A' <= ch <= 'F'
  }

  /** A digit as `toString(16)` writes it: lower case. */
  predicate IsLowerHexDigit(ch: char) {
    '0' <= ch <= '9' || 'a' <= ch <= 'f'
  }

  predicate AllHexDigits(s: string) {
    forall i :: 0 <= i < |s| ==> IsHexDigit(s[i])
  }

  /** The lower-case digit for a value below 16. */
  function LowerDigit(d: nat): (ch: char)
    requires d < 16
    ensures IsLowerHexDigit(ch)
  {
    LowerDigits[d]
  }

  /** The value of one hexadecimal digit of either case. */
  function DigitValue(ch: char): (d: nat)
    requires IsHexDigit(ch)
    ensures d < 16
  {
    if '0' <= ch <= '9' then ch as int - '0' as int
    else if 'a' <= ch <= 'f' then ch as int - 'a' as int + 10
    else ch as int - 'A' as int + 10
  }

  /** The same digit, lower-cased (digits 0-9 are unchanged). */
  function ToLowerDigit(ch: char): (lc: char)
    requires IsHexDigit(ch)
    ensures IsLowerHexDigit(lc)
  {
    if 'A' <= ch <= 'F' then (ch as int - 'A' as int + 'a' as int) as char else ch
  }

  function ToLower(s: string): (t: string)
    requires AllHexDigits(s)
    ensures |t| == |s|
    ensures forall i :: 0 <= i < |s| ==> t[i] == ToLowerDigit(s[i])
  {
    if |s| == 0 then [] else [ToLowerDigit(s[0])] + ToLower(s[1..])
  }

  /** Writing a value as a lower-case digit and reading it back gives the value. */
  lemma DigitRoundTrip(d: nat)
    requires d < 16
    ensures IsHexDigit(LowerDigit(d)) && DigitValue(LowerDigit(d)) == d
  {
  }

  /** Reading a digit and writing its value back gives the lower-cased digit. */
  lemma DigitValueLower(ch: char)
    requires IsHexDigit(ch)
    ensures LowerDigit(DigitValue(ch)) == ToLowerDigit(ch)
  {
  }

  // ---------------------------------------------------------------------------
  // hexToRgb
  // ---------------------------------------------------------------------------

  /**
   The strings the pattern `/^#?([a-f\d]{2})([a-f\d]{2})([a-f\d]{2})$/i`
   matches: an optional `#` and then exactly six hexadecimal digits.
   */
  predicate IsHexColor(s: string) {
    || (|s| == 6 && AllHexDigits(s))
    || (|s| == 7 && s[0] == '#' && AllHexDigits(s[1..]))
  }

  /** The six digits of a hex colour: the last six characters. */
  function SixDigits(s: string): string
    requires |s| >= 6
  {
    s[|s| - 6..]
  }

  /** `parseInt(pair, 16)` for the two-digit group starting at index `i`. */
  function PairValue(s: string, i: nat): (n: nat)
    requires i + 1 < |s|
    requires IsHexDigit(s[i]) && IsHexDigit(s[i + 1])
    ensures n <= 255
  {
    16 * DigitValue(s[i]) + DigitValue(s[i + 1])
  }

  /** One regex group: two hexadecimal digits, or no match. */
  function ParsePair(a: char, b: char): (r: Option<Channel>)
  {
    if IsHexDigit(a) && IsHexDigit(b) then Some(16 * DigitValue(a) + DigitValue(b)) else None
  }

  /** An optional leading `#` removed. */
  function StripHash(s: string): (body: string)
    ensures |s| > 0 && s[0] == '#' ==> body == s[1..]
    ensures !(|s| > 0 && s[0] == '#') ==> body == s
  {
    if |s| > 0 && s[0] == '#' then s[1..] else s
  }

  /** A string is a hex colour exactly when, `#` stripped, six digits remain; those are its last six characters. */
  lemma StripHashColor(s: string)
    ensures IsHexColor(s) <==> |StripHash(s)| == 6 && AllHexDigits(StripHash(s))
    ensures IsHexColor(s) ==> SixDigits(s) == StripHash(s)
  {
    if |s| == 6 && AllHexDigits(s) {
      assert IsHexDigit(s[0]);
    }
  }

  /** Six characters are all digits exactly when their three pairs parse. */
  lemma SixPairs(d: string)
    requires |d| == 6
    ensures AllHexDigits(d) <==>
      ParsePair(d[0], d[1]).Some? && ParsePair(d[2], d[3]).Some? && ParsePair(d[4], d[5]).Some?
  {
  }

  /**
   `hexToRgb`: skip one leading `#` if present, demand exactly six digits
   and read them as three base-16 pairs; `None` plays the part of `null`.
   */
  function HexToRgb(s: string): (res: Option<Rgb>)
    ensures res.Some? <==> IsHexColor(s)
    ensures res.Some? ==>
      var d := SixDigits(s);
      res.value == Rgb(PairValue(d, 0), PairValue(d, 2), PairValue(d, 4))
  {
    var body := StripHash(s);
    StripHashColor(s);
    if |body| != 6 then None
    else
      SixPairs(body);
      match (ParsePair(body[0], body[1]), ParsePair(body[2], body[3]), ParsePair(body[4], body[5]))
      case (Some(r), Some(g), Some(b)) => Some(Rgb(r, g, b))
      case _ => None
  }

  // ---------------------------------------------------------------------------
  // rgbToHex
  // ---------------------------------------------------------------------------

  /** `Math.round`: the nearest integer, halves rounded up. */
  function Round(x: real): (n: int)
    ensures n as real - 0.5 <= x < n as real + 0.5
  {
    (x + 0.5).Floor
  }

  /** `clamp` of src/App.js:26: round, then bound to [0, 255]. */
  function ToChannel(x: real): (c: Channel)
    ensures c == 0 <==> x < 0.5
    ensures c == 255 <==> x >= 254.5
    ensures 0 < c < 255 ==> c as real - 0.5 <= x < c as real + 0.5
  {
    var n := Round(x);
    if n < 0 then 0 else if n > 255 then 255 else n
  }

  /** `Number.prototype.toString(16)` on a natural number: no leading zeros, lower case. */
  function ToHexString(n: nat): (s: string)
    ensures 0 < |s|
    decreases n
  {
    if n < 16 then [LowerDigit(n)] else ToHexString(n / 16) + [LowerDigit(n % 16)]
  }

  /** The per-channel mapper of src/App.js:27-30: clamp, format, left-pad to two digits. */
  function ChannelHex(x: real): string
  {
    var hex := ToHexString(ToChannel(x));
    if |hex| == 1 then "0" + hex else hex
  }

  /** The two lower-case digits of a channel value. */
  function Nibbles(n: Channel): string {
    [LowerDigit(n / 16), LowerDigit(n % 16)]
  }

  /** The padded string of a channel is its high and low nibble. */
  lemma ChannelHexDigits(x: real)
    ensures ChannelHex(x) == Nibbles(ToChannel(x))
  {
    var n := ToChannel(x);
    if n >= 16 {
      assert ToHexString(n / 16) == [LowerDigit(n / 16)];
    }
  }

  /** The canonical form every output carries: `#` and six lower-case digits. */
  predicate IsCanonicalHex(s: string) {
    |s| == 7 && s[0] == '#' && forall i :: 1 <= i < 7 ==> IsLowerHexDigit(s[i])
  }

  /** Three nibble pairs behind a `#` are canonical and read back as the three values. */
  lemma NibblesRoundTrip(a: Channel, b: Channel, c: Channel)
    ensures var hex := "#" + Nibbles(a) + Nibbles(b) + Nibbles(c);
      && IsCanonicalHex(hex)
      && PairValue(hex, 1) == a && PairValue(hex, 3) == b && PairValue(hex, 5) == c
  {
    var hex := "#" + Nibbles(a) + Nibbles(b) + Nibbles(c);
    assert hex == ['#', LowerDigit(a / 16), LowerDigit(a % 16), LowerDigit(b / 16),
                   LowerDigit(b % 16), LowerDigit(c / 16), LowerDigit(c % 16)];
    DigitRoundTrip(a / 16); DigitRoundTrip(a % 16);
    DigitRoundTrip(b / 16); DigitRoundTrip(b % 16);
    DigitRoundTrip(c / 16); DigitRoundTrip(c % 16);
  }

  /**
   `rgbToHex`: total on every real input; the result is canonical and its
   three digit pairs are the rounded, clamped channels.
   */
  function RgbToHex(r: real, g: real, b: real): (hex: string)
    ensures IsCanonicalHex(hex)
    ensures PairValue(hex, 1) == ToChannel(r)
    ensures PairValue(hex, 3) == ToChannel(g)
    ensures PairValue(hex, 5) == ToChannel(b)
  {
    ChannelHexDigits(r);
    ChannelHexDigits(g);
    ChannelHexDigits(b);
    NibblesRoundTrip(ToChannel(r), ToChannel(g), ToChannel(b));
    "#" + ChannelHex(r) + ChannelHex(g) + ChannelHex(b)
  }

  /** `rgbToHex` applied to an integer colour. */
  function ColorToHex(c: Rgb): string {
    RgbToHex(c.r as real, c.g as real, c.b as real)
  }

  // ---------------------------------------------------------------------------
  // Round trips and examples
  // ---------------------------------------------------------------------------

  /** An integer already in [0, 255] passes `clamp` unchanged. */
  lemma ToChannelOfChannel(n: Channel)
    ensures ToChannel(n as real) == n
  {
  }

  /** Rounding and clamping never reverse an order. */
  lemma ToChannelMonotone(x: real, y: real)
    requires x <= y
    ensures ToChannel(x) <= ToChannel(y)
  {
    assert (x + 0.5).Floor <= (y + 0.5).Floor;
  }

  /** The integer colour `rgbToHex` writes for real channels. */
  function Written(t: RealRgb): Rgb {
    Rgb(ToChannel(t.r), ToChannel(t.g), ToChannel(t.b))
  }

  /** Because `clamp` is monotone, the written colour's extremes are the clamped extremes. */
  lemma WrittenExtremes(t: RealRgb)
    ensures MaxOf(ToReal(Written(t))) == ToChannel(MaxOf(t)) as real
    ensures MinOf(ToReal(Written(t))) == ToChannel(MinOf(t)) as real
  {
    ToChannelMonotone(t.r, MaxOf(t)); ToChannelMonotone(t.g, MaxOf(t)); ToChannelMonotone(t.b, MaxOf(t));
    ToChannelMonotone(MinOf(t), t.r); ToChannelMonotone(MinOf(t), t.g); ToChannelMonotone(MinOf(t), t.b);
  }

  /** `hexToRgb` reads back exactly the rounded, clamped channels `rgbToHex` wrote. */
  lemma HexToRgbOfRgbToHex(r: real, g: real, b: real)
    ensures HexToRgb(RgbToHex(r, g, b)) == Some(Rgb(ToChannel(r), ToChannel(g), ToChannel(b)))
  {
    var hex := RgbToHex(r, g, b);
    assert SixDigits(hex) == hex[1..];
  }

  /** For integer channels in range the round trip is exact. */
  lemma {:induction false} RgbRoundTrip(c: Rgb)
    ensures HexToRgb(ColorToHex(c)) == Some(c)
  {
    HexToRgbOfRgbToHex(c.r as real, c.g as real, c.b as real);
    ToChannelOfChannel(c.r);
    ToChannelOfChannel(c.g);
    ToChannelOfChannel(c.b);
  }

  /** Reading a pair and writing the value back gives the pair, lower-cased. */
  lemma PairRoundTrip(s: string, i: nat)
    requires i + 1 < |s|
    requires IsHexDigit(s[i]) && IsHexDigit(s[i + 1])
    ensures ChannelHex(PairValue(s, i) as real)
         == [ToLowerDigit(s[i]), ToLowerDigit(s[i + 1])]
  {
    var n := PairValue(s, i);
    ToChannelOfChannel(n);
    ChannelHexDigits(n as real);
    assert n / 16 == DigitValue(s[i]) && n % 16 == DigitValue(s[i + 1]);
    DigitValueLower(s[i]);
    DigitValueLower(s[i + 1]);
  }

  /** Any accepted string comes back from the round trip as `#` and its six digits in lower case. */
  lemma {:induction false} HexRoundTrip(s: string)
    requires IsHexColor(s)
    ensures HexToRgb(s).Some?
    ensures ColorToHex(HexToRgb(s).value) == "#" + ToLower(SixDigits(s))
  {
    var d := SixDigits(s);
    assert AllHexDigits(d);
    DigitsRoundTrip(d);
  }

  /** The colour read from six digits is written back as those digits in lower case. */
  lemma DigitsRoundTrip(d: string)
    requires |d| == 6 && AllHexDigits(d)
    ensures ColorToHex(Rgb(PairValue(d, 0), PairValue(d, 2), PairValue(d, 4))) == "#" + ToLower(d)
  {
    var r, g, b := PairValue(d, 0), PairValue(d, 2), PairValue(d, 4);
    PairRoundTrip(d, 0);
    PairRoundTrip(d, 2);
    PairRoundTrip(d, 4);
    LowerSplit(d);
    var x, y, z := ChannelHex(r as real), ChannelHex(g as real), ChannelHex(b as real);
    assert ColorToHex(Rgb(r, g, b)) == "#" + x + y + z;
    assert x + y + z == ToLower(d);
    ConcatAssoc("#", x, y, z);
  }

  lemma ConcatAssoc(a: string, x: string, y: string, z: string)
    ensures a + x + y + z == a + (x + y + z)
  {
  }

  /** Lower-casing six digits lower-cases each of the three pairs. */
  lemma LowerSplit(d: string)
    requires |d| == 6 && AllHexDigits(d)
    ensures ToLower(d) == [ToLowerDigit(d[0]), ToLowerDigit(d[1])] + [ToLowerDigit(d[2]), ToLowerDigit(d[3])]
                        + [ToLowerDigit(d[4]), ToLowerDigit(d[5])]
  {
  }

  /** The clamping example: (300, -10, 128) becomes `#ff0080`. */
  lemma ClampExample()
    ensures RgbToHex(300.0, -10.0, 128.0) == "#ff0080"
  {
    assert ToChannel(300.0) == 255;
    assert ToChannel(-10.0) == 0;
    assert ToChannel(128.0) == 128;
    ChannelHexDigits(300.0);
    ChannelHexDigits(-10.0);
    ChannelHexDigits(128.0);
  }

  /** The overshoot (255, -255, 0) clamps to pure red. */
  lemma RedExample()
    ensures RgbToHex(255.0, -255.0, 0.0) == "#ff0000"
  {
    assert ToChannel(255.0) == 255;
    assert ToChannel(-255.0) == 0;
    assert ToChannel(0.0) == 0;
    ChannelHexDigits(255.0);
    ChannelHexDigits(-255.0);
    ChannelHexDigits(0.0);
  }

  /** `#ff00ff` reads as magenta. */
  lemma MagentaParses()
    ensures HexToRgb("#ff00ff") == Some(Rgb(255, 0, 255))
  {
    var d := "ff00ff";
    assert SixDigits("#ff00ff") == d;
    assert PairValue(d, 0) == 255 && PairValue(d, 2) == 0 && PairValue(d, 4) == 255;
  }
}
