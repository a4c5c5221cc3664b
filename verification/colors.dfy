/**
 The colour records the engine passes around: an RGB triple of integer
 channels (what `hexToRgb` produces) and an RGB triple of unclamped reals
 (what `hsvToRgb` produces, before `rgbToHex` rounds and clamps it).
 */
module Colors {

  /** One integer colour channel, 0 to 255 inclusive. */
  type Channel = n: int | 0 <= n <= 255

  datatype Rgb = Rgb(r: Channel, g: Channel, b: Channel)

  /** The `{ r, g, b }` object of JavaScript numbers; channels may be fractional or out of range. */
  datatype RealRgb = RealRgb(r: real, g: real, b: real)

  function ToReal(c: Rgb): RealRgb {
    RealRgb(c.r as real, c.g as real, c.b as real)
  }

  function MaxReal(x: real, y: real): real { if x < y then y else x }

  function MinReal(x: real, y: real): real { if x < y then x else y }

  /** `Math.max(r, g, b)` */
  function MaxOf(t: RealRgb): real { MaxReal(t.r, MaxReal(t.g, t.b)) }

  /** `Math.min(r, g, b)` */
  function MinOf(t: RealRgb): real { MinReal(t.r, MinReal(t.g, t.b)) }

  /** Every channel within [0, 255], as for any colour `hexToRgb` produces. */
  predicate InRange(t: RealRgb) {
    0.0 <= t.r <= 255.0 && 0.0 <= t.g <= 255.0 && 0.0 <= t.b <= 255.0
  }

  /** An achromatic colour: all three channels equal. */
  predicate IsGray(t: RealRgb) { t.r == t.g == t.b }
}
