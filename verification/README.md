# Colour variations: a Dafny model

This project models the colour-transformation engine of the colour
similarity app (`src/App.js`). Given a seed colour as a hex string, the
generator produces up to eleven named variations:

- five lightness steps ("Lighter" 1.3, "Light" 1.15, "Original" 1, "Dark" 0.85, "Darker" 0.7);
- four hue rotations (-30, -15, +15 and +30 degrees, named `Hue -30°` … `Hue +30°`);
- two saturation steps ("More Saturated" 1.3, "Less Saturated" 0.7).

A first-wins de-duplication on the hex string decides which variations survive.

Modules, one per concern:

- `Wrappers`: `Option`, standing in for `null`.
- `Colors`: integer channels (0..255), integer and real RGB triples, and the max/min of a triple.
- `HexCodec`: `hexToRgb` (parse an optional `#` and six hex digits of either case) and `rgbToHex` (round with `Math.round`, clamp to [0, 255], write `#` and six lower-case digits).
- `Hsv`: the max/min/delta hue decomposition shared by `shiftHue` and `adjustSaturation`, and the six-sector `hsvToRgb`. It also has JavaScript's truncating `%` (`JsRem`) and `Math.trunc`.
- `Labels`: the hue-variation names, built from the template `Hue ${shift > 0 ? '+' : ''}${shift}°`.
- `Variations`:
  - the candidate tables and the eleven candidates in the order they reach `addColor`;
  - `addColor` over an explicit `colors`/`seen` state, and the fold of all candidates through it;
  - `generateSimilarColors` itself.

Channel arithmetic uses exact reals. `Math.round(x)` is `Floor(x + 0.5)`, and `%` is the remainder of truncating division, signed like the dividend.

## Model

| member | source | states |
|---|---|---|
| HexCodec.HexToRgb | src/App.js:16-23 | A triple is returned exactly when the input is an optional `#` followed by exactly six hex digits of either case. Each channel is the base-16 value of its digit pair. |
| HexCodec.ToChannel | src/App.js:26 | `clamp`: 0 exactly for inputs below 0.5, 255 exactly from 254.5 up, otherwise the nearest integer with halves rounded up. |
| HexCodec.RgbToHex | src/App.js:25-31 | Total on all reals. The result is `#` plus six lower-case hex digits, and its three pairs read back as the clamped, rounded channels. |
| HexCodec.ToChannelMonotone | src/App.js:26 | `clamp` never decreases as its input grows. |
| HexCodec.HexToRgbOfRgbToHex | src/App.js:17-30 | Parsing any output of `rgbToHex` gives back exactly the three clamped, rounded channels. |
| HexCodec.RgbRoundTrip | src/App.js:17-30 | For integer channels in [0, 255], `hexToRgb(rgbToHex(r, g, b))` is `(r, g, b)`. |
| HexCodec.HexRoundTrip | src/App.js:17-30 | For every accepted string, writing the parsed triple back gives `#` plus the six digits in lower case. |
| HexCodec.ClampExample | src/App.js:25-31 | `(300, -10, 128)` is written `#ff0080`. |
| Hsv.JsRem | src/App.js:88 | The `%` operator: a non-negative dividend gives a remainder in [0, n), a non-positive one gives (-n, 0], and a dividend already inside (-n, n) is returned unchanged. |
| Hsv.RawHue | src/App.js:86-91 | The hue in sixths of a turn lies in [-1, 5). It is negative exactly when red is the maximum and blue exceeds green, because the truncating `%` keeps the sign. |
| Hsv.Saturation | src/App.js:94 | For channels in range, `s` lies in [0, 1] and is 0 exactly for a gray. |
| Hsv.HsvToRgb | src/App.js:120-138 | For `s` in [0, 1], the largest channel is `v * 255`. For a non-negative hue, the smallest is `(v - v*s) * 255`. Zero saturation gives a gray. |
| Hsv.ShiftedHue | src/App.js:92 | For every rotation from -300 degrees up (all four the generator uses), the rotated hue lies in [0, 360). |
| Hsv.ShiftedHueTurns | src/App.js:92 | For a rotation from -300 up to 360 degrees, the rotated hue is the seed's hue plus the rotation, wrapped into [0, 360) by adding or removing one full turn. |
| Hsv.ShiftedHueWraps | src/App.js:92 | The wrap-around: an orange at hue 10 turned by -30 degrees lands at hue 340. |
| Hsv.ShiftHue | src/App.js:80-98 | For such rotations, the result keeps the seed's largest and smallest channel. A gray seed comes back unchanged. That the result carries the hue of line 92 is stated by `Hsv.ShiftHueRotates`, and that this hue is the seed's hue turned by the rotation by `Hsv.ShiftedHueTurns`. |
| Hsv.ShiftHueZero | src/App.js:80-98 | With no rotation, decomposition followed by `hsvToRgb` returns every in-range seed exactly. |
| Hsv.HsvRoundTrip | src/App.js:120-138 | The other direction: for a hue in [0, 360), a saturation in (0, 1] and a value in (0, 1], the colour `hsvToRgb` builds is in range and decomposes to that hue (at zero rotation), that saturation and that value. The yellow and cyan ties at 60 and 180 degrees, and the last sector's negative remainder, are covered. |
| Hsv.ShiftHueRotates | src/App.js:92-97 | For a chromatic seed in range and any rotation from -300 degrees up, the result is in range and decomposes to the rotated hue of line 92, with the seed's saturation and value. |
| Hsv.ZeroHueTent | src/App.js:92-122 | At zero rotation, a raw hue `k + f` falls in sector `k`. There the tent is `f` on even sectors and `1 - f` on odd ones. |
| Hsv.ScaledSaturation | src/App.js:114-117 | The saturation passed on lies in [0, 1]. It never grows for factors up to 1 and never shrinks for factors from 1. It is 0 exactly for a gray or a zero factor. |
| Hsv.AdjustedHue | src/App.js:106-112 | The hue `adjustSaturation` passes on is not wrapped. It lies in [-60, 300) and is negative exactly when red is the maximum and blue exceeds green. |
| Hsv.AdjustSaturation | src/App.js:100-118 | The largest channel is kept. Wherever the hue is not negative, the smallest channel is `v·255 − v·s′·255`, where `v` is the value and `s′` the scaled, capped saturation; since `v·255` is the largest channel, this is `max·(1 − s′)`. A gray seed comes back unchanged. |
| Hsv.SaturationOfLevels | src/App.js:94 | A colour whose top is `v·255` and whose floor is `v·255 − v·s·255` reads back with saturation `s` when `v > 0`, and 0 when `v = 0`. |
| Hsv.AdjustSaturationReads | src/App.js:100-118 | Only the saturation changes where the hue passed on is not negative. For a chromatic seed and a positive factor, the result is in range, keeps the seed's hue and value, and has exactly the scaled, capped saturation `s′`. |
| Hsv.AdjustSaturationNegativeHue | src/App.js:112-126 | For a negative hue, the first sector computes a negative secondary component (chroma times the raw hue). Green then falls below blue, and blue sits at `v - c`. |
| Hsv.AdjustSaturationOne | src/App.js:100-118 | At factor 1, a seed whose hue is not negative comes back unchanged. |
| Hsv.AdjustSaturationOneMoves | src/App.js:100-118 | At factor 1, a seed with a negative hue does not come back: blue drops to the seed's green. |
| Hsv.MagentaMoreSaturated | src/App.js:100-138 | Magenta at factor 1.3 comes out as (255, -255, 0). |
| Labels.HueLabel | src/App.js:63 | A hue name starts with `Hue ` and ends with the degree sign, and is at least six characters long. Its sign and digits are fixed by `Labels.HueLabelRoundTrip`. |
| Labels.NumberToString | src/App.js:63 | `String(shift)`: the numeral starts with `-` exactly for negative numbers. |
| Labels.DecimalRoundTrip | src/App.js:63 | The decimal numeral of a natural number reads back as that number. |
| Labels.ParseHueLabel | src/App.test.js:76 | A name is read back exactly when it has the shape `Hue [+-]digits°`. |
| Labels.HueLabelRoundTrip | src/App.js:63 | Every non-zero shift gives a name of the shape `Hue [+-]digits°` that reads back as that shift. |
| Labels.HueLabelInjective | src/App.js:63 | Distinct non-zero shifts get distinct names. |
| Labels.HueLabelExamples | src/App.js:60-63 | The four names are `Hue -30°`, `Hue -15°`, `Hue +15°` and `Hue +30°`. |
| Variations.LightnessVariation | src/App.js:55-57 | The candidate keeps the step's name, its hex is canonical, and read back it gives each channel times the factor, rounded and clamped. |
| Variations.HueVariation | src/App.js:61-64 | The candidate is named by the hue label of its shift, its hex is canonical, and read back it gives the channels of `shiftHue`'s result, rounded and clamped. |
| Variations.SaturationVariation | src/App.js:72-75 | The candidate keeps the step's name, its hex is canonical, and read back it gives the channels of `adjustSaturation`'s result, rounded and clamped. |
| Variations.Candidates | src/App.js:47-75 | There are eleven candidates, all canonical hex strings, named in order Lighter, Light, Original, Dark, Darker, Hue -30°, Hue -15°, Hue +15°, Hue +30°, More Saturated, Less Saturated. The third is "Original" with the seed written back. |
| Variations.AddColor | src/App.js:40-45 | A new hex appends exactly the given entry, name and hex, to the list. A hex already seen leaves the whole state as it was. Earlier entries are untouched and the hex is always recorded as seen. From a consistent state, the state stays consistent. |
| Variations.AddAll | src/App.js:55-75 | Folding all candidates through `addColor` gives a consistent state. Its seen set is exactly the candidates' hexes, and it is no longer than the candidate list. |
| Variations.FirstIndex | src/App.js:40-45 | The first position that carries a given hex. |
| Variations.AddAllFirstProducers | src/App.js:40-75 | The fold keeps, in candidate order, exactly the first candidate with each hex. |
| Variations.GenerateSimilarColors | src/App.js:33-78 | The output is empty exactly when the seed does not parse. It never has more than eleven entries, never repeats a hex, and every hex is canonical. |
| Variations.GenerateFirstProducers | src/App.js:33-78 | For a readable seed, the output's hexes are exactly the candidates' hexes. The output is an order-preserving selection in which each entry is the first candidate producing its hex. |
| Variations.OriginalPresent | src/App.js:40-57 | The seed's normalised hex (`#` plus the digits in lower case) is always among the output's hexes. |
| Variations.GrayCandidates | src/App.js:60-75 | For a gray seed, every hue and saturation candidate writes the seed back. |
| Variations.GraySeed | src/App.js:40-75 | For a gray seed, only lightness names survive. |
| Variations.BlackSeed | src/App.js:33-78 | `#000000` gives exactly `[("Lighter", "#000000")]`: the survivor is the first candidate, not "Original". |
| Variations.OneHexSeed | src/App.js:40-45 | When all eleven candidates share one hex, the output is the first candidate alone. |
| Variations.LightnessOrder | src/App.js:47-57 | Read back, each channel of a later lightness candidate is at most that of an earlier one. |
| Variations.LightnessAroundSeed | src/App.js:47-57 | Read back, "Lighter" and "Light" are at least the seed in every channel, and "Dark" and "Darker" at most. |
| Variations.HueKeepsExtremes | src/App.js:60-98 | Read back, a hue candidate keeps the seed's largest and smallest channel. |
| Variations.MagentaToRed | src/App.js:67-138 | For `#ff00ff`, "More Saturated" is `#ff0000`, and `#ff0000` survives into the output. |

## Left out

- `colorNameToHex` (src/App.js:10-14): it searches the external `color-name-list` package, which is not part of this model.
- The React component: state, effects, input handlers and rendering (src/App.js:5-8, 140-213) are user interface, not colour logic.
- IEEE-754 doubles: all channel arithmetic is exact real arithmetic. Properties whose truth depends on double rounding (for instance `0.85 * x` near a half, or `max / 255 * 255`) are not claimed, and no concrete output of a chromatic seed is stated except magenta's, which is exact.
- The degree sign: the source file shows the mis-decoded `Â°` in the hue template. The names are modelled with the intended U+00B0 `°`, the character the label test expects (src/App.test.js:76).
- Hsv.ShiftHue: the bounds are stated for rotations of at least -300 degrees, which covers the generator's four. The remainder expression is modelled for every rotation.
- `adjustSaturation` does not wrap its hue (src/App.js:112), and this is modelled as written rather than corrected, because the generator's output depends on it (magenta "More Saturated" is red).
- Hsv.AdjustSaturation: the floor is stated only where the hue is not negative. For a negative hue, the first sector does not place the minimum at the floor, and Hsv.AdjustSaturationNegativeHue states where blue lands instead.
- Hsv.HsvRoundTrip: a zero saturation or a zero value is left out, because the decomposition reads every gray as hue 0 and black as saturation 0, so hue and saturation cannot come back there. For the same reason, Hsv.ShiftHueRotates needs a chromatic seed, and Hsv.AdjustSaturationReads also needs a positive factor.
- Variations.HueVariation: the rotated hue is stated for the colour before `rgbToHex`. The hue read back from the written hex is not claimed, because rounding to integer channels moves it.
