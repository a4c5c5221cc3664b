/**
 `generateSimilarColors` (src/App.js:33-78): eleven candidate variations
 of a seed colour, offered in a fixed order to the first-wins
 de-duplication of `addColor` (src/App.js:40-45).
 */
module Variations {
  import opened Wrappers
  import opened Colors
  import opened HexCodec
  import opened Hsv
  import opened Labels

  /** One `{ name, hex }` entry of the result. */
  datatype Variation = Variation(name: string, hex: string)

  /** A named factor from one of the two tables. */
  datatype Step = Step(name: string, factor: real)

  /** Lines 47-53, brightest first. */
  const LightnessSteps: seq<Step> := [
    Step("Lighter", 1.3), Step("Light", 1.15), Step("Original", 1.0), Step("Dark", 0.85), Step("Darker", 0.7)
  ]

  /** Line 60, in degrees. */
  const HueShifts: seq<int> := [-30, -15, 15, 30]

  /** Lines 67-70. */
  const SaturationSteps: seq<Step> := [Step("More Saturated", 1.3), Step("Less Saturated", 0.7)]

  // ---------------------------------------------------------------------------
  // The eleven candidates
  // ---------------------------------------------------------------------------

  /** Every channel times the same factor. */
  function Scale(t: RealRgb, f: real): RealRgb {
    RealRgb(t.r * f, t.g * f, t.b * f)
  }

  lemma ScaleOne(t: RealRgb)
    ensures Scale(t, 1.0) == t
  {
  }

  /**
   Line 56: every channel times the factor, written as hex. Read back, the
   hex gives each scaled channel rounded and clamped.
   */
  function LightnessVariation(c: Rgb, step: Step): (v: Variation)
    ensures v.name == step.name && IsCanonicalHex(v.hex)
    ensures var t := Scale(ToReal(c), step.factor);
      HexToRgb(v.hex) == Some(Rgb(ToChannel(t.r), ToChannel(t.g), ToChannel(t.b)))
  {
    var t := Scale(ToReal(c), step.factor);
    HexToRgbOfRgbToHex(t.r, t.g, t.b);
    Variation(step.name, RgbToHex(t.r, t.g, t.b))
  }

  /**
   Lines 62-63: the seed with its hue rotated by `shift` degrees. Read
   back, the hex gives the rotated colour's channels rounded and clamped.
   */
  function HueVariation(c: Rgb, shift: int): (v: Variation)
    ensures v.name == HueLabel(shift) && IsCanonicalHex(v.hex)
    ensures var t := ShiftHue(ToReal(c), shift as real);
      HexToRgb(v.hex) == Some(Rgb(ToChannel(t.r), ToChannel(t.g), ToChannel(t.b)))
  {
    var t := ShiftHue(ToReal(c), shift as real);
    HexToRgbOfRgbToHex(t.r, t.g, t.b);
    Variation(HueLabel(shift), RgbToHex(t.r, t.g, t.b))
  }

  /**
   Lines 73-74: the seed with its saturation scaled by the step's factor.
   Read back, the hex gives the adjusted colour's channels rounded and
   clamped.
   */
  function SaturationVariation(c: Rgb, step: Step): (v: Variation)
    requires 0.0 <= step.factor
    ensures v.name == step.name && IsCanonicalHex(v.hex)
    ensures var t := AdjustSaturation(ToReal(c), step.factor);
      HexToRgb(v.hex) == Some(Rgb(ToChannel(t.r), ToChannel(t.g), ToChannel(t.b)))
  {
    var t := AdjustSaturation(ToReal(c), step.factor);
    HexToRgbOfRgbToHex(t.r, t.g, t.b);
    Variation(step.name, RgbToHex(t.r, t.g, t.b))
  }

  /** The hexes of a list of variations. */
  function HexesOf(vs: seq<Variation>): set<string> {
    set i | 0 <= i < |vs| :: vs[i].hex
  }

  predicate AllCanonical(vs: seq<Variation>) {
    forall i :: 0 <= i < |vs| ==> IsCanonicalHex(vs[i].hex)
  }

  /** The names of the eleven candidates, in the order they reach `addColor`. */
  const CandidateNames: seq<string> := [
    "Lighter", "Light", "Original", "Dark", "Darker",
    "Hue -30°", "Hue -15°", "Hue +15°", "Hue +30°",
    "More Saturated", "Less Saturated"
  ]

  /**
   Candidate `i` in the order the candidates reach `addColor`: five
   lightness steps, four hue shifts, two saturation steps.
   */
  function CandidateAt(c: Rgb, i: nat): (v: Variation)
    requires i < 11
    ensures v.name == CandidateNames[i]
    ensures IsCanonicalHex(v.hex)
  {
    HueLabelExamples();
    if i < 5 then LightnessVariation(c, LightnessSteps[i])
    else if i < 9 then HueVariation(c, HueShifts[i - 5])
    else SaturationVariation(c, SaturationSteps[i - 9])
  }

  /**
   The eleven candidates: all canonical hex colours, named in the fixed
   order of the three tables, the third being the seed itself written back.
   */
  function Candidates(c: Rgb): (cands: seq<Variation>)
    ensures |cands| == 11
    ensures forall i :: 0 <= i < 11 ==> cands[i].name == CandidateNames[i]
    ensures AllCanonical(cands)
    ensures cands[2] == Variation("Original", ColorToHex(c))
  {
    ScaleOne(ToReal(c));
    seq(11, i requires 0 <= i < 11 => CandidateAt(c, i))
  }

  // ---------------------------------------------------------------------------
  // addColor and its fold
  // ---------------------------------------------------------------------------

  predicate DistinctHexes(vs: seq<Variation>) {
    forall i, j :: 0 <= i < j < |vs| ==> vs[i].hex != vs[j].hex
  }

  /** The state `addColor` closes over: the `colors` array and the `seen` set. */
  datatype Acc = Acc(colors: seq<Variation>, seen: set<string>)

  /** `seen` holds exactly the hexes of `colors`, and no hex occurs twice. */
  predicate Valid(acc: Acc) {
    acc.seen == HexesOf(acc.colors) && DistinctHexes(acc.colors)
  }

  /**
   `addColor`: push the entry and record its hex unless the hex was seen.
   A new hex appends the entry itself, name and all; a seen hex leaves the
   state as it was. Earlier entries are never touched, and from a
   consistent state the list grows exactly when the hex is new.
   */
  function AddColor(acc: Acc, v: Variation): (next: Acc)
    ensures v.hex !in acc.seen ==> next.colors == acc.colors + [v]
    ensures v.hex in acc.seen ==> next == acc
    ensures acc.colors <= next.colors
    ensures next.seen == acc.seen + {v.hex}
    ensures Valid(acc) ==> Valid(next)
    ensures Valid(acc) ==> (|next.colors| == |acc.colors| + 1 <==> v.hex !in HexesOf(acc.colors))
  {
    if v.hex in acc.seen then acc
    else
      var next := Acc(acc.colors + [v], acc.seen + {v.hex});
      assert HexesOf(next.colors) == HexesOf(acc.colors) + {v.hex} by {
        HexesOfSnoc(acc.colors, v);
      }
      next
  }

  lemma HexesOfSnoc(vs: seq<Variation>, v: Variation)
    ensures HexesOf(vs + [v]) == HexesOf(vs) + {v.hex}
  {
    var ws := vs + [v];
    forall h | h in HexesOf(ws) ensures h in HexesOf(vs) + {v.hex} {
      var i :| 0 <= i < |ws| && ws[i].hex == h;
      if i < |vs| {
        assert vs[i].hex == h;
      }
    }
    forall h | h in HexesOf(vs) ensures h in HexesOf(ws) {
      var i :| 0 <= i < |vs| && vs[i].hex == h;
      assert ws[i].hex == h;
    }
    assert ws[|vs|].hex == v.hex;
  }

  /**
   The `forEach` calls of lines 55-75 as one left fold from the empty
   state: the result is valid, has seen every candidate's hex, and is no
   longer than the candidate list.
   */
  function AddAll(cands: seq<Variation>): (acc: Acc)
    ensures Valid(acc)
    ensures acc.seen == HexesOf(cands)
    ensures |acc.colors| <= |cands|
    decreases |cands|
  {
    if |cands| == 0 then Acc([], {})
    else
      var init := cands[..|cands| - 1];
      var last := cands[|cands| - 1];
      assert cands == init + [last];
      HexesOfSnoc(init, last);
      AddColor(AddAll(init), last)
  }

  // ---------------------------------------------------------------------------
  // First producers
  // ---------------------------------------------------------------------------

  /** The position of the first variation carrying `hex`. */
  function FirstIndex(vs: seq<Variation>, hex: string): (i: nat)
    requires hex in HexesOf(vs)
    ensures i < |vs| && vs[i].hex == hex
    ensures forall j :: 0 <= j < i ==> vs[j].hex != hex
    decreases |vs|
  {
    if vs[0].hex == hex then 0
    else
      assert hex in HexesOf(vs[1..]) by {
        var k :| 0 <= k < |vs| && vs[k].hex == hex;
        assert vs[1..][k - 1].hex == hex;
      }
      1 + FirstIndex(vs[1..], hex)
  }

  /**
   `out` picks candidates from `cands` in their original order, and each
   entry is the first candidate that carries its hex.
   */
  predicate FirstProducers(cands: seq<Variation>, out: seq<Variation>) {
    && (forall k :: 0 <= k < |out| ==>
          out[k].hex in HexesOf(cands) && cands[FirstIndex(cands, out[k].hex)] == out[k])
    && (forall j, k :: 0 <= j < k < |out| && out[j].hex in HexesOf(cands) && out[k].hex in HexesOf(cands) ==>
          FirstIndex(cands, out[j].hex) < FirstIndex(cands, out[k].hex))
  }

  /** Appending a candidate moves no first occurrence, and a new hex first occurs at the end. */
  lemma FirstIndexSnoc(vs: seq<Variation>, v: Variation, hex: string)
    ensures hex in HexesOf(vs) ==> hex in HexesOf(vs + [v]) && FirstIndex(vs + [v], hex) == FirstIndex(vs, hex)
    ensures hex !in HexesOf(vs) && v.hex == hex ==> hex in HexesOf(vs + [v]) && FirstIndex(vs + [v], hex) == |vs|
  {
    var ws := vs + [v];
    HexesOfSnoc(vs, v);
    if hex in HexesOf(vs) {
      assert ws[FirstIndex(vs, hex)].hex == hex;
    }
  }

  /** The fold keeps exactly the first producer of each hex, in candidate order. */
  lemma {:induction false} AddAllFirstProducers(cands: seq<Variation>)
    ensures FirstProducers(cands, AddAll(cands).colors)
    decreases |cands|
  {
    if |cands| > 0 {
      var init := cands[..|cands| - 1];
      var last := cands[|cands| - 1];
      assert cands == init + [last];
      var prev := AddAll(init).colors;
      AddAllFirstProducers(init);
      FirstProducersSnoc(init, last, prev);
      if last.hex !in HexesOf(prev) {
        FirstProducersSnocNew(init, last, prev);
      }
    }
  }

  /** A candidate appended after the others leaves an existing selection valid. */
  lemma FirstProducersSnoc(init: seq<Variation>, last: Variation, prev: seq<Variation>)
    requires FirstProducers(init, prev)
    ensures FirstProducers(init + [last], prev)
  {
    var cands := init + [last];
    forall k | 0 <= k < |prev|
      ensures prev[k].hex in HexesOf(cands)
      ensures FirstIndex(cands, prev[k].hex) == FirstIndex(init, prev[k].hex)
    {
      FirstIndexSnoc(init, last, prev[k].hex);
    }
  }

  /** A candidate with a new hex, appended to both lists, keeps the selection valid. */
  lemma FirstProducersSnocNew(init: seq<Variation>, last: Variation, prev: seq<Variation>)
    requires FirstProducers(init, prev) && HexesOf(prev) <= HexesOf(init)
    requires last.hex !in HexesOf(init)
    ensures FirstProducers(init + [last], prev + [last])
  {
    var cands := init + [last];
    var out := prev + [last];
    FirstProducersSnoc(init, last, prev);
    FirstIndexSnoc(init, last, last.hex);
    assert FirstIndex(cands, last.hex) == |init|;
    forall k | 0 <= k < |prev|
      ensures FirstIndex(cands, prev[k].hex) < |init|
    {
      FirstIndexSnoc(init, last, prev[k].hex);
    }
    assert out[|prev|] == last;
  }

  // ---------------------------------------------------------------------------
  // generateSimilarColors
  // ---------------------------------------------------------------------------

  /**
   `generateSimilarColors`: no entries when the seed does not parse;
   otherwise between one and eleven entries, every hex canonical and none
   repeated.
   */
  function GenerateSimilarColors(s: string): (out: seq<Variation>)
    ensures out == [] <==> HexToRgb(s).None?
    ensures |out| <= 11
    ensures DistinctHexes(out)
    ensures AllCanonical(out)
  {
    match HexToRgb(s)
    case None => []
    case Some(c) =>
      var cands := Candidates(c);
      var acc := AddAll(cands);
      assert cands[0].hex in HexesOf(cands);
      AddAllFirstProducers(cands);
      acc.colors
  }

  /**
   For a readable seed the output is the candidate list with repeats
   removed: every candidate's hex is present, and the entries appear in
   candidate order, each named by the first candidate with its hex.
   */
  lemma GenerateFirstProducers(s: string)
    requires HexToRgb(s).Some?
    ensures var cands := Candidates(HexToRgb(s).value);
      && HexesOf(GenerateSimilarColors(s)) == HexesOf(cands)
      && FirstProducers(cands, GenerateSimilarColors(s))
  {
    AddAllFirstProducers(Candidates(HexToRgb(s).value));
  }

  /** The seed, normalised to `#` and lower case, is always among the hexes. */
  lemma OriginalPresent(s: string)
    requires IsHexColor(s)
    ensures "#" + ToLower(SixDigits(s)) in HexesOf(GenerateSimilarColors(s))
  {
    var c := HexToRgb(s).value;
    HexRoundTrip(s);
    GenerateFirstProducers(s);
    assert Candidates(c)[2].hex in HexesOf(Candidates(c));
  }

  /** When every candidate carries the same hex, only the first survives. */
  lemma {:induction false} AddAllOneHex(cands: seq<Variation>)
    requires 0 < |cands|
    requires forall i :: 0 <= i < |cands| ==> cands[i].hex == cands[0].hex
    ensures AddAll(cands).colors == [cands[0]]
    decreases |cands|
  {
    var init := cands[..|cands| - 1];
    if |cands| == 1 {
      assert init == [];
    } else {
      AddAllOneHex(init);
    }
  }

  lemma ScaleZero(f: real)
    ensures Scale(RealRgb(0.0, 0.0, 0.0), f) == RealRgb(0.0, 0.0, 0.0)
  {
  }

  /** For a gray seed every hue and saturation candidate is the seed written back. */
  lemma GrayCandidates(c: Rgb)
    requires c.r == c.g == c.b
    ensures forall i :: 5 <= i < 11 ==> Candidates(c)[i].hex == ColorToHex(c)
  {
    var cands := Candidates(c);
    assert IsGray(ToReal(c));
    forall i | 5 <= i < 11 ensures cands[i].hex == ColorToHex(c) {
      if i < 9 {
        assert cands[i] == HueVariation(c, HueShifts[i - 5]);
        assert ShiftHue(ToReal(c), HueShifts[i - 5] as real) == ToReal(c);
      } else {
        assert cands[i] == SaturationVariation(c, SaturationSteps[i - 9]);
        assert AdjustSaturation(ToReal(c), SaturationSteps[i - 9].factor) == ToReal(c);
      }
    }
  }

  const LightnessNames: set<string> := {"Lighter", "Light", "Original", "Dark", "Darker"}

  /**
   A gray seed yields only lightness entries: its hue and saturation
   variations repeat the original's hex and are dropped.
   */
  lemma GraySeed(s: string)
    requires IsHexColor(s)
    requires var c := HexToRgb(s).value; c.r == c.g == c.b
    ensures forall k :: 0 <= k < |GenerateSimilarColors(s)| ==> GenerateSimilarColors(s)[k].name in LightnessNames
  {
    var c := HexToRgb(s).value;
    GrayCandidates(c);
    GenerateFirstProducers(s);
    LightnessNamed(c);
    RepeatsOfOriginal(Candidates(c), GenerateSimilarColors(s));
  }

  /** The first five candidates carry the lightness names. */
  lemma LightnessNamed(c: Rgb)
    ensures forall i :: 0 <= i < 5 ==> Candidates(c)[i].name in LightnessNames
  {
    assert forall i :: 0 <= i < 5 ==> LightnessSteps[i].name in LightnessNames;
    forall i | 0 <= i < 5 ensures Candidates(c)[i].name == LightnessSteps[i].name {
      assert Candidates(c)[i] == CandidateAt(c, i);
    }
  }

  /**
   When every later candidate repeats the third one's hex, every survivor
   is one of the first five candidates and carries one of their names.
   */
  lemma RepeatsOfOriginal(cands: seq<Variation>, out: seq<Variation>)
    requires |cands| == 11 && FirstProducers(cands, out)
    requires forall i :: 5 <= i < 11 ==> cands[i].hex == cands[2].hex
    requires forall i :: 0 <= i < 5 ==> cands[i].name in LightnessNames
    ensures forall k :: 0 <= k < |out| ==> out[k].name in LightnessNames
  {
    forall k | 0 <= k < |out| ensures out[k].name in LightnessNames {
      var i := FirstIndex(cands, out[k].hex);
      assert cands[2].hex == out[k].hex ==> i <= 2;
      assert out[k] == cands[i];
    }
  }

  /** The black seed: all eleven candidates are `#000000`, so only "Lighter" remains. */
  lemma BlackSeed()
    ensures GenerateSimilarColors("#000000") == [Variation("Lighter", "#000000")]
  {
    BlackCase("#000000", Rgb(0, 0, 0));
  }

  lemma BlackCase(s: string, black: Rgb)
    requires s == "#000000" && black == Rgb(0, 0, 0)
    ensures GenerateSimilarColors(s) == [Variation("Lighter", "#000000")]
  {
    BlackParses(s, black);
    BlackCandidates(black);
    OneHexSeed(s, black);
    ScaleZero(1.3);
    assert ToReal(black) == RealRgb(0.0, 0.0, 0.0);
    LighterFixed(black);
  }

  /** When all eleven candidates share one hex, the output is the first candidate alone. */
  lemma OneHexSeed(s: string, c: Rgb)
    requires HexToRgb(s) == Some(c)
    requires forall i :: 0 <= i < 11 ==> Candidates(c)[i].hex == Candidates(c)[0].hex
    ensures GenerateSimilarColors(s) == [Candidates(c)[0]]
  {
    AddAllOneHex(Candidates(c));
  }

  /** A seed that the "Lighter" factor leaves as it is comes back first under that name. */
  lemma LighterFixed(c: Rgb)
    requires Scale(ToReal(c), 1.3) == ToReal(c)
    ensures Candidates(c)[0] == Variation("Lighter", ColorToHex(c))
  {
    assert Candidates(c)[0] == LightnessVariation(c, LightnessSteps[0]);
  }

  lemma BlackParses(s: string, black: Rgb)
    requires s == "#000000" && black == Rgb(0, 0, 0)
    ensures HexToRgb(s) == Some(black)
    ensures ColorToHex(black) == "#000000"
  {
    assert SixDigits(s) == "000000";
    HexRoundTrip(s);
    assert ToLower("000000") == "000000";
  }

  lemma BlackCandidates(black: Rgb)
    requires black == Rgb(0, 0, 0) && ColorToHex(black) == "#000000"
    ensures forall i :: 0 <= i < 11 ==> Candidates(black)[i].hex == "#000000"
  {
    var cands := Candidates(black);
    GrayCandidates(black);
    forall i | 0 <= i < 5 ensures cands[i].hex == "#000000" {
      assert cands[i] == LightnessVariation(black, LightnessSteps[i]);
      ScaleZero(LightnessSteps[i].factor);
    }
  }

  // ---------------------------------------------------------------------------
  // Per-channel facts about the candidates
  // ---------------------------------------------------------------------------

  /** A lightness candidate reads back as each channel times the factor, rounded and clamped. */
  lemma LightnessDecoded(c: Rgb, step: Step)
    ensures HexToRgb(LightnessVariation(c, step).hex) == Some(Written(Scale(ToReal(c), step.factor)))
  {
    var t := Scale(ToReal(c), step.factor);
    HexToRgbOfRgbToHex(t.r, t.g, t.b);
  }

  lemma ScaleMonotone(x: real, f: real, g: real)
    requires 0.0 <= x && g <= f
    ensures x * g <= x * f
  {
  }

  /** A smaller factor never gives a larger written channel. */
  lemma WrittenScaleMonotone(t: RealRgb, f: real, g: real)
    requires InRange(t) && g <= f
    ensures var a, b := Written(Scale(t, f)), Written(Scale(t, g));
      b.r <= a.r && b.g <= a.g && b.b <= a.b
  {
    var u, w := Scale(t, g), Scale(t, f);
    ScaleMonotone(t.r, f, g);
    ScaleMonotone(t.g, f, g);
    ScaleMonotone(t.b, f, g);
    WrittenMonotone(u, w);
  }

  /** Writing is monotone channel by channel. */
  lemma WrittenMonotone(u: RealRgb, w: RealRgb)
    requires u.r <= w.r && u.g <= w.g && u.b <= w.b
    ensures var a, b := Written(w), Written(u);
      b.r <= a.r && b.g <= a.g && b.b <= a.b
  {
    ToChannelMonotone(u.r, w.r);
    ToChannelMonotone(u.g, w.g);
    ToChannelMonotone(u.b, w.b);
  }

  /**
   Read back, the lightness candidates never brighten from "Lighter" to
   "Darker": each channel of a later one is at most that of an earlier one.
   */
  lemma LightnessOrder(c: Rgb, i: nat, j: nat)
    requires i <= j < 5
    ensures HexToRgb(Candidates(c)[i].hex).Some? && HexToRgb(Candidates(c)[j].hex).Some?
    ensures var a, b := HexToRgb(Candidates(c)[i].hex).value, HexToRgb(Candidates(c)[j].hex).value;
      b.r <= a.r && b.g <= a.g && b.b <= a.b
  {
    var f, g := LightnessSteps[i].factor, LightnessSteps[j].factor;
    assert g <= f;
    LightnessDecoded(c, LightnessSteps[i]);
    LightnessDecoded(c, LightnessSteps[j]);
    WrittenScaleMonotone(ToReal(c), f, g);
  }

  /** "Lighter" and "Light" are at least the seed in every channel, "Dark" and "Darker" at most. */
  lemma LightnessAroundSeed(c: Rgb, i: nat)
    requires i < 5
    ensures HexToRgb(Candidates(c)[i].hex).Some?
    ensures var d := HexToRgb(Candidates(c)[i].hex).value;
      && (i <= 2 ==> c.r <= d.r && c.g <= d.g && c.b <= d.b)
      && (2 <= i ==> d.r <= c.r && d.g <= c.g && d.b <= c.b)
  {
    RgbRoundTrip(c);
    if i <= 2 {
      LightnessOrder(c, i, 2);
    } else {
      LightnessOrder(c, 2, i);
    }
  }

  /** Written back and read, a hue rotation keeps the seed's largest and smallest channel. */
  lemma HueKeepsExtremes(c: Rgb, shift: int)
    requires -300 <= shift
    ensures HexToRgb(HueVariation(c, shift).hex).Some?
    ensures var d := HexToRgb(HueVariation(c, shift).hex).value;
      MaxOf(ToReal(d)) == MaxOf(ToReal(c)) && MinOf(ToReal(d)) == MinOf(ToReal(c))
  {
    var t := ShiftHue(ToReal(c), shift as real);
    HexToRgbOfRgbToHex(t.r, t.g, t.b);
    WrittenExtremes(t);
    ChannelExtremes(c);
  }

  /** The extremes of an integer colour are channels, which `clamp` leaves alone. */
  lemma ChannelExtremes(c: Rgb)
    ensures ToChannel(MaxOf(ToReal(c))) as real == MaxOf(ToReal(c))
    ensures ToChannel(MinOf(ToReal(c))) as real == MinOf(ToReal(c))
  {
    ToChannelOfChannel(c.r);
    ToChannelOfChannel(c.g);
    ToChannelOfChannel(c.b);
  }

  /** Magenta's "More Saturated" candidate is pure red, and it survives into the output. */
  lemma MagentaToRed()
    ensures Candidates(Rgb(255, 0, 255))[9] == Variation("More Saturated", "#ff0000")
    ensures "#ff0000" in HexesOf(GenerateSimilarColors("#ff00ff"))
  {
    MagentaCase(Rgb(255, 0, 255), "#ff00ff");
  }

  lemma MagentaCase(c: Rgb, s: string)
    requires c == Rgb(255, 0, 255) && s == "#ff00ff"
    ensures Candidates(c)[9] == Variation("More Saturated", "#ff0000")
    ensures "#ff0000" in HexesOf(GenerateSimilarColors(s))
  {
    MagentaCandidate(c);
    MagentaParses();
    var cands := Candidates(c);
    GenerateFirstProducers(s);
    assert cands[9].hex in HexesOf(cands);
  }

  lemma MagentaCandidate(c: Rgb)
    requires c == Rgb(255, 0, 255)
    ensures SaturationVariation(c, SaturationSteps[0]) == Variation("More Saturated", "#ff0000")
  {
    assert SaturationSteps[0] == Step("More Saturated", 1.3);
    MagentaAdjusted(ToReal(c));
  }

  lemma MagentaAdjusted(m: RealRgb)
    requires m == RealRgb(255.0, 0.0, 255.0)
    ensures var t := AdjustSaturation(m, 1.3); RgbToHex(t.r, t.g, t.b) == "#ff0000"
  {
    MagentaMoreSaturated();
    RedExample();
  }
}
