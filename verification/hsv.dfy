/**
 The HSV arithmetic behind the hue and saturation variations: the
 max/min/delta hue decomposition shared by `shiftHue` (src/App.js:80-98)
 and `adjustSaturation` (src/App.js:100-118), and the sector-based
 reconstruction `hsvToRgb` (src/App.js:120-138).

 JavaScript doubles are modelled by exact reals, so every statement here
 is about the arithmetic the code describes, not about its rounding.
 */
module Hsv {
  import opened Colors

  // ---------------------------------------------------------------------------
  // JavaScript arithmetic
  // ---------------------------------------------------------------------------

  function Abs(x: real): real { if x < 0.0 then -x else x }

  /** `Math.trunc`: rounds toward zero. */
  function Trunc(x: real): (n: int)
    ensures 0.0 <= x ==> n as real <= x < n as real + 1.0
    ensures x <= 0.0 ==> n as real - 1.0 < x <= n as real
  {
    if x >= 0.0 then x.Floor else -((-x).Floor)
  }

  /** The `%` operator on numbers: the remainder of truncating division, signed like the dividend. */
  function JsRem(a: real, n: real): (r: real)
    requires n > 0.0
    ensures 0.0 <= a ==> 0.0 <= r < n
    ensures a <= 0.0 ==> -n < r <= 0.0
    ensures -n < a < n ==> r == a
  {
    TruncQuotient(a, n);
    a - n * Trunc(a / n) as real
  }

  /** Where the truncated quotient `q` puts `a` among the multiples of `n`. */
  lemma TruncQuotient(a: real, n: real)
    requires n > 0.0
    ensures var q := Trunc(a / n) as real;
      && (0.0 <= a ==> q * n <= a < q * n + n)
      && (a <= 0.0 ==> q * n - n < a <= q * n)
      && (-n < a < n ==> q == 0.0)
  {
    if 0.0 <= a {
      TruncQuotientNonneg(a, n);
    }
    if a <= 0.0 {
      TruncQuotientNonpos(a, n);
    }
    if -n < a < n {
      TruncQuotientSmall(a, n);
    }
  }

  lemma TruncQuotientNonneg(a: real, n: real)
    requires n > 0.0 && 0.0 <= a
    ensures var q := Trunc(a / n) as real; q * n <= a < q * n + n
  {
    var d := a / n;
    DivMul(a, n);
    DivLe(0.0, a, n);
    BracketBelow(Trunc(d) as real, d, n, a);
  }

  lemma TruncQuotientNonpos(a: real, n: real)
    requires n > 0.0 && a <= 0.0
    ensures var q := Trunc(a / n) as real; q * n - n < a <= q * n
  {
    var d := a / n;
    DivMul(a, n);
    DivLe(a, 0.0, n);
    BracketAbove(Trunc(d) as real, d, n, a);
  }

  /** `q <= d < q + 1` scales to `q * n <= d * n < q * n + n`. */
  lemma BracketBelow(q: real, d: real, n: real, a: real)
    requires n > 0.0 && q <= d < q + 1.0 && d * n == a
    ensures q * n <= a < q * n + n
  {
    MulLe(q, d, n);
    MulLt(d, q + 1.0, n);
    assert (q + 1.0) * n == q * n + n;
    calc {
      a;
    ==
      d * n;
    <
      q * n + n;
    }
  }

  /** `q - 1 < d <= q` scales to `q * n - n < d * n <= q * n`. */
  lemma BracketAbove(q: real, d: real, n: real, a: real)
    requires n > 0.0 && q - 1.0 < d <= q && d * n == a
    ensures q * n - n < a <= q * n
  {
    MulLt(q - 1.0, d, n);
    MulLe(d, q, n);
    assert (q - 1.0) * n == q * n - n;
    calc {
      q * n - n;
    <
      d * n;
    ==
      a;
    }
  }

  lemma TruncQuotientSmall(a: real, n: real)
    requires n > 0.0 && -n < a < n
    ensures Trunc(a / n) == 0
  {
    DivLt(-n, a, n);
    DivLt(a, n, n);
    assert n / n == 1.0 && -n / n == -1.0;
  }

  lemma DivMul(a: real, n: real)
    requires n != 0.0
    ensures (a / n) * n == a
  {
  }

  lemma MulLe(x: real, y: real, n: real)
    requires n > 0.0 && x <= y
    ensures x * n <= y * n
  {
  }

  lemma MulLt(x: real, y: real, n: real)
    requires n > 0.0 && x < y
    ensures x * n < y * n
  {
  }

  lemma DivLe(x: real, y: real, n: real)
    requires n > 0.0 && x <= y
    ensures x / n <= y / n
  {
    assert y / n - x / n == (y - x) / n;
  }

  lemma DivLt(x: real, y: real, n: real)
    requires n > 0.0 && x < y
    ensures x / n < y / n
  {
    assert y / n - x / n == (y - x) / n;
  }

  lemma MulDiv(k: real, n: real)
    requires n > 0.0
    ensures k * n / n == k
  {
  }

  /** On a non-negative dividend `%` is the Euclidean remainder: subtract whole multiples of `n`. */
  lemma {:induction false} JsRemPeriod(a: real, n: real, k: nat)
    requires n > 0.0
    requires k as real * n <= a < (k as real + 1.0) * n
    ensures JsRem(a, n) == a - k as real * n
  {
    var kr := k as real;
    var d := a / n;
    DivLe(kr * n, a, n);
    MulDiv(kr, n);
    assert kr * n / n <= a / n;
    assert kr * n / n == kr;
    assert kr <= d;
    var k1 := kr + 1.0;
    DivLt(a, k1 * n, n);
    MulDiv(k1, n);
    assert a / n < k1 * n / n;
    assert k1 * n / n == k1;
    assert d < k1;
    var t := Trunc(d);
    assert t as real <= d < t as real + 1.0;
    assert t == k;
  }

  // ---------------------------------------------------------------------------
  // Algebra on plain reals
  // ---------------------------------------------------------------------------

  /** A difference of channels over the spread between max and min lies in [-1, 1]. */
  lemma QuotientBounds(p: real, d: real)
    requires 0.0 < d && -d <= p <= d
    ensures -1.0 <= p / d <= 1.0
    ensures p < 0.0 <==> p / d < 0.0
    ensures -d < p ==> -1.0 < p / d
    ensures p < d ==> p / d < 1.0
    ensures p == d ==> p / d == 1.0
  {
    UnitQuotients(d);
    DivLe(-d, p, d);
    DivLe(p, d, d);
    if p < 0.0 { DivLt(p, 0.0, d); } else { DivLe(0.0, p, d); }
    if -d < p { DivLt(-d, p, d); }
    if p < d { DivLt(p, d, d); }
  }

  lemma UnitQuotients(d: real)
    requires 0.0 < d
    ensures d / d == 1.0 && -d / d == -1.0
  {
  }

  /** Value times saturation is the spread over 255 (for a positive maximum). */
  lemma ChromaAlgebra(max: real, min: real, v: real, s: real)
    requires 0.0 < max && v == max / 255.0 && s == (max - min) / max
    ensures v * s * 255.0 == max - min
  {
    DivMul(max - min, max);
    assert v * 255.0 == max;
    assert v * s * 255.0 == (v * 255.0) * s;
  }

  // ---------------------------------------------------------------------------
  // The hue decomposition (src/App.js:81-91, repeated at 101-111)
  // ---------------------------------------------------------------------------

  /** `delta`: the spread between the largest and smallest channel. */
  function Delta(c: RealRgb): (d: real)
    ensures 0.0 <= d
  {
    MaxOf(c) - MinOf(c)
  }

  /**
   The hue in sixths of a turn, before scaling by 60. The red-max sector
   keeps the sign of `(g - b) / delta % 6` (the remainder is truncated),
   so the result lies in [-1, 5) and is negative exactly when red is the
   maximum and blue exceeds green.
   */
  function RawHue(c: RealRgb): (h: real)
    ensures -1.0 <= h < 5.0
    ensures h < 0.0 <==> c.r == MaxOf(c) && c.g < c.b
  {
    var max := MaxOf(c);
    var delta := Delta(c);
    if delta == 0.0 then 0.0
    else if max == c.r then
      QuotientBounds(c.g - c.b, delta);
      JsRem((c.g - c.b) / delta, 6.0)
    else if max == c.g then
      QuotientBounds(c.b - c.r, delta);
      (c.b - c.r) / delta + 2.0
    else
      QuotientBounds(c.r - c.g, delta);
      (c.r - c.g) / delta + 4.0
  }

  /** `s`: the spread over the maximum, 0 for black (src/App.js:94). */
  function Saturation(c: RealRgb): (s: real)
    ensures InRange(c) ==> 0.0 <= s <= 1.0
    ensures InRange(c) ==> (s == 0.0 <==> Delta(c) == 0.0)
  {
    var max := MaxOf(c);
    if max == 0.0 then 0.0
    else
      assert InRange(c) ==> 0.0 <= Delta(c) / max <= 1.0 && (Delta(c) / max == 0.0 <==> Delta(c) == 0.0) by {
        if InRange(c) {
          QuotientBounds(Delta(c), max);
        }
      }
      Delta(c) / max
  }

  /** `v / 255`: the value component. */
  function Value(c: RealRgb): (v: real)
    ensures InRange(c) ==> 0.0 <= v <= 1.0
  {
    MaxOf(c) / 255.0
  }

  /** Value times saturation, scaled to [0, 255], is the spread; value minus it is the minimum. */
  lemma ChromaOfSeed(c: RealRgb)
    requires InRange(c)
    ensures Value(c) * 255.0 == MaxOf(c)
    ensures Value(c) * Saturation(c) * 255.0 == Delta(c)
  {
    if MaxOf(c) != 0.0 {
      ChromaOfBright(c);
    } else {
      ChromaOfBlack(c);
    }
  }

  lemma ChromaOfBright(c: RealRgb)
    requires InRange(c) && MaxOf(c) != 0.0
    ensures Value(c) * Saturation(c) * 255.0 == Delta(c)
  {
    ChromaAlgebra(MaxOf(c), MinOf(c), Value(c), Saturation(c));
  }

  lemma ChromaOfBlack(c: RealRgb)
    requires InRange(c) && MaxOf(c) == 0.0
    ensures Value(c) * Saturation(c) * 255.0 == Delta(c)
  {
    ZeroProduct(Value(c), Saturation(c));
  }

  lemma ZeroProduct(v: real, s: real)
    requires s == 0.0
    ensures v * s * 255.0 == 0.0
  {
  }

  // ---------------------------------------------------------------------------
  // hsvToRgb (src/App.js:120-138)
  // ---------------------------------------------------------------------------

  /** `1 - |(h / 60) % 2 - 1|`: the tent that scales the chroma into the secondary component. */
  function Tent(h: real): (t: real)
    ensures t <= 1.0
    ensures 0.0 <= h ==> 0.0 <= t
  {
    1.0 - Abs(JsRem(h / 60.0, 2.0) - 1.0)
  }

  /** Inside the `k`-th 60-degree sector the tent is a straight line in `h`. */
  lemma {:induction false} TentInSector(h: real, k: nat)
    requires k < 6 && 60.0 * k as real <= h < 60.0 * k as real + 60.0
    ensures Tent(h) == 1.0 - Abs(h / 60.0 - 2.0 * (k / 2) as real - 1.0)
  {
    var j := k / 2;
    assert 2.0 * j as real <= h / 60.0 < (j as real + 1.0) * 2.0;
    JsRemPeriod(h / 60.0, 2.0, j);
  }

  /** `x`: the chroma scaled by the tent. */
  function Secondary(h: real, c: real): (x: real)
    requires 0.0 <= c
    ensures x <= c
    ensures 0.0 <= h ==> 0.0 <= x
  {
    MulBounds(c, Tent(h));
    c * Tent(h)
  }

  lemma MulBounds(c: real, t: real)
    requires 0.0 <= c && t <= 1.0
    ensures c * t <= c
    ensures 0.0 <= t ==> 0.0 <= c * t
  {
  }

  /**
   The sector reconstruction. Each hue falls in exactly one branch, chosen
   by `<` tests in order; channels come out scaled to [0, 255] but are
   neither rounded nor clamped here. For a saturation in [0, 1] the
   largest channel is the value and, for a non-negative hue, the smallest
   is the value minus the chroma; a zero saturation gives a gray.
   */
  function HsvToRgb(h: real, s: real, v: real): (t: RealRgb)
    requires 0.0 <= s <= 1.0 && 0.0 <= v
    ensures MaxOf(t) == v * 255.0
    ensures 0.0 <= h ==> MinOf(t) == v * 255.0 - v * s * 255.0
    ensures s == 0.0 ==> t == RealRgb(v * 255.0, v * 255.0, v * 255.0)
  {
    var c := v * s;
    MulBounds(v, s);
    var x := Secondary(h, c);
    var m := v - c;
    var (r, g, b) :=
      if h < 60.0 then (c, x, 0.0)
      else if h < 120.0 then (x, c, 0.0)
      else if h < 180.0 then (0.0, c, x)
      else if h < 240.0 then (0.0, x, c)
      else if h < 300.0 then (x, 0.0, c)
      else (c, 0.0, x);
    RealRgb((r + m) * 255.0, (g + m) * 255.0, (b + m) * 255.0)
  }

  // ---------------------------------------------------------------------------
  // shiftHue (src/App.js:80-98)
  // ---------------------------------------------------------------------------

  /** Line 92: the rotated hue `(h * 60 + degrees + 360) % 360`, in [0, 360) for every rotation from -300 up. */
  function ShiftedHue(c: RealRgb, degrees: real): (hue: real)
    ensures -300.0 <= degrees ==> 0.0 <= hue < 360.0
  {
    JsRem(RawHue(c) * 60.0 + degrees + 360.0, 360.0)
  }

  /**
   Line 92 turns the seed's hue by `degrees`: for any turn from -300 up to
   but not including 360, the rotated hue is the hue at zero rotation plus
   `degrees`, brought back into [0, 360) by one full turn at most.
   */
  lemma ShiftedHueTurns(c: RealRgb, degrees: real)
    requires -300.0 <= degrees < 360.0
    ensures var sum := ShiftedHue(c, 0.0) + degrees;
      ShiftedHue(c, degrees) ==
        if sum < 0.0 then sum + 360.0 else if sum < 360.0 then sum else sum - 360.0
  {
    ShiftedZero(c);
    var q := RawHue(c);
    var a := q * 60.0 + degrees + 360.0;
    var sum := ShiftedHue(c, 0.0) + degrees;
    if 0.0 <= q {
      assert a == sum + 360.0;
      if sum < 0.0 {
        JsRemPeriod(a, 360.0, 0);
      } else if sum < 360.0 {
        JsRemPeriod(a, 360.0, 1);
      } else {
        JsRemPeriod(a, 360.0, 2);
      }
    } else {
      assert a == sum && 0.0 <= sum;
      if sum < 360.0 {
        JsRemPeriod(a, 360.0, 0);
      } else {
        JsRemPeriod(a, 360.0, 1);
      }
    }
  }

  /** The wrap-around: an orange at hue 10, turned by -30 degrees, lands at 340. */
  lemma ShiftedHueWraps()
    ensures ShiftedHue(RealRgb(255.0, 42.5, 0.0), 0.0) == 10.0
    ensures ShiftedHue(RealRgb(255.0, 42.5, 0.0), -30.0) == 340.0
  {
    var c := RealRgb(255.0, 42.5, 0.0);
    assert MaxOf(c) == 255.0 && Delta(c) == 255.0;
    assert (c.g - c.b) / Delta(c) == 1.0 / 6.0;
    assert RawHue(c) == 1.0 / 6.0;
    ShiftedZero(c);
    ShiftedHueTurns(c, -30.0);
  }

  /**
   `shiftHue`: rotate the hue by `degrees` and rebuild at the seed's
   saturation and value. For a seed in range and any rotation the code
   uses, the brightest and darkest channels survive unchanged, and a gray
   seed comes back as itself.
   */
  function ShiftHue(c: RealRgb, degrees: real): (t: RealRgb)
    requires InRange(c)
    ensures -300.0 <= degrees ==> MaxOf(t) == MaxOf(c) && MinOf(t) == MinOf(c)
    ensures IsGray(c) ==> t == c
  {
    ChromaOfSeed(c);
    HsvToRgb(ShiftedHue(c, degrees), Saturation(c), Value(c))
  }

  // ---------------------------------------------------------------------------
  // Zero rotation: decomposition and rebuild undo each other
  // ---------------------------------------------------------------------------

  /**
   With no rotation, `shiftHue` gives the seed back: in exact arithmetic
   `hsvToRgb` inverts the hue/saturation/value decomposition on every
   colour in range, sector by sector.
   */
  lemma ShiftHueZero(c: RealRgb)
    requires InRange(c)
    ensures ShiftHue(c, 0.0) == c
  {
    var max := MaxOf(c);
    if Delta(c) == 0.0 {
      assert IsGray(c);
    } else if max == c.r {
      if c.g == c.r { ZeroShiftRedYellow(c); }
      else if c.b <= c.g { ZeroShiftRedGreen(c); } else { ZeroShiftRedBlue(c); }
    } else if max == c.g {
      if c.b == c.g { ZeroShiftGreenCyan(c); }
      else if c.b < c.r { ZeroShiftGreenRed(c); } else { ZeroShiftGreenBlue(c); }
    } else {
      if c.r < c.g { ZeroShiftBlueGreen(c); } else { ZeroShiftBlueRed(c); }
    }
  }

  /** The rotated hue at zero rotation: the raw hue in degrees, lifted by 360 when negative. */
  lemma ShiftedZero(c: RealRgb)
    ensures var q := RawHue(c);
      && (0.0 <= q ==> ShiftedHue(c, 0.0) == q * 60.0 && ShiftedHue(c, 0.0) / 60.0 == q)
      && (q < 0.0 ==> ShiftedHue(c, 0.0) == q * 60.0 + 360.0 && ShiftedHue(c, 0.0) / 60.0 == q + 6.0)
  {
    var q := RawHue(c);
    var a := q * 60.0 + 0.0 + 360.0;
    if 0.0 <= q {
      JsRemPeriod(a, 360.0, 1);
      MulDiv(q, 60.0);
    } else {
      assert -360.0 < a < 360.0;
      assert (q + 6.0) * 60.0 == a;
      MulDiv(q + 6.0, 60.0);
    }
  }

  /** A difference over the spread, times the spread, is the difference. */
  lemma SpreadTimes(p: real, d: real, t: real)
    requires 0.0 < d && t == p / d
    ensures d * t == p
  {
    DivMul(p, d);
  }

  lemma NegDiv(p: real, d: real)
    requires 0.0 < d
    ensures (-p) / d == -(p / d)
  {
  }

  /**
   Where each sector puts the largest level `hi`, the smallest `lo` and
   the rising or falling `mid`: red, yellow, green, cyan, blue and magenta
   in turn.
   */
  function Arrange(h: real, hi: real, lo: real, mid: real): RealRgb {
    if h < 60.0 then RealRgb(hi, mid, lo)
    else if h < 120.0 then RealRgb(mid, hi, lo)
    else if h < 180.0 then RealRgb(lo, hi, mid)
    else if h < 240.0 then RealRgb(lo, mid, hi)
    else if h < 300.0 then RealRgb(mid, lo, hi)
    else RealRgb(hi, lo, mid)
  }

  /**
   `hsvToRgb` in terms of its levels: when value and chroma, scaled to
   [0, 255], are `hi` and `hi - lo`, the channels are `hi`, `lo` and `lo`
   plus the spread times the tent, arranged by sector.
   */
  lemma RebuildLevels(h: real, s: real, v: real, hi: real, lo: real)
    requires 0.0 <= s <= 1.0 && 0.0 <= v
    requires v * 255.0 == hi && v * s * 255.0 == hi - lo
    ensures HsvToRgb(h, s, v) == Arrange(h, hi, lo, lo + (hi - lo) * Tent(h))
  {
    var chroma := v * s;
    var t := Tent(h);
    MulBounds(v, s);
    assert Secondary(h, chroma) == chroma * t;
    assert (chroma * t) * 255.0 == (chroma * 255.0) * t;
  }

  /**
   At zero rotation a raw hue `k + f` (or `f - 1` in the last sector)
   lands in sector `k`, where the tent is the fraction `f` on even
   sectors and its complement on odd ones.
   */
  lemma ZeroHueTent(c: RealRgb, k: nat, f: real)
    requires k < 6 && 0.0 <= f < 1.0
    requires RawHue(c) == if k == 5 then f - 1.0 else k as real + f
    ensures var hue := ShiftedHue(c, 0.0);
      && 60.0 * k as real <= hue < 60.0 * k as real + 60.0
      && Tent(hue) == if k % 2 == 0 then f else 1.0 - f
  {
    ShiftedZero(c);
    var hue := ShiftedHue(c, 0.0);
    assert hue == (k as real + f) * 60.0;
    TentInSector(hue, k);
  }

  /** Red largest, blue smallest, green below red: the hue lies in [0, 60) and the tent climbs with green. */
  lemma RedGreenHue(c: RealRgb)
    requires InRange(c) && 0.0 < Delta(c) && MaxOf(c) == c.r && c.b <= c.g < c.r
    ensures var hue := ShiftedHue(c, 0.0);
      0.0 <= hue < 60.0 && (MaxOf(c) - MinOf(c)) * Tent(hue) == c.g - c.b
  {
    var d := Delta(c);
    QuotientBounds(c.g - c.b, d);
    var p := (c.g - c.b) / d;
    assert RawHue(c) == p;
    ZeroHueTent(c, 0, p);
    assert Tent(ShiftedHue(c, 0.0)) == p;
    SpreadTimes(c.g - c.b, d, p);
    assert d == MaxOf(c) - MinOf(c);
  }

  /** Red and green tied above blue: yellow, the hue is exactly 60 and the tent is at its peak. */
  lemma RedYellowHue(c: RealRgb)
    requires InRange(c) && 0.0 < Delta(c) && MaxOf(c) == c.r && c.g == c.r
    ensures var hue := ShiftedHue(c, 0.0); hue == 60.0 && Tent(hue) == 1.0
  {
    var d := Delta(c);
    QuotientBounds(c.g - c.b, d);
    assert RawHue(c) == 1.0;
    ZeroHueTent(c, 1, 0.0);
  }

  /** Red largest, green smallest: the hue lies in [300, 360) and the tent climbs with blue. */
  lemma RedBlueHue(c: RealRgb)
    requires InRange(c) && 0.0 < Delta(c) && MaxOf(c) == c.r && c.g < c.b
    ensures var hue := ShiftedHue(c, 0.0);
      300.0 <= hue < 360.0 && (MaxOf(c) - MinOf(c)) * Tent(hue) == c.b - c.g
  {
    var d := Delta(c);
    QuotientBounds(c.b - c.g, d);
    var p := (c.b - c.g) / d;
    NegDiv(c.b - c.g, d);
    assert RawHue(c) == -p;
    ZeroHueTent(c, 5, 1.0 - p);
    assert Tent(ShiftedHue(c, 0.0)) == p;
    SpreadTimes(c.b - c.g, d, p);
    assert d == MaxOf(c) - MinOf(c);
  }

  /** Green largest, blue below red: the hue lies in [60, 120) and the tent climbs with red. */
  lemma GreenRedHue(c: RealRgb)
    requires InRange(c) && 0.0 < Delta(c) && MaxOf(c) != c.r && MaxOf(c) == c.g && c.b < c.r
    ensures var hue := ShiftedHue(c, 0.0);
      60.0 <= hue < 120.0 && (MaxOf(c) - MinOf(c)) * Tent(hue) == c.r - c.b
  {
    var d := Delta(c);
    QuotientBounds(c.r - c.b, d);
    var p := (c.r - c.b) / d;
    NegDiv(c.r - c.b, d);
    assert RawHue(c) == 2.0 - p;
    ZeroHueTent(c, 1, 1.0 - p);
    assert Tent(ShiftedHue(c, 0.0)) == p;
    SpreadTimes(c.r - c.b, d, p);
    assert d == MaxOf(c) - MinOf(c);
  }

  /** Green largest, red smallest, blue below green: the hue lies in [120, 180) and the tent climbs with blue. */
  lemma GreenBlueHue(c: RealRgb)
    requires InRange(c) && 0.0 < Delta(c) && MaxOf(c) != c.r && MaxOf(c) == c.g && c.r <= c.b < c.g
    ensures var hue := ShiftedHue(c, 0.0);
      120.0 <= hue < 180.0 && (MaxOf(c) - MinOf(c)) * Tent(hue) == c.b - c.r
  {
    var d := Delta(c);
    QuotientBounds(c.b - c.r, d);
    var p := (c.b - c.r) / d;
    assert RawHue(c) == p + 2.0;
    ZeroHueTent(c, 2, p);
    assert Tent(ShiftedHue(c, 0.0)) == p;
    SpreadTimes(c.b - c.r, d, p);
    assert d == MaxOf(c) - MinOf(c);
  }

  /** Green and blue tied above red: cyan, the hue is exactly 180 and the tent is at its peak. */
  lemma GreenCyanHue(c: RealRgb)
    requires InRange(c) && 0.0 < Delta(c) && MaxOf(c) != c.r && MaxOf(c) == c.g && c.b == c.g
    ensures var hue := ShiftedHue(c, 0.0); hue == 180.0 && Tent(hue) == 1.0
  {
    var d := Delta(c);
    QuotientBounds(c.b - c.r, d);
    assert RawHue(c) == 3.0;
    ZeroHueTent(c, 3, 0.0);
  }

  /** Blue largest, red below green: the hue lies in (180, 240) and the tent climbs with green. */
  lemma BlueGreenHue(c: RealRgb)
    requires InRange(c) && 0.0 < Delta(c) && MaxOf(c) != c.r && MaxOf(c) != c.g && c.r < c.g
    ensures var hue := ShiftedHue(c, 0.0);
      180.0 <= hue < 240.0 && (MaxOf(c) - MinOf(c)) * Tent(hue) == c.g - c.r
  {
    var d := Delta(c);
    QuotientBounds(c.g - c.r, d);
    var p := (c.g - c.r) / d;
    NegDiv(c.g - c.r, d);
    assert RawHue(c) == 4.0 - p;
    ZeroHueTent(c, 3, 1.0 - p);
    assert Tent(ShiftedHue(c, 0.0)) == p;
    SpreadTimes(c.g - c.r, d, p);
    assert d == MaxOf(c) - MinOf(c);
  }

  /** Blue largest, green smallest: the hue lies in [240, 300) and the tent climbs with red. */
  lemma BlueRedHue(c: RealRgb)
    requires InRange(c) && 0.0 < Delta(c) && MaxOf(c) != c.r && MaxOf(c) != c.g && c.g <= c.r
    ensures var hue := ShiftedHue(c, 0.0);
      240.0 <= hue < 300.0 && (MaxOf(c) - MinOf(c)) * Tent(hue) == c.r - c.g
  {
    var d := Delta(c);
    QuotientBounds(c.r - c.g, d);
    var p := (c.r - c.g) / d;
    assert RawHue(c) == p + 4.0;
    ZeroHueTent(c, 4, p);
    assert Tent(ShiftedHue(c, 0.0)) == p;
    SpreadTimes(c.r - c.g, d, p);
    assert d == MaxOf(c) - MinOf(c);
  }

  lemma ZeroShiftRedGreen(c: RealRgb)
    requires InRange(c) && 0.0 < Delta(c) && MaxOf(c) == c.r && c.b <= c.g < c.r
    ensures ShiftHue(c, 0.0) == c
  {
    RedGreenHue(c);
    ChromaOfSeed(c);
    RebuildLevels(ShiftedHue(c, 0.0), Saturation(c), Value(c), MaxOf(c), MinOf(c));
  }

  lemma ZeroShiftRedBlue(c: RealRgb)
    requires InRange(c) && 0.0 < Delta(c) && MaxOf(c) == c.r && c.g < c.b
    ensures ShiftHue(c, 0.0) == c
  {
    RedBlueHue(c);
    ChromaOfSeed(c);
    RebuildLevels(ShiftedHue(c, 0.0), Saturation(c), Value(c), MaxOf(c), MinOf(c));
  }

  lemma ZeroShiftGreenRed(c: RealRgb)
    requires InRange(c) && 0.0 < Delta(c) && MaxOf(c) != c.r && MaxOf(c) == c.g && c.b < c.r
    ensures ShiftHue(c, 0.0) == c
  {
    GreenRedHue(c);
    ChromaOfSeed(c);
    RebuildLevels(ShiftedHue(c, 0.0), Saturation(c), Value(c), MaxOf(c), MinOf(c));
  }

  lemma ZeroShiftGreenBlue(c: RealRgb)
    requires InRange(c) && 0.0 < Delta(c) && MaxOf(c) != c.r && MaxOf(c) == c.g && c.r <= c.b < c.g
    ensures ShiftHue(c, 0.0) == c
  {
    GreenBlueHue(c);
    ChromaOfSeed(c);
    RebuildLevels(ShiftedHue(c, 0.0), Saturation(c), Value(c), MaxOf(c), MinOf(c));
  }

  lemma ZeroShiftBlueGreen(c: RealRgb)
    requires InRange(c) && 0.0 < Delta(c) && MaxOf(c) != c.r && MaxOf(c) != c.g && c.r < c.g
    ensures ShiftHue(c, 0.0) == c
  {
    BlueGreenHue(c);
    ChromaOfSeed(c);
    RebuildLevels(ShiftedHue(c, 0.0), Saturation(c), Value(c), MaxOf(c), MinOf(c));
  }

  lemma ZeroShiftRedYellow(c: RealRgb)
    requires InRange(c) && 0.0 < Delta(c) && MaxOf(c) == c.r && c.g == c.r
    ensures ShiftHue(c, 0.0) == c
  {
    RedYellowHue(c);
    ChromaOfSeed(c);
    RebuildLevels(ShiftedHue(c, 0.0), Saturation(c), Value(c), MaxOf(c), MinOf(c));
  }

  lemma ZeroShiftGreenCyan(c: RealRgb)
    requires InRange(c) && 0.0 < Delta(c) && MaxOf(c) != c.r && MaxOf(c) == c.g && c.b == c.g
    ensures ShiftHue(c, 0.0) == c
  {
    GreenCyanHue(c);
    ChromaOfSeed(c);
    RebuildLevels(ShiftedHue(c, 0.0), Saturation(c), Value(c), MaxOf(c), MinOf(c));
  }

  lemma ZeroShiftBlueRed(c: RealRgb)
    requires InRange(c) && 0.0 < Delta(c) && MaxOf(c) != c.r && MaxOf(c) != c.g && c.g <= c.r
    ensures ShiftHue(c, 0.0) == c
  {
    BlueRedHue(c);
    ChromaOfSeed(c);
    RebuildLevels(ShiftedHue(c, 0.0), Saturation(c), Value(c), MaxOf(c), MinOf(c));
  }

  // ---------------------------------------------------------------------------
  // The other direction: a rebuilt colour decomposes to its own hue
  // ---------------------------------------------------------------------------

  /** A fraction `p` of a positive spread `d` lies within the spread, and dividing by it gives `p` back. */
  lemma SpreadFraction(d: real, p: real)
    requires 0.0 < d && 0.0 <= p <= 1.0
    ensures 0.0 <= d * p <= d
    ensures p < 1.0 ==> d * p < d
    ensures (d * p) / d == p
  {
    if p < 1.0 { MulLt(p, 1.0, d); }
  }

  /**
   `hsvToRgb` in terms of its floor `lo` and chroma `ch`, both on the
   0..255 scale, and the tent's value `p`: the same arrangement as
   `RebuildLevels` with the top written `lo + ch`.
   */
  lemma RebuildChroma(h: real, s: real, v: real, lo: real, ch: real, p: real)
    requires 0.0 <= s <= 1.0 && 0.0 <= v
    requires v * s * 255.0 == ch && v * 255.0 == lo + ch && p == Tent(h)
    ensures HsvToRgb(h, s, v) == Arrange(h, lo + ch, lo, lo + ch * p)
  {
    var chroma := v * s;
    MulBounds(v, s);
    assert Secondary(h, chroma) == chroma * p;
    assert (chroma * p) * 255.0 == (chroma * 255.0) * p;
  }

  /** Red on top, green a fraction `p` of the chroma above the floor: the raw hue is `p`. */
  lemma RisingRedHue(lo: real, ch: real, p: real)
    requires 0.0 < ch && 0.0 <= p < 1.0
    ensures RawHue(RealRgb(lo + ch, lo + ch * p, lo)) == p
  {
    SpreadFraction(ch, p);
    var t := RealRgb(lo + ch, lo + ch * p, lo);
    assert t.b <= t.g < t.r;
    assert MaxOf(t) == t.r && MinOf(t) == t.b;
    assert (t.g - t.b) / Delta(t) == p;
  }

  /** Green on top, red a fraction `p` of the chroma above the floor: the raw hue is two less `p`. */
  lemma FallingGreenHue(lo: real, ch: real, p: real)
    requires 0.0 < ch && 0.0 <= p < 1.0
    ensures RawHue(RealRgb(lo + ch * p, lo + ch, lo)) == 2.0 - p
  {
    SpreadFraction(ch, p);
    var t := RealRgb(lo + ch * p, lo + ch, lo);
    assert t.b <= t.r < t.g;
    assert MaxOf(t) == t.g && MinOf(t) == t.b;
    NegDiv(ch * p, ch);
    assert (t.b - t.r) / Delta(t) == -p;
  }

  /** Red and green tied on top: yellow, whose raw hue is 1 through the red branch. */
  lemma YellowHue(lo: real, ch: real)
    requires 0.0 < ch
    ensures RawHue(RealRgb(lo + ch, lo + ch, lo)) == 1.0
  {
    UnitQuotients(ch);
    var t := RealRgb(lo + ch, lo + ch, lo);
    assert MaxOf(t) == lo + ch && MinOf(t) == lo;
    assert (t.g - t.b) / Delta(t) == 1.0;
  }

  /** Green on top, blue a fraction `p` of the chroma above the floor: the raw hue is two plus `p`. */
  lemma RisingGreenHue(lo: real, ch: real, p: real)
    requires 0.0 < ch && 0.0 <= p < 1.0
    ensures RawHue(RealRgb(lo, lo + ch, lo + ch * p)) == 2.0 + p
  {
    SpreadFraction(ch, p);
    var t := RealRgb(lo, lo + ch, lo + ch * p);
    assert t.r <= t.b < t.g;
    assert MaxOf(t) == t.g && MinOf(t) == t.r;
    assert (t.b - t.r) / Delta(t) == p;
  }

  /** Blue on top, green a fraction `p` of the chroma above the floor: the raw hue is four less `p`. */
  lemma FallingBlueHue(lo: real, ch: real, p: real)
    requires 0.0 < ch && 0.0 <= p < 1.0
    ensures RawHue(RealRgb(lo, lo + ch * p, lo + ch)) == 4.0 - p
  {
    SpreadFraction(ch, p);
    var t := RealRgb(lo, lo + ch * p, lo + ch);
    assert t.r <= t.g < t.b;
    assert MaxOf(t) == t.b && MinOf(t) == t.r;
    NegDiv(ch * p, ch);
    assert (t.r - t.g) / Delta(t) == -p;
  }

  /** Green and blue tied on top: cyan, whose raw hue is 3 through the green branch. */
  lemma CyanHue(lo: real, ch: real)
    requires 0.0 < ch
    ensures RawHue(RealRgb(lo, lo + ch, lo + ch)) == 3.0
  {
    UnitQuotients(ch);
    var t := RealRgb(lo, lo + ch, lo + ch);
    assert MaxOf(t) == lo + ch && MinOf(t) == lo && MaxOf(t) != t.r;
    assert (t.b - t.r) / Delta(t) == 1.0;
  }

  /** Blue on top, red a fraction `p` of the chroma above the floor: the raw hue is four plus `p`. */
  lemma RisingBlueHue(lo: real, ch: real, p: real)
    requires 0.0 < ch && 0.0 <= p < 1.0
    ensures RawHue(RealRgb(lo + ch * p, lo, lo + ch)) == 4.0 + p
  {
    SpreadFraction(ch, p);
    var t := RealRgb(lo + ch * p, lo, lo + ch);
    assert t.g <= t.r < t.b;
    assert MaxOf(t) == t.b && MinOf(t) == t.g;
    assert (t.r - t.g) / Delta(t) == p;
  }

  /** Red on top, blue a fraction `p` of the chroma above the floor: the truncated remainder leaves the raw hue at `-p`. */
  lemma FallingRedHue(lo: real, ch: real, p: real)
    requires 0.0 < ch && 0.0 < p <= 1.0
    ensures RawHue(RealRgb(lo + ch, lo, lo + ch * p)) == -p
  {
    SpreadFraction(ch, p);
    var t := RealRgb(lo + ch, lo, lo + ch * p);
    assert t.g < t.b <= t.r;
    assert MaxOf(t) == t.r && MinOf(t) == t.g;
    NegDiv(ch * p, ch);
    assert (t.g - t.b) / Delta(t) == -p;
  }

  /** `h / 60` bracketed by the sector `k` that `h` falls in. */
  lemma SectorQuotient(h: real, k: nat)
    requires k < 6 && 60.0 * k as real <= h < 60.0 * k as real + 60.0
    ensures k as real <= h / 60.0 < k as real + 1.0
  {
    DivLe(60.0 * k as real, h, 60.0);
    DivLt(h, 60.0 * k as real + 60.0, 60.0);
    MulDiv(k as real, 60.0);
    MulDiv(k as real + 1.0, 60.0);
    assert 60.0 * k as real + 60.0 == (k as real + 1.0) * 60.0;
  }

  /**
   Inside sector `k` the tent is the fraction of the sector covered on
   even sectors, and the fraction still to go on odd ones.
   */
  lemma SectorTent(h: real, k: nat)
    requires k < 6 && 60.0 * k as real <= h < 60.0 * k as real + 60.0
    ensures k % 2 == 0 ==> Tent(h) == h / 60.0 - k as real
    ensures k % 2 == 1 ==> Tent(h) == k as real + 1.0 - h / 60.0
  {
    SectorQuotient(h, k);
    TentInSector(h, k);
  }

  /** The raw hue of the colour `hsvToRgb` arranges at hue `h`: `h / 60`, less a full turn in the last sector. */
  function RebuiltRawHue(h: real): real {
    if h < 300.0 then h / 60.0 else h / 60.0 - 6.0
  }

  lemma SectorRedHue(h: real, lo: real, ch: real, p: real)
    requires 0.0 <= h < 60.0 && 0.0 < ch && p == h / 60.0
    ensures RawHue(Arrange(h, lo + ch, lo, lo + ch * p)) == RebuiltRawHue(h)
  {
    SectorQuotient(h, 0);
    RisingRedHue(lo, ch, p);
  }

  lemma SectorYellowHue(h: real, lo: real, ch: real, p: real)
    requires 60.0 < h < 120.0 && 0.0 < ch && p == 2.0 - h / 60.0
    ensures RawHue(Arrange(h, lo + ch, lo, lo + ch * p)) == RebuiltRawHue(h)
  {
    SectorQuotient(h, 1);
    FallingGreenHue(lo, ch, p);
  }

  /** At exactly 60 degrees the tent peaks and the rebuilt colour is yellow. */
  lemma YellowTie(lo: real, ch: real, p: real)
    requires 0.0 < ch && p == 1.0
    ensures RawHue(Arrange(60.0, lo + ch, lo, lo + ch * p)) == RebuiltRawHue(60.0)
  {
    assert lo + ch * p == lo + ch;
    YellowHue(lo, ch);
  }

  lemma SectorGreenHue(h: real, lo: real, ch: real, p: real)
    requires 120.0 <= h < 180.0 && 0.0 < ch && p == h / 60.0 - 2.0
    ensures RawHue(Arrange(h, lo + ch, lo, lo + ch * p)) == RebuiltRawHue(h)
  {
    SectorQuotient(h, 2);
    RisingGreenHue(lo, ch, p);
  }

  lemma SectorCyanHue(h: real, lo: real, ch: real, p: real)
    requires 180.0 < h < 240.0 && 0.0 < ch && p == 4.0 - h / 60.0
    ensures RawHue(Arrange(h, lo + ch, lo, lo + ch * p)) == RebuiltRawHue(h)
  {
    SectorQuotient(h, 3);
    FallingBlueHue(lo, ch, p);
  }

  /** At exactly 180 degrees the tent peaks and the rebuilt colour is cyan. */
  lemma CyanTie(lo: real, ch: real, p: real)
    requires 0.0 < ch && p == 1.0
    ensures RawHue(Arrange(180.0, lo + ch, lo, lo + ch * p)) == RebuiltRawHue(180.0)
  {
    assert lo + ch * p == lo + ch;
    CyanHue(lo, ch);
  }

  lemma SectorBlueHue(h: real, lo: real, ch: real, p: real)
    requires 240.0 <= h < 300.0 && 0.0 < ch && p == h / 60.0 - 4.0
    ensures RawHue(Arrange(h, lo + ch, lo, lo + ch * p)) == RebuiltRawHue(h)
  {
    SectorQuotient(h, 4);
    RisingBlueHue(lo, ch, p);
  }

  lemma SectorMagentaHue(h: real, lo: real, ch: real, p: real)
    requires 300.0 <= h < 360.0 && 0.0 < ch && p == 6.0 - h / 60.0
    ensures RawHue(Arrange(h, lo + ch, lo, lo + ch * p)) == RebuiltRawHue(h)
  {
    SectorQuotient(h, 5);
    FallingRedHue(lo, ch, p);
  }

  /** The tent written out sector by sector, as straight lines in `h`. */
  function RebuiltTent(h: real): real {
    if h < 60.0 then h / 60.0
    else if h < 120.0 then 2.0 - h / 60.0
    else if h < 180.0 then h / 60.0 - 2.0
    else if h < 240.0 then 4.0 - h / 60.0
    else if h < 300.0 then h / 60.0 - 4.0
    else 6.0 - h / 60.0
  }

  /** On [0, 360) the tent of line 122 is the sector-by-sector line. */
  lemma TentPiecewise(h: real)
    requires 0.0 <= h < 360.0
    ensures Tent(h) == RebuiltTent(h)
  {
    if h < 60.0 { SectorTent(h, 0); }
    else if h < 120.0 { SectorTent(h, 1); }
    else if h < 180.0 { SectorTent(h, 2); }
    else if h < 240.0 { SectorTent(h, 3); }
    else if h < 300.0 { SectorTent(h, 4); }
    else { SectorTent(h, 5); }
  }

  /**
   Whatever the sector, the colour arranged at hue `h`, with the tent's
   value `p` there, has raw hue `h / 60`, less a full turn of 6 in the last
   sector where the red branch's truncated remainder goes negative.
   */
  lemma ArrangedHue(h: real, lo: real, ch: real, p: real)
    requires 0.0 <= h < 360.0 && 0.0 < ch && p == RebuiltTent(h)
    ensures RawHue(Arrange(h, lo + ch, lo, lo + ch * p)) == RebuiltRawHue(h)
  {
    if h < 60.0 { SectorRedHue(h, lo, ch, p); }
    else if h == 60.0 { YellowTie(lo, ch, p); }
    else if h < 120.0 { SectorYellowHue(h, lo, ch, p); }
    else if h < 180.0 { SectorGreenHue(h, lo, ch, p); }
    else if h == 180.0 { CyanTie(lo, ch, p); }
    else if h < 240.0 { SectorCyanHue(h, lo, ch, p); }
    else if h < 300.0 { SectorBlueHue(h, lo, ch, p); }
    else { SectorMagentaHue(h, lo, ch, p); }
  }

  /** A colour whose raw hue is `RebuiltRawHue(h)` reads back, at zero rotation, as hue `h`. */
  lemma HueFromRaw(t: RealRgb, h: real)
    requires 0.0 <= h < 360.0 && RawHue(t) == RebuiltRawHue(h)
    ensures ShiftedHue(t, 0.0) == h
  {
    ShiftedZero(t);
    DivMul(h, 60.0);
    if h < 300.0 {
      DivLe(0.0, h, 60.0);
    } else {
      DivLt(h, 360.0, 60.0);
      assert (h / 60.0 - 6.0) * 60.0 == h / 60.0 * 60.0 - 360.0;
    }
  }

  /**
   `hsvToRgb` followed by the decomposition gives back the hue, saturation
   and value it started from, for every hue in [0, 360) and every chromatic
   saturation and non-black value: together with `ShiftHueZero` the two
   directions of the HSV round trip.
   */
  lemma HsvRoundTrip(h: real, s: real, v: real)
    requires 0.0 <= h < 360.0 && 0.0 < s <= 1.0 && 0.0 < v <= 1.0
    ensures InRange(HsvToRgb(h, s, v))
    ensures ShiftedHue(HsvToRgb(h, s, v), 0.0) == h
    ensures Saturation(HsvToRgb(h, s, v)) == s
    ensures Value(HsvToRgb(h, s, v)) == v
  {
    var t := HsvToRgb(h, s, v);
    LevelsInRange(t, v, s);
    SaturationOfLevels(t, v, s);
    MulDiv(v, 255.0);
    RebuiltHue(h, s, v);
  }

  /** With top `v * 255` for `v` in (0, 1] and floor `v * 255 - v * s * 255` for `s` in (0, 1], every channel is in range. */
  lemma LevelsInRange(t: RealRgb, v: real, s: real)
    requires 0.0 < v <= 1.0 && 0.0 < s <= 1.0
    requires MaxOf(t) == v * 255.0 && MinOf(t) == v * 255.0 - v * s * 255.0
    ensures InRange(t)
  {
    MulBounds(v, s);
    assert v * s * 255.0 <= v * 255.0;
  }

  lemma RebuiltHue(h: real, s: real, v: real)
    requires 0.0 <= h < 360.0 && 0.0 < s <= 1.0 && 0.0 < v <= 1.0
    ensures ShiftedHue(HsvToRgb(h, s, v), 0.0) == h
  {
    var ch := v * s * 255.0;
    var lo := v * 255.0 - ch;
    PositiveProduct(v, s);
    var p := Tent(h);
    RebuildChroma(h, s, v, lo, ch, p);
    TentPiecewise(h);
    ArrangedHue(h, lo, ch, p);
    HueFromRaw(HsvToRgb(h, s, v), h);
  }

  /**
   `shiftHue` does rotate: for a chromatic seed in range and any rotation
   from -300 degrees up, the result decomposes to the rotated hue of line
   92, at the seed's saturation and value.
   */
  lemma ShiftHueRotates(c: RealRgb, degrees: real)
    requires InRange(c) && 0.0 < Delta(c) && -300.0 <= degrees
    ensures InRange(ShiftHue(c, degrees))
    ensures ShiftedHue(ShiftHue(c, degrees), 0.0) == ShiftedHue(c, degrees)
    ensures Saturation(ShiftHue(c, degrees)) == Saturation(c)
    ensures Value(ShiftHue(c, degrees)) == Value(c)
  {
    DivLt(0.0, MaxOf(c), 255.0);
    HsvRoundTrip(ShiftedHue(c, degrees), Saturation(c), Value(c));
  }

  // ---------------------------------------------------------------------------
  // adjustSaturation (src/App.js:100-118)
  // ---------------------------------------------------------------------------

  /** `Math.min(1, s * factor)` for a saturation `s` and a non-negative factor. */
  function CappedProduct(s: real, factor: real): (p: real)
    requires 0.0 <= s <= 1.0 && 0.0 <= factor
    ensures 0.0 <= p <= 1.0
    ensures factor <= 1.0 ==> p <= s
    ensures 1.0 <= factor ==> s <= p
    ensures p == 0.0 <==> s == 0.0 || factor == 0.0
  {
    var scaled := ProductLevel(s, factor);
    if 1.0 < scaled then 1.0 else scaled
  }

  /** Line 114 and the `Math.min(1, s)` of line 117: the seed saturation scaled, capped at 1. */
  function ScaledSaturation(c: RealRgb, factor: real): (s: real)
    requires InRange(c) && 0.0 <= factor
    ensures 0.0 <= s <= 1.0
    ensures factor <= 1.0 ==> s <= Saturation(c)
    ensures 1.0 <= factor ==> Saturation(c) <= s
    ensures s == 0.0 <==> Delta(c) == 0.0 || factor == 0.0
  {
    CappedProduct(Saturation(c), factor)
  }

  /** The product of two non-negative reals, ordered against its first factor. */
  function ProductLevel(s: real, f: real): (p: real)
    requires 0.0 <= s && 0.0 <= f
    ensures 0.0 <= p
    ensures f <= 1.0 ==> p <= s
    ensures 1.0 <= f ==> s <= p
    ensures p == 0.0 <==> s == 0.0 || f == 0.0
  {
    s * f
  }

  /** Line 112: the hue `adjustSaturation` hands on, `h * 60` with no wrap-around. */
  function AdjustedHue(c: RealRgb): (h: real)
    ensures -60.0 <= h < 300.0
    ensures h < 0.0 <==> c.r == MaxOf(c) && c.g < c.b
  {
    RawHue(c) * 60.0
  }

  /**
   `adjustSaturation`: rebuild with the saturation scaled by `factor`
   (capped at 1) at the seed's value and unnormalised hue. The value
   always survives; wherever the hue is not negative the floor is the
   value less value times the new saturation, on the 0..255 scale; a gray
   seed comes back as itself.
   */
  function AdjustSaturation(c: RealRgb, factor: real): (t: RealRgb)
    requires InRange(c) && 0.0 <= factor
    ensures MaxOf(t) == MaxOf(c)
    ensures 0.0 <= AdjustedHue(c) ==>
      MinOf(t) == Value(c) * 255.0 - Value(c) * ScaledSaturation(c, factor) * 255.0
    ensures IsGray(c) ==> t == c
  {
    ChromaOfSeed(c);
    HsvToRgb(AdjustedHue(c), ScaledSaturation(c, factor), Value(c))
  }

  /**
   The decomposition reads a rebuilt colour's saturation back: a colour
   whose top level is `v` and whose floor is `v - v * s`, on the 0..255
   scale, has saturation `s`, or 0 when it is black.
   */
  lemma SaturationOfLevels(t: RealRgb, v: real, s: real)
    requires 0.0 <= v
    requires MaxOf(t) == v * 255.0 && MinOf(t) == v * 255.0 - v * s * 255.0
    ensures 0.0 < v ==> Saturation(t) == s
    ensures v == 0.0 ==> Saturation(t) == 0.0
  {
    if v != 0.0 {
      assert v * s * 255.0 == (v * 255.0) * s;
      SpreadOverTop(Delta(t), MaxOf(t), s);
    }
  }

  lemma SpreadOverTop(d: real, top: real, s: real)
    requires 0.0 < top && d == top * s
    ensures d / top == s
  {
  }

  /**
   Where the hue handed on is not negative, `adjustSaturation` changes
   the saturation alone: for a chromatic seed and a positive factor the
   result decomposes to the seed's hue and value and to the scaled, capped
   saturation.
   */
  lemma AdjustSaturationReads(c: RealRgb, factor: real)
    requires InRange(c) && 0.0 < Delta(c) && 0.0 < factor && 0.0 <= AdjustedHue(c)
    ensures InRange(AdjustSaturation(c, factor))
    ensures ShiftedHue(AdjustSaturation(c, factor), 0.0) == ShiftedHue(c, 0.0)
    ensures Saturation(AdjustSaturation(c, factor)) == ScaledSaturation(c, factor)
    ensures Value(AdjustSaturation(c, factor)) == Value(c)
  {
    var h := AdjustedHue(c);
    var s := ScaledSaturation(c, factor);
    var v := Value(c);
    ShiftedZero(c);
    assert ShiftedHue(c, 0.0) == h;
    DivLt(0.0, MaxOf(c), 255.0);
    HsvRoundTrip(h, s, v);
    assert AdjustSaturation(c, factor) == HsvToRgb(h, s, v);
  }

  /** On [-60, 0) the tent is `h / 60` itself: the truncated `%` keeps the sign. */
  lemma TentOfNegative(h: real)
    requires -60.0 <= h < 0.0
    ensures Tent(h) == h / 60.0
  {
    var q := h / 60.0;
    DivLe(-60.0, h, 60.0);
    DivLt(h, 0.0, 60.0);
    assert -1.0 <= q < 0.0;
    assert JsRem(q, 2.0) == q;
  }

  /**
   The unnormalised-hue trap. For a seed whose red channel is the largest
   and whose blue exceeds its green, the hue handed on is negative, so
   `hsvToRgb` takes its first branch with a negative secondary component:
   chroma times the raw hue. That lands in green, which drops below blue,
   the `v - c` floor every other branch keeps to.
   */
  lemma AdjustSaturationNegativeHue(c: RealRgb, factor: real)
    requires InRange(c) && 0.0 < factor
    requires c.r == MaxOf(c) && c.g < c.b
    ensures var chroma := Value(c) * ScaledSaturation(c, factor);
      Secondary(AdjustedHue(c), chroma) == chroma * RawHue(c) < 0.0
    ensures var t := AdjustSaturation(c, factor);
      t.b == (Value(c) - Value(c) * ScaledSaturation(c, factor)) * 255.0 && t.g < t.b
  {
    var s := ScaledSaturation(c, factor);
    var v := Value(c);
    var chroma := v * s;
    var h := AdjustedHue(c);
    TentOfNegative(h);
    assert Tent(h) == RawHue(c);
    assert 0.0 < Delta(c);
    assert 0.0 < s;
    assert 0.0 < MaxOf(c);
    DivLt(0.0, MaxOf(c), 255.0);
    assert 0.0 < v;
    PositiveProduct(v, s);
    NegativeProduct(chroma, RawHue(c));
  }

  lemma PositiveProduct(x: real, y: real)
    requires 0.0 < x && 0.0 < y
    ensures 0.0 < x * y
  {
  }

  lemma NegativeProduct(x: real, y: real)
    requires 0.0 < x && y < 0.0
    ensures x * y < 0.0
  {
  }

  /**
   At factor 1 `adjustSaturation` gives the seed back exactly when its hue
   is not negative: there the unnormalised hue agrees with the rotated
   hue of a zero `shiftHue`.
   */
  lemma AdjustSaturationOne(c: RealRgb)
    requires InRange(c) && !(c.r == MaxOf(c) && c.g < c.b)
    ensures AdjustSaturation(c, 1.0) == c
  {
    ShiftedZero(c);
    assert AdjustedHue(c) == ShiftedHue(c, 0.0);
    assert ScaledSaturation(c, 1.0) == Saturation(c);
    ShiftHueZero(c);
  }

  /**
   For the seeds with a negative hue, even factor 1 moves the colour: blue
   drops to the seed's minimum, green, so the result differs from the seed.
   */
  lemma AdjustSaturationOneMoves(c: RealRgb)
    requires InRange(c) && c.r == MaxOf(c) && c.g < c.b
    ensures AdjustSaturation(c, 1.0).b == c.g < c.b
  {
    AdjustSaturationNegativeHue(c, 1.0);
    ChromaOfSeed(c);
    assert ScaledSaturation(c, 1.0) == Saturation(c);
  }

  /** Magenta, made "More Saturated", comes out as (255, -255, 0): pure red once clamped. */
  lemma MagentaMoreSaturated()
    ensures AdjustSaturation(RealRgb(255.0, 0.0, 255.0), 1.3) == RealRgb(255.0, -255.0, 0.0)
  {
    var c := RealRgb(255.0, 0.0, 255.0);
    assert MaxOf(c) == 255.0 && MinOf(c) == 0.0;
    assert JsRem(-1.0, 6.0) == -1.0;
    assert RawHue(c) == -1.0;
    assert Saturation(c) == 1.0;
    assert ScaledSaturation(c, 1.3) == 1.0;
    assert Value(c) == 1.0;
    assert JsRem(-1.0, 2.0) == -1.0;
    assert Tent(-60.0) == -1.0;
  }
}
