/** The pipette's colour conversions in public/app.js: `rgbToCmyk`,
    `rgbToHsv` and `rgbToHsl`. Each channel is divided by 255 and the
    arithmetic is done on exact reals; `Math.round` is `floor(x + 1/2)`. */
module ColorSpace {
  import opened Hex

  datatype Cmyk = Cmyk(c: int, m: int, y: int, k: int)
  datatype Hsv = Hsv(h: int, s: int, v: int)
  datatype Hsl = Hsl(h: int, s: int, l: int)

  /** `Math.round`: the nearest integer, halves rounded up. */
  function Round(x: real): (n: int)
    ensures n as real - 0.5 <= x < n as real + 0.5
  {
    (x + 0.5).Floor
  }

  /** A channel as a fraction of full intensity. */
  function Unit(n: Channel): real {
    n as real / 255.0
  }

  function Max2(a: real, b: real): real {
    if a < b then b else a
  }

  function Min2(a: real, b: real): real {
    if b < a then b else a
  }

  /** `Math.max(a, b, c)`. */
  function Max3(a: real, b: real, c: real): (x: real)
    ensures x == a || x == b || x == c
    ensures a <= x && b <= x && c <= x
  {
    Max2(Max2(a, b), c)
  }

  /** `Math.min(a, b, c)`. */
  function Min3(a: real, b: real, c: real): (x: real)
    ensures x == a || x == b || x == c
    ensures x <= a && x <= b && x <= c
  {
    Min2(Min2(a, b), c)
  }

  /** `case r:` of the hue switch. */
  function RedSextant(r: real, g: real, b: real): real
    requires Max3(r, g, b) != Min3(r, g, b)
  {
    (g - b) / (Max3(r, g, b) - Min3(r, g, b)) + (if g < b then 6.0 else 0.0)
  }

  /** `case g:` of the hue switch. */
  function GreenSextant(r: real, g: real, b: real): real
    requires Max3(r, g, b) != Min3(r, g, b)
  {
    (b - r) / (Max3(r, g, b) - Min3(r, g, b)) + 2.0
  }

  /** `case b:` of the hue switch. */
  function BlueSextant(r: real, g: real, b: real): real
    requires Max3(r, g, b) != Min3(r, g, b)
  {
    (r - g) / (Max3(r, g, b) - Min3(r, g, b)) + 4.0
  }

  /** The hue before `h /= 6`, shared by `rgbToHsv` and `rgbToHsl`: the
      `switch (max)` tests red, then green, then blue, so red wins a tie. */
  function Sextant(r: real, g: real, b: real): (h: real)
    requires Max3(r, g, b) != Min3(r, g, b)
    ensures 0.0 <= h < 6.0
  {
    var max := Max3(r, g, b);
    var d := max - Min3(r, g, b);
    RatioBounds(g - b, d);
    RatioBounds(b - r, d);
    RatioBounds(r - g, d);
    if max == r then RedSextant(r, g, b)
    else if max == g then GreenSextant(r, g, b)
    else BlueSextant(r, g, b)
  }

  /** `rgbToCmyk(r, g, b)`. */
  function RgbToCmyk(r: Channel, g: Channel, b: Channel): (c: Cmyk)
    ensures 0 <= c.c <= 100 && 0 <= c.m <= 100 && 0 <= c.y <= 100 && 0 <= c.k <= 100
  {
    var rr, gg, bb := Unit(r), Unit(g), Unit(b);
    var k := 1.0 - Max3(rr, gg, bb);
    if k == 1.0 then Cmyk(0, 0, 0, 100)
    else
      InkBounds(rr, k);
      InkBounds(gg, k);
      InkBounds(bb, k);
      Cmyk(Round((1.0 - rr - k) / (1.0 - k) * 100.0),
           Round((1.0 - gg - k) / (1.0 - k) * 100.0),
           Round((1.0 - bb - k) / (1.0 - k) * 100.0),
           Round(k * 100.0))
  }

  /** `rgbToHsv(r, g, b)`. */
  function RgbToHsv(r: Channel, g: Channel, b: Channel): (c: Hsv)
    ensures 0 <= c.h <= 360 && 0 <= c.s <= 100 && 0 <= c.v <= 100
  {
    var rr, gg, bb := Unit(r), Unit(g), Unit(b);
    var max, min := Max3(rr, gg, bb), Min3(rr, gg, bb);
    var d := max - min;
    var s := if max == 0.0 then 0.0 else d / max;
    var h := if max == min then 0.0 else Sextant(rr, gg, bb) / 6.0;
    RatioBounds(d, max);
    Hsv(Round(h * 360.0), Round(s * 100.0), Round(max * 100.0))
  }

  /** `rgbToHsl(r, g, b)`. */
  function RgbToHsl(r: Channel, g: Channel, b: Channel): (c: Hsl)
    ensures 0 <= c.h <= 360 && 0 <= c.s <= 100 && 0 <= c.l <= 100
  {
    var rr, gg, bb := Unit(r), Unit(g), Unit(b);
    var max, min := Max3(rr, gg, bb), Min3(rr, gg, bb);
    var l := (max + min) / 2.0;
    if max == min then Hsl(0, 0, Round(l * 100.0))
    else
      var d := max - min;
      var s := if l > 0.5 then d / (2.0 - max - min) else d / (max + min);
      RatioBounds(d, 2.0 - max - min);
      RatioBounds(d, max + min);
      Hsl(Round(Sextant(rr, gg, bb) / 6.0 * 360.0), Round(s * 100.0), Round(l * 100.0))
  }

  // ---------------------------------------------------------------------
  // Arithmetic

  /** A quotient of numbers no further apart than the divisor lies in [-1, 1],
      and keeps the sign of the dividend. */
  lemma RatioBounds(a: real, d: real)
    ensures d > 0.0 && -d <= a <= d ==> -1.0 <= a / d <= 1.0
    ensures d > 0.0 && 0.0 <= a ==> 0.0 <= a / d
    ensures d > 0.0 && a < 0.0 ==> a / d < 0.0
  {
  }

  /** The ink fraction of a channel is between 0 and 1. */
  lemma InkBounds(x: real, k: real)
    requires k < 1.0 && 0.0 <= x <= 1.0 - k
    ensures 0.0 <= (1.0 - x - k) / (1.0 - k) <= 1.0
  {
    RatioBounds(1.0 - x - k, 1.0 - k);
  }

  /** The integer nearest to `p / q`, halves rounded up, computed without
      reals. */
  function NearestRatio(p: int, q: int): int
    requires q > 0
  {
    (2 * p + q) / (2 * q)
  }

  /** Rounding a real that is exactly `p / q` gives `NearestRatio(p, q)`. */
  lemma RoundRatio(x: real, p: int, q: int)
    requires q > 0 && x * q as real == p as real
    ensures Round(x) == NearestRatio(p, q)
  {
    var n := NearestRatio(p, q);
    var rem := (2 * p + q) % (2 * q);
    assert 2 * p + q == n * (2 * q) + rem && 0 <= rem < 2 * q;
    assert (2 * p + q) as real == (n as real) * (2 * q) as real + rem as real;
    var y := x + 0.5;
    assert y * (2 * q) as real == (2 * p + q) as real;
    assert n as real <= y < n as real + 1.0 by {
      FloorBetween(y, n, rem, 2 * q);
    }
  }

  lemma FloorBetween(y: real, n: int, rem: int, q2: int)
    requires q2 > 0 && 0 <= rem < q2
    requires y * q2 as real == (n as real) * q2 as real + rem as real
    ensures n as real <= y < n as real + 1.0
  {
    var e := y - n as real;
    assert e * q2 as real == rem as real;
  }

  // ---------------------------------------------------------------------
  // Integer closed forms

  function MaxC(r: Channel, g: Channel, b: Channel): (x: Channel)
    ensures x == r || x == g || x == b
    ensures r <= x && g <= x && b <= x
  {
    if r >= g && r >= b then r else if g >= b then g else b
  }

  function MinC(r: Channel, g: Channel, b: Channel): (x: Channel)
    ensures x == r || x == g || x == b
    ensures x <= r && x <= g && x <= b
  {
    if r <= g && r <= b then r else if g <= b then g else b
  }

  /** Dividing by 255 keeps the order of channels, so the largest and the
      smallest fraction are those of the largest and the smallest channel. */
  lemma UnitOrder(r: Channel, g: Channel, b: Channel)
    ensures Max3(Unit(r), Unit(g), Unit(b)) == Unit(MaxC(r, g, b))
    ensures Min3(Unit(r), Unit(g), Unit(b)) == Unit(MinC(r, g, b))
    ensures Max3(Unit(r), Unit(g), Unit(b)) == Unit(r) <==> r == MaxC(r, g, b)
    ensures Max3(Unit(r), Unit(g), Unit(b)) == Unit(g) <==> g == MaxC(r, g, b)
    ensures Max3(Unit(r), Unit(g), Unit(b)) == Min3(Unit(r), Unit(g), Unit(b)) <==> MaxC(r, g, b) == MinC(r, g, b)
  {
  }

  /** The hue in degrees from the channels alone: the branch of the largest
      channel (red first) gives a signed difference `a` of the other two and a
      sector offset `c`; the hue is `60 * (a / d + c)` rounded, for the
      spread `d = max - min`. */
  function HueDegrees(r: Channel, g: Channel, b: Channel): int
    requires MaxC(r, g, b) != MinC(r, g, b)
  {
    var max: int, d: int := MaxC(r, g, b), MaxC(r, g, b) - MinC(r, g, b);
    var a, c :=
      if max == r then g - b else if max == g then b - r else r - g,
      if max == r then (if g < b then 6 else 0) else if max == g then 2 else 4;
    NearestRatio(60 * a + 60 * c * d, d)
  }

  /** A quotient of two channel fractions, times the divisor's channel value. */
  lemma UnitQuotient(a: int, d: int)
    requires d > 0
    ensures ((a as real / 255.0) / (d as real / 255.0)) * d as real == a as real
  {
    var q := (a as real / 255.0) / (d as real / 255.0);
    assert q * (d as real / 255.0) == a as real / 255.0;
  }

  /** A percentage of two channel fractions, rounded. */
  lemma PercentRound(a: int, d: int)
    requires d > 0
    ensures Round((a as real / 255.0) / (d as real / 255.0) * 100.0) == NearestRatio(100 * a, d)
  {
    UnitQuotient(a, d);
    var x := (a as real / 255.0) / (d as real / 255.0) * 100.0;
    assert x * d as real == (100 * a) as real;
    RoundRatio(x, 100 * a, d);
  }

  /** A hue sector value turned into rounded degrees. */
  lemma HueRound(a: int, d: int, c: int)
    requires d > 0
    ensures Round(((a as real / 255.0) / (d as real / 255.0) + c as real) / 6.0 * 360.0) ==
      NearestRatio(60 * a + 60 * c * d, d)
  {
    var q := (a as real / 255.0) / (d as real / 255.0);
    UnitQuotient(a, d);
    var x := (q + c as real) / 6.0 * 360.0;
    assert x == 60.0 * q + 60.0 * c as real;
    assert x * d as real == (60 * a + 60 * c * d) as real;
    RoundRatio(x, 60 * a + 60 * c * d, d);
  }

  lemma SextantDegrees(r: Channel, g: Channel, b: Channel)
    requires MaxC(r, g, b) != MinC(r, g, b)
    ensures Max3(Unit(r), Unit(g), Unit(b)) != Min3(Unit(r), Unit(g), Unit(b))
    ensures Round(Sextant(Unit(r), Unit(g), Unit(b)) / 6.0 * 360.0) == HueDegrees(r, g, b)
  {
    UnitOrder(r, g, b);
    if MaxC(r, g, b) == r {
      RedHue(r, g, b);
    } else if MaxC(r, g, b) == g {
      GreenHue(r, g, b);
    } else {
      BlueHue(r, g, b);
    }
  }

  lemma RedHue(r: Channel, g: Channel, b: Channel)
    requires MaxC(r, g, b) != MinC(r, g, b) && MaxC(r, g, b) == r
    ensures Max3(Unit(r), Unit(g), Unit(b)) != Min3(Unit(r), Unit(g), Unit(b))
    ensures Round(Sextant(Unit(r), Unit(g), Unit(b)) / 6.0 * 360.0) == HueDegrees(r, g, b)
  {
    UnitOrder(r, g, b);
    var d: int := r - MinC(r, g, b);
    var rr, gg, bb := Unit(r), Unit(g), Unit(b);
    assert Max3(rr, gg, bb) - Min3(rr, gg, bb) == d as real / 255.0;
    var c := if g < b then 6 else 0;
    assert Sextant(rr, gg, bb) == ((g - b) as real / 255.0) / (d as real / 255.0) + c as real;
    HueRound(g - b, d, c);
  }

  lemma GreenHue(r: Channel, g: Channel, b: Channel)
    requires MaxC(r, g, b) != MinC(r, g, b) && MaxC(r, g, b) == g != r
    ensures Max3(Unit(r), Unit(g), Unit(b)) != Min3(Unit(r), Unit(g), Unit(b))
    ensures Round(Sextant(Unit(r), Unit(g), Unit(b)) / 6.0 * 360.0) == HueDegrees(r, g, b)
  {
    UnitOrder(r, g, b);
    var d: int := g - MinC(r, g, b);
    var rr, gg, bb := Unit(r), Unit(g), Unit(b);
    assert Max3(rr, gg, bb) - Min3(rr, gg, bb) == d as real / 255.0;
    assert Sextant(rr, gg, bb) == ((b - r) as real / 255.0) / (d as real / 255.0) + 2 as real;
    HueRound(b - r, d, 2);
  }

  lemma BlueHue(r: Channel, g: Channel, b: Channel)
    requires MaxC(r, g, b) != MinC(r, g, b) && MaxC(r, g, b) == b != r && b != g
    ensures Max3(Unit(r), Unit(g), Unit(b)) != Min3(Unit(r), Unit(g), Unit(b))
    ensures Round(Sextant(Unit(r), Unit(g), Unit(b)) / 6.0 * 360.0) == HueDegrees(r, g, b)
  {
    UnitOrder(r, g, b);
    var d: int := b - MinC(r, g, b);
    var rr, gg, bb := Unit(r), Unit(g), Unit(b);
    assert Max3(rr, gg, bb) - Min3(rr, gg, bb) == d as real / 255.0;
    assert Sextant(rr, gg, bb) == ((r - g) as real / 255.0) / (d as real / 255.0) + 4 as real;
    HueRound(r - g, d, 4);
  }

  /** `rgbToCmyk` in integers: black is `k = 100`; otherwise each ink is
      `100 * (max - channel) / max` and `k` is `100 * (255 - max) / 255`,
      each rounded to the nearest integer. */
  lemma CmykExact(r: Channel, g: Channel, b: Channel)
    ensures var max := MaxC(r, g, b);
      RgbToCmyk(r, g, b) ==
        if max == 0 then Cmyk(0, 0, 0, 100)
        else Cmyk(NearestRatio(100 * (max - r), max), NearestRatio(100 * (max - g), max),
                  NearestRatio(100 * (max - b), max), NearestRatio(100 * (255 - max), 255))
  {
    UnitOrder(r, g, b);
    var max: int := MaxC(r, g, b);
    if max != 0 {
      var k := 1.0 - Unit(max);
      InkExact(r, max);
      InkExact(g, max);
      InkExact(b, max);
      RoundRatio(k * 100.0, 100 * (255 - max), 255);
    }
  }

  lemma InkExact(x: Channel, max: Channel)
    requires 0 < max && x <= max
    ensures var k := 1.0 - Unit(max);
      Round((1.0 - Unit(x) - k) / (1.0 - k) * 100.0) == NearestRatio(100 * (max - x), max)
  {
    var k := 1.0 - Unit(max);
    assert 1.0 - Unit(x) - k == (max - x) as real / 255.0;
    assert 1.0 - k == max as real / 255.0;
    PercentRound(max - x, max);
  }

  /** `rgbToHsv` in integers: `v` is `100 * max / 255`, `s` is
      `100 * (max - min) / max` (0 for black), and a grey has hue 0. */
  lemma HsvExact(r: Channel, g: Channel, b: Channel)
    ensures var max, min := MaxC(r, g, b), MinC(r, g, b);
      RgbToHsv(r, g, b) == Hsv(
        if max == min then 0 else HueDegrees(r, g, b),
        if max == 0 then 0 else NearestRatio(100 * (max - min), max),
        NearestRatio(100 * max, 255))
  {
    UnitOrder(r, g, b);
    var max: int, min: int := MaxC(r, g, b), MinC(r, g, b);
    RoundRatio(Unit(max) * 100.0, 100 * max, 255);
    if max != 0 {
      assert Unit(max) - Unit(min) == (max - min) as real / 255.0;
      PercentRound(max - min, max);
    }
    if max != min {
      SextantDegrees(r, g, b);
    }
  }

  /** `rgbToHsl` in integers: `l` is `100 * (max + min) / 510`; `s` divides
      `100 * (max - min)` by `510 - max - min` above half lightness and by
      `max + min` otherwise; a grey has hue and saturation 0. */
  lemma HslExact(r: Channel, g: Channel, b: Channel)
    ensures var max, min := MaxC(r, g, b), MinC(r, g, b);
      RgbToHsl(r, g, b) == Hsl(
        if max == min then 0 else HueDegrees(r, g, b),
        if max == min then 0
        else if max + min > 255 then NearestRatio(100 * (max - min), 510 - max - min)
        else NearestRatio(100 * (max - min), max + min),
        NearestRatio(100 * (max + min), 510))
  {
    HslLightness(r, g, b);
    HslSaturation(r, g, b);
    HslHue(r, g, b);
  }

  lemma HslLightness(r: Channel, g: Channel, b: Channel)
    ensures RgbToHsl(r, g, b).l == NearestRatio(100 * (MaxC(r, g, b) + MinC(r, g, b)), 510)
  {
    UnitOrder(r, g, b);
    var max: int, min: int := MaxC(r, g, b), MinC(r, g, b);
    var l := (Unit(max) + Unit(min)) / 2.0;
    RoundRatio(l * 100.0, 100 * (max + min), 510);
  }

  lemma HslSaturation(r: Channel, g: Channel, b: Channel)
    ensures var max, min := MaxC(r, g, b), MinC(r, g, b);
      RgbToHsl(r, g, b).s ==
        if max == min then 0
        else if max + min > 255 then NearestRatio(100 * (max - min), 510 - max - min)
        else NearestRatio(100 * (max - min), max + min)
  {
    UnitOrder(r, g, b);
    var max: int, min: int := MaxC(r, g, b), MinC(r, g, b);
    if max != min {
      var d := Unit(max) - Unit(min);
      assert d == (max - min) as real / 255.0;
      if max + min > 255 {
        assert 2.0 - Unit(max) - Unit(min) == (510 - max - min) as real / 255.0;
        PercentRound(max - min, 510 - max - min);
      } else {
        assert Unit(max) + Unit(min) == (max + min) as real / 255.0;
        PercentRound(max - min, max + min);
      }
    }
  }

  lemma HslHue(r: Channel, g: Channel, b: Channel)
    ensures RgbToHsl(r, g, b).h == if MaxC(r, g, b) == MinC(r, g, b) then 0 else HueDegrees(r, g, b)
  {
    UnitOrder(r, g, b);
    if MaxC(r, g, b) != MinC(r, g, b) {
      SextantDegrees(r, g, b);
    }
  }

  // ---------------------------------------------------------------------
  // Properties

  lemma NearestRatioOfZero(q: int)
    requires q > 0
    ensures NearestRatio(0, q) == 0
  {
  }

  /** The ink of the largest channel is 0: a full-strength channel needs no
      ink of its own colour. */
  lemma LargestChannelNoInk(r: Channel, g: Channel, b: Channel)
    ensures r == MaxC(r, g, b) ==> RgbToCmyk(r, g, b).c == 0
    ensures g == MaxC(r, g, b) ==> RgbToCmyk(r, g, b).m == 0
    ensures b == MaxC(r, g, b) ==> RgbToCmyk(r, g, b).y == 0
  {
    CmykExact(r, g, b);
    if MaxC(r, g, b) > 0 {
      NearestRatioOfZero(MaxC(r, g, b));
    }
  }

  /** Rounding hides the extreme channel values: `k` is 100 exactly when the
      largest channel is at most 1, and 0 exactly when it is at least 254. */
  lemma KeyFromLargestChannel(r: Channel, g: Channel, b: Channel)
    ensures RgbToCmyk(r, g, b).k == 100 <==> MaxC(r, g, b) <= 1
    ensures RgbToCmyk(r, g, b).k == 0 <==> MaxC(r, g, b) >= 254
  {
    CmykExact(r, g, b);
  }

  /** `k` of `rgbToCmyk` and `v` of `rgbToHsv` always add up to 100: both
      round the same fraction `max / 255` from opposite ends, and
      `100 * max / 255` is never exactly halfway between two integers. */
  lemma KeyPlusValue(r: Channel, g: Channel, b: Channel)
    ensures RgbToCmyk(r, g, b).k + RgbToHsv(r, g, b).v == 100
  {
    CmykExact(r, g, b);
    HsvExact(r, g, b);
    var max: int := MaxC(r, g, b);
    assert NearestRatio(100 * max, 255) == (200 * max + 255) / 510;
    assert NearestRatio(100 * (255 - max), 255) == (51255 - 200 * max) / 510;
    OppositeRounding(max);
  }

  lemma OppositeRounding(max: int)
    requires 0 <= max <= 255
    ensures (200 * max + 255) / 510 + (51255 - 200 * max) / 510 == 100
  {
    var a := 200 * max + 255;
    var q, rem := a / 510, a % 510;
    assert a == 510 * q + rem;
    assert rem != 0;
    assert 51255 - 200 * max == 510 * (100 - q) + (510 - rem);
  }

  /** A grey (all channels equal) has hue 0 and saturation 0 in both HSV and
      HSL, and needs only black ink. */
  lemma Grey(n: Channel)
    ensures RgbToHsv(n, n, n).h == 0 && RgbToHsv(n, n, n).s == 0
    ensures RgbToHsl(n, n, n).h == 0 && RgbToHsl(n, n, n).s == 0
    ensures RgbToCmyk(n, n, n).c == 0 && RgbToCmyk(n, n, n).m == 0 && RgbToCmyk(n, n, n).y == 0
  {
    HsvExact(n, n, n);
    HslExact(n, n, n);
    CmykExact(n, n, n);
    if n > 0 {
      NearestRatioOfZero(n);
    }
  }

  /** HSV and HSL report the same hue. */
  lemma SharedHue(r: Channel, g: Channel, b: Channel)
    ensures RgbToHsv(r, g, b).h == RgbToHsl(r, g, b).h
  {
    HsvExact(r, g, b);
    HslExact(r, g, b);
  }

  /** The order of the cases in the hue switch does not matter: whichever
      channel attains the maximum, its formula gives the same value. */
  lemma TiesAgree(r: real, g: real, b: real)
    requires Max3(r, g, b) != Min3(r, g, b)
    ensures Max3(r, g, b) == r ==> Sextant(r, g, b) == RedSextant(r, g, b)
    ensures Max3(r, g, b) == g ==> Sextant(r, g, b) == GreenSextant(r, g, b)
    ensures Max3(r, g, b) == b ==> Sextant(r, g, b) == BlueSextant(r, g, b)
  {
    var max, min := Max3(r, g, b), Min3(r, g, b);
    var d := max - min;
    UnitRatios(d);
    if max == r && max == g {
      assert b == min && g - b == d && b - r == -d;
    } else if max == r && max == b {
      assert g == min && g - b == -d && r - g == d;
    } else if max == g && max == b {
      assert r == min && b - r == d && r - g == -d;
    }
  }

  lemma UnitRatios(d: real)
    requires d != 0.0
    ensures d / d == 1.0 && (-d) / d == -1.0
  {
  }

  /** Rounding can give a hue of 360 although the unrounded hue is below 360:
      `rgb(255, 0, 1)` has hue 360 in both HSV and HSL. */
  lemma HueCanBe360()
    ensures RgbToHsv(255, 0, 1).h == 360
    ensures RgbToHsl(255, 0, 1).h == 360
  {
    HsvExact(255, 0, 1);
    HslExact(255, 0, 1);
  }

  /** Worked values: pure red, pure green and black. */
  lemma Examples()
    ensures RgbToHsv(255, 0, 0) == Hsv(0, 100, 100)
    ensures RgbToHsl(0, 255, 0) == Hsl(120, 100, 50)
    ensures RgbToCmyk(0, 0, 0) == Cmyk(0, 0, 0, 100)
    ensures RgbToCmyk(255, 0, 0) == Cmyk(0, 100, 100, 0)
  {
    HsvExact(255, 0, 0);
    HslExact(0, 255, 0);
    CmykExact(255, 0, 0);
  }
}
