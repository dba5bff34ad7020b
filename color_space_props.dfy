/** Properties of the RGB/HSV conversions. */
module ColorSpaceProps {
  import opened Failures
  import opened ColorSpace

  function MaxOf(c: Rgb): int {
    if c.r >= c.g && c.r >= c.b then c.r else if c.g >= c.b then c.g else c.b
  }

  function MinOf(c: Rgb): int {
    if c.r <= c.g && c.r <= c.b then c.r else if c.g <= c.b then c.g else c.b
  }

  /** Truncating an exact ratio of naturals is integer division. */
  lemma TruncRatio(n: int, d: int)
    requires 0 <= n && 0 < d
    ensures Trunc(n as real / d as real) == n / d
  {
    var q, m := n / d, n % d;
    assert n == q * d + m && 0 <= m < d;
    assert n as real / d as real == q as real + m as real / d as real;
    assert 0.0 <= m as real / d as real < 1.0;
  }

  /** Truncation is monotone on non-negative reals. */
  lemma TruncMonotone(x: real, y: real)
    requires 0.0 <= x <= y
    ensures Trunc(x) <= Trunc(y)
  {
  }

  /** The scaled extremes are the integer extremes over 255. */
  lemma ScaledExtremes(c: Rgb)
    requires c.Valid()
    ensures ScaledMax(c) == MaxOf(c) as real / 255.0
    ensures ScaledMin(c) == MinOf(c) as real / 255.0
  {
  }

  lemma DivSelf(d: real)
    requires d > 0.0
    ensures d / d == 1.0 && (-d) / d == -1.0
  {
  }

  /** Value is floor(max(R, G, B) * 100 / 255). */
  lemma {:induction false} ToHsvValue(c: Rgb)
    requires c.Valid()
    ensures ToHsv(c).value == 100 * MaxOf(c) / 255
  {
    ScaledExtremes(c);
    var m := MaxOf(c);
    assert (m as real / 255.0) * 100.0 == (100 * m) as real / 255 as real;
    TruncRatio(100 * m, 255);
  }

  /** The ratio of scaled channels is the ratio of the channels. */
  lemma ScaledRatio(mx: int, mn: int)
    requires 0 <= mn < mx <= 255
    ensures ((mx as real / 255.0 - mn as real / 255.0) / (mx as real / 255.0)) * 100.0
            == (100 * (mx - mn)) as real / mx as real
  {
  }

  /** Achromatic exactly when the largest and smallest channels agree. */
  lemma AchromaticIff(c: Rgb)
    requires c.Valid()
    ensures Achromatic(c) <==> MaxOf(c) == MinOf(c)
  {
    ScaledExtremes(c);
  }

  /**
   * Saturation is floor((max - min) * 100 / max), and 0 when all channels are
   * equal (black included).
   */
  lemma {:induction false} ToHsvSaturation(c: Rgb)
    requires c.Valid()
    ensures MaxOf(c) == MinOf(c) ==> ToHsv(c).saturation == 0
    ensures MaxOf(c) != MinOf(c) ==> ToHsv(c).saturation == 100 * (MaxOf(c) - MinOf(c)) / MaxOf(c)
  {
    ScaledExtremes(c);
    AchromaticIff(c);
    var mx, mn := MaxOf(c), MinOf(c);
    if mx != mn {
      ScaledRatio(mx, mn);
      assert SaturationFraction(c) * 100.0 == (100 * (mx - mn)) as real / mx as real;
      TruncRatio(100 * (mx - mn), mx);
    }
  }

  /** A gray (all channels equal, black included) has hue 0 and saturation 0. */
  lemma {:induction false} ToHsvGray(x: int)
    requires 0 <= x <= 255
    ensures ToHsv(Rgb(x, x, x)) == Hsv(0, 0, 100 * x / 255)
  {
    ToHsvValue(Rgb(x, x, x));
    ToHsvSaturation(Rgb(x, x, x));
  }

  /** The hue formula of channel k (0 red, 1 green, 2 blue) when that channel is the maximum. */
  function ChannelHue(k: nat, r: real, g: real, b: real, delta: real): real
    requires k < 3 && 0.0 < delta
  {
    if k == 0 then (g - b) / delta
    else if k == 1 then 2.0 + (b - r) / delta
    else 4.0 + (r - g) / delta
  }

  /**
   * The red-over-green-over-blue tie-break never changes the hue: any channel that
   * attains the maximum gives, through its own formula, the same angle in degrees.
   */
  lemma {:induction false} TieBreakImmaterial(k: nat, r: real, g: real, b: real, max: real, delta: real)
    requires 0.0 < delta
    requires max - delta <= r <= max && max - delta <= g <= max && max - delta <= b <= max
    requires r == max - delta || g == max - delta || b == max - delta
    requires k < 3 && (if k == 0 then r else if k == 1 then g else b) == max
    ensures -1.0 <= ChannelHue(k, r, g, b, delta) <= 5.0
    ensures Degrees(ChannelHue(k, r, g, b, delta)) == Degrees(HueSixths(r, g, b, max, delta))
  {
    SixthsBound(g - b, delta);
    SixthsBound(b - r, delta);
    SixthsBound(r - g, delta);
    DivSelf(delta);
    if r == max && g == max {
      assert b == max - delta;
      assert (g - b) / delta == 1.0;
      assert (b - r) / delta == -1.0;
    }
    if r == max && b == max {
      assert g == max - delta;
      assert (g - b) / delta == -1.0;
      assert (r - g) / delta == 1.0;
    }
    if g == max && b == max {
      assert r == max - delta;
      assert (b - r) / delta == 1.0;
      assert (r - g) / delta == -1.0;
    }
  }

  /** Saturation 0 gives a gray whose channels are floor(Value * 255 / 100). */
  lemma {:induction false} ToRgbGray(hue: int, value: int)
    requires 0 <= hue <= 360 && 0 <= value <= 100
    ensures ToRgb(Hsv(hue, 0, value)) == Rgb(255 * value / 100, 255 * value / 100, 255 * value / 100)
  {
    assert (value as real / 100.0) * 255.0 == (255 * value) as real / 100 as real;
    TruncRatio(255 * value, 100);
  }

  /** HSV (0, 0, 100) is white. */
  lemma WhiteFromHsv()
    ensures ToRgb(Hsv(0, 0, 100)) == Rgb(255, 255, 255)
  {
    ToRgbGray(0, 100);
  }

  /** Hue 360 is reduced mod 360 first, so it converts exactly like hue 0. */
  lemma ToRgbHue360(saturation: int, value: int)
    requires 0 <= saturation <= 100 && 0 <= value <= 100
    ensures ToRgb(Hsv(360, saturation, value)) == ToRgb(Hsv(0, saturation, value))
  {
  }

  /** The largest output channel is floor(Value * 255 / 100): one channel is always v. */
  lemma {:induction false} ToRgbMaxChannel(c: Hsv)
    requires c.Valid()
    ensures MaxOf(ToRgb(c)) == 255 * c.value / 100
  {
    var v := c.value as real / 100.0;
    assert v * 255.0 == (255 * c.value) as real / 100 as real;
    TruncRatio(255 * c.value, 100);
    var s := c.saturation as real / 100.0;
    if s != 0.0 {
      var ch := SectorChannels((c.hue % 360) as real, s, v);
      TruncMonotone(ch.0 * 255.0, v * 255.0);
      TruncMonotone(ch.1 * 255.0, v * 255.0);
      TruncMonotone(ch.2 * 255.0, v * 255.0);
    }
  }

  /** Channels are truncated, not rounded: HSV (120, 50, 50) is RGB (63, 127, 63). */
  lemma ToRgbTruncates()
    ensures ToRgb(Hsv(120, 50, 50)) == Rgb(63, 127, 63)
  {
  }

  /** Black and white have hue and saturation 0, and value 0 and 100. */
  lemma GraysToHsv()
    ensures ToHsv(Rgb(0, 0, 0)) == Hsv(0, 0, 0)
    ensures ToHsv(Rgb(255, 255, 255)) == Hsv(0, 0, 100)
  {
  }

  /** Red, green and blue sit at hues 0, 120 and 240, fully saturated. */
  lemma PrimariesToHsv()
    ensures ToHsv(Rgb(255, 0, 0)) == Hsv(0, 100, 100)
    ensures ToHsv(Rgb(0, 255, 0)) == Hsv(120, 100, 100)
    ensures ToHsv(Rgb(0, 0, 255)) == Hsv(240, 100, 100)
  {
  }

  /** Yellow, cyan and magenta sit at hues 60, 180 and 300, fully saturated. */
  lemma SecondariesToHsv()
    ensures ToHsv(Rgb(255, 255, 0)) == Hsv(60, 100, 100)
    ensures ToHsv(Rgb(0, 255, 255)) == Hsv(180, 100, 100)
    ensures ToHsv(Rgb(255, 0, 255)) == Hsv(300, 100, 100)
  {
  }

  /** The RGB images of the eight canonical HSV colours. */
  lemma CanonicalToRgb()
    ensures ToRgb(Hsv(0, 0, 0)) == Rgb(0, 0, 0)
    ensures ToRgb(Hsv(0, 0, 100)) == Rgb(255, 255, 255)
    ensures ToRgb(Hsv(0, 100, 100)) == Rgb(255, 0, 0)
    ensures ToRgb(Hsv(120, 100, 100)) == Rgb(0, 255, 0)
    ensures ToRgb(Hsv(240, 100, 100)) == Rgb(0, 0, 255)
    ensures ToRgb(Hsv(60, 100, 100)) == Rgb(255, 255, 0)
    ensures ToRgb(Hsv(180, 100, 100)) == Rgb(0, 255, 255)
    ensures ToRgb(Hsv(300, 100, 100)) == Rgb(255, 0, 255)
  {
    ToRgbGray(0, 0);
    ToRgbGray(0, 100);
    FullHueAtSectorStart(0);
    FullHueAtSectorStart(1);
    FullHueAtSectorStart(2);
    FullHueAtSectorStart(3);
    FullHueAtSectorStart(4);
    FullHueAtSectorStart(5);
  }

  /** At a sector boundary with full saturation and value, p = t = 0 and q = 1. */
  lemma FullHueAtSectorStart(k: int)
    requires 0 <= k <= 5
    ensures Sector((60 * k) as real) == k
    ensures SectorChannels((60 * k) as real, 1.0, 1.0)
            == [(1.0, 0.0, 0.0), (1.0, 1.0, 0.0), (0.0, 1.0, 0.0),
                (0.0, 1.0, 1.0), (0.0, 0.0, 1.0), (1.0, 0.0, 1.0)][k]
  {
    assert (60 * k) as real / 60.0 == k as real;
    assert Intermediates(1.0, 1.0, 0.0) == (0.0, 1.0, 0.0);
  }

  /** Black, white, the primaries and the secondaries survive RGB -> HSV -> RGB unchanged. */
  lemma CanonicalRoundTrips()
    ensures ToRgb(ToHsv(Rgb(0, 0, 0))) == Rgb(0, 0, 0)
    ensures ToRgb(ToHsv(Rgb(255, 255, 255))) == Rgb(255, 255, 255)
    ensures ToRgb(ToHsv(Rgb(255, 0, 0))) == Rgb(255, 0, 0)
    ensures ToRgb(ToHsv(Rgb(0, 255, 0))) == Rgb(0, 255, 0)
    ensures ToRgb(ToHsv(Rgb(0, 0, 255))) == Rgb(0, 0, 255)
    ensures ToRgb(ToHsv(Rgb(255, 255, 0))) == Rgb(255, 255, 0)
    ensures ToRgb(ToHsv(Rgb(0, 255, 255))) == Rgb(0, 255, 255)
    ensures ToRgb(ToHsv(Rgb(255, 0, 255))) == Rgb(255, 0, 255)
  {
    GraysToHsv();
    PrimariesToHsv();
    SecondariesToHsv();
    CanonicalToRgb();
  }

  /**
   * The round trip never raises the largest channel and lowers it by at most 3:
   * both directions truncate to a coarser grid.
   */
  lemma {:induction false} RoundTripMaxChannel(c: Rgb)
    requires c.Valid()
    ensures MaxOf(ToRgb(ToHsv(c))) == 255 * (100 * MaxOf(c) / 255) / 100
    ensures MaxOf(c) - 3 <= MaxOf(ToRgb(ToHsv(c))) <= MaxOf(c)
  {
    ToHsvValue(c);
    ToRgbMaxChannel(ToHsv(c));
    var m := MaxOf(c);
    var v := 100 * m / 255;
    assert 255 * v <= 100 * m < 255 * v + 255;
    assert 100 * (m - 3) < 255 * v;
  }

  /** The loss is real: RGB (5, 5, 5) comes back as (2, 2, 2). */
  lemma RoundTripLoss()
    ensures ToHsv(Rgb(5, 5, 5)) == Hsv(0, 0, 1)
    ensures ToRgb(ToHsv(Rgb(5, 5, 5))) == Rgb(2, 2, 2)
  {
    ToHsvGray(5);
    ToRgbGray(0, 1);
  }
}
