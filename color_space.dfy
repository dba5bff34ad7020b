/**
 * The two colour representations and the hexcone conversions between them.
 * Channel ratios are exact rationals here (`real`); the C# `(int)` cast on a
 * double is `Trunc`, truncation toward zero.
 */
module ColorSpace {
  import opened Failures

  /** An RGB colour; each channel is a byte value. */
  datatype Rgb = Rgb(r: int, g: int, b: int) {
    predicate Valid() {
      0 <= r <= 255 && 0 <= g <= 255 && 0 <= b <= 255
    }
  }

  /** An HSV colour: hue in degrees, saturation and value in percent. */
  datatype Hsv = Hsv(hue: int, saturation: int, value: int) {
    predicate Valid() {
      0 <= hue <= 360 && 0 <= saturation <= 100 && 0 <= value <= 100
    }
  }

  /** The checked `ColorRgb` constructor: r, then g, then b is range-checked. */
  function NewRgb(r: int, g: int, b: int): (res: Result<Rgb>)
    ensures res.Ok? <==> Rgb(r, g, b).Valid()
    ensures res.Ok? ==> res.value == Rgb(r, g, b)
    ensures !(0 <= r <= 255) ==> res == Err(ArgumentOutOfRange("r"))
    ensures 0 <= r <= 255 && !(0 <= g <= 255) ==> res == Err(ArgumentOutOfRange("g"))
    ensures 0 <= r <= 255 && 0 <= g <= 255 && !(0 <= b <= 255) ==> res == Err(ArgumentOutOfRange("b"))
  {
    if r < 0 || r > 255 then Err(ArgumentOutOfRange("r"))
    else if g < 0 || g > 255 then Err(ArgumentOutOfRange("g"))
    else if b < 0 || b > 255 then Err(ArgumentOutOfRange("b"))
    else Ok(Rgb(r, g, b))
  }

  /** The checked `ColorHsv` constructor: hue, then saturation, then value. */
  function NewHsv(hue: int, saturation: int, value: int): (res: Result<Hsv>)
    ensures res.Ok? <==> Hsv(hue, saturation, value).Valid()
    ensures res.Ok? ==> res.value == Hsv(hue, saturation, value)
    ensures !(0 <= hue <= 360) ==> res == Err(ArgumentOutOfRange("hue"))
    ensures 0 <= hue <= 360 && !(0 <= saturation <= 100) ==> res == Err(ArgumentOutOfRange("saturation"))
    ensures 0 <= hue <= 360 && 0 <= saturation <= 100 && !(0 <= value <= 100)
            ==> res == Err(ArgumentOutOfRange("value"))
  {
    if hue < 0 || hue > 360 then Err(ArgumentOutOfRange("hue"))
    else if saturation < 0 || saturation > 100 then Err(ArgumentOutOfRange("saturation"))
    else if value < 0 || value > 100 then Err(ArgumentOutOfRange("value"))
    else Ok(Hsv(hue, saturation, value))
  }

  /** `ColorHsv ==`: field-by-field comparison. */
  function HsvEquals(lhs: Hsv, rhs: Hsv): (eq: bool)
    ensures eq <==> lhs == rhs
  {
    lhs.hue == rhs.hue && lhs.saturation == rhs.saturation && lhs.value == rhs.value
  }

  /** `ColorHsv !=`: the negation of `==`. */
  function HsvNotEquals(lhs: Hsv, rhs: Hsv): (ne: bool)
    ensures ne <==> lhs != rhs
  {
    HsvEquals(lhs, rhs) == false
  }

  /** The C# `(int)` conversion of a double: truncation toward zero. */
  function Trunc(x: real): (n: int)
    ensures x >= 0.0 ==> 0 <= n && n as real <= x < n as real + 1.0
    ensures x < 0.0 ==> n <= 0 && n as real - 1.0 < x <= n as real
  {
    if x >= 0.0 then x.Floor else -((-x).Floor)
  }

  function RealMin(x: real, y: real): real { if x < y then x else y }
  function RealMax(x: real, y: real): real { if x > y then x else y }

  /**
   * The hue in sixths of the circle for a chromatic colour. The channel holding
   * the maximum picks the formula; on ties red wins over green, green over blue.
   */
  function HueSixths(r: real, g: real, b: real, max: real, delta: real): (h: real)
    requires 0.0 < delta
    requires max - delta <= r <= max && max - delta <= g <= max && max - delta <= b <= max
    requires r == max || g == max || b == max
    ensures -1.0 <= h <= 5.0
  {
    if r == max then
      SixthsBound(g - b, delta);
      (g - b) / delta
    else if g == max then
      SixthsBound(b - r, delta);
      2.0 + (b - r) / delta
    else
      SixthsBound(r - g, delta);
      4.0 + (r - g) / delta
  }

  lemma SixthsBound(x: real, delta: real)
    requires 0.0 < delta && -delta <= x <= delta
    ensures -1.0 <= x / delta <= 1.0
  {
  }

  lemma FractionBound(x: real, d: real)
    requires 0.0 <= x <= d && 0.0 < d
    ensures 0.0 <= x / d <= 1.0
  {
  }

  /** Sixths scaled to degrees, with 360 added to a negative angle. */
  function Degrees(h: real): (d: real)
    requires -1.0 <= h <= 5.0
    ensures 0.0 <= d < 360.0
  {
    if h * 60.0 < 0.0 then h * 60.0 + 360.0 else h * 60.0
  }

  /** A channel scaled to [0, 1]. */
  function Unit(x: int): real { x as real / 255.0 }

  /** The largest and smallest scaled channel. */
  function ScaledMax(c: Rgb): real { RealMax(RealMax(Unit(c.r), Unit(c.g)), Unit(c.b)) }
  function ScaledMin(c: Rgb): real { RealMin(RealMin(Unit(c.r), Unit(c.g)), Unit(c.b)) }

  /** R, G and B are 0, or all the same: hue and saturation are then 0. */
  predicate Achromatic(c: Rgb) {
    ScaledMax(c) == 0.0 || ScaledMax(c) - ScaledMin(c) == 0.0
  }

  /** The saturation in [0, 1]: delta / max. */
  function SaturationFraction(c: Rgb): (s: real)
    requires c.Valid()
    ensures 0.0 <= s <= 1.0
  {
    var max := ScaledMax(c);
    var delta := max - ScaledMin(c);
    if Achromatic(c) then 0.0
    else
      assert 0.0 <= ScaledMin(c) <= max;
      FractionBound(delta, max);
      delta / max
  }

  /** The hue in degrees, in [0, 360), before truncation. */
  function HueDegrees(c: Rgb): (d: real)
    requires c.Valid()
    ensures 0.0 <= d < 360.0
  {
    var max := ScaledMax(c);
    var delta := max - ScaledMin(c);
    Degrees(if Achromatic(c) then 0.0 else HueSixths(Unit(c.r), Unit(c.g), Unit(c.b), max, delta))
  }

  /** `ColorRgb.ToHsv`. */
  function ToHsv(c: Rgb): (hsv: Hsv)
    requires c.Valid()
    ensures hsv.Valid() && hsv.hue < 360
  {
    var v := ScaledMax(c);
    NewHsv(Trunc(HueDegrees(c)), Trunc(SaturationFraction(c) * 100.0), Trunc(v * 100.0)).value
  }

  /** The sector of the hue circle, `floor(h / 60)`. */
  function Sector(h: real): (k: int)
    requires 0.0 <= h < 360.0
    ensures 0 <= k <= 5
    ensures k as real <= h / 60.0 < k as real + 1.0
  {
    (h / 60.0).Floor
  }

  /** The intermediate quantities p = v(1-s), q = v(1-sf), t = v(1-s(1-f)). */
  function Intermediates(s: real, v: real, f: real): (pqt: (real, real, real))
    requires 0.0 <= s <= 1.0 && 0.0 <= v <= 1.0 && 0.0 <= f <= 1.0
    ensures 0.0 <= pqt.0 <= v && 0.0 <= pqt.1 <= v && 0.0 <= pqt.2 <= v
  {
    FactorBounds(v, s, f);
    (v * (1.0 - s), v * (1.0 - s * f), v * (1.0 - s * (1.0 - f)))
  }

  /** The three channels, in [0, 1], of a chromatic colour, by sector. */
  function SectorChannels(h: real, s: real, v: real): (rgb: (real, real, real))
    requires 0.0 <= h < 360.0 && 0.0 < s <= 1.0 && 0.0 <= v <= 1.0
    ensures 0.0 <= rgb.0 <= v && 0.0 <= rgb.1 <= v && 0.0 <= rgb.2 <= v
    ensures rgb.0 == v || rgb.1 == v || rgb.2 == v
  {
    var sectorPos := h / 60.0;
    var sector := Sector(h);
    var fractionalSector := sectorPos - sector as real;
    var (p, q, t) := Intermediates(s, v, fractionalSector);
    if sector == 0 then (v, t, p)
    else if sector == 1 then (q, v, p)
    else if sector == 2 then (p, v, t)
    else if sector == 3 then (p, q, v)
    else if sector == 4 then (t, p, v)
    else (v, p, q)
  }

  lemma UnitScale(v: real, x: real)
    requires 0.0 <= v && 0.0 <= x <= 1.0
    ensures 0.0 <= v * x <= v
  {
  }

  /** p, q and t all lie between 0 and v. */
  lemma FactorBounds(v: real, s: real, f: real)
    requires 0.0 <= v && 0.0 <= s <= 1.0 && 0.0 <= f <= 1.0
    ensures 0.0 <= v * (1.0 - s) <= v
    ensures 0.0 <= v * (1.0 - s * f) <= v
    ensures 0.0 <= v * (1.0 - s * (1.0 - f)) <= v
  {
    UnitScale(v, 1.0 - s);
    UnitScale(s, f);
    UnitScale(v, 1.0 - s * f);
    UnitScale(s, 1.0 - f);
    UnitScale(v, 1.0 - s * (1.0 - f));
  }

  /** `ColorHsv.ToRgb`. */
  function ToRgb(c: Hsv): (rgb: Rgb)
    requires c.Valid()
    ensures rgb.Valid()
  {
    var h := (c.hue % 360) as real;
    var s := c.saturation as real / 100.0;
    var v := c.value as real / 100.0;
    var channels := if s == 0.0 then (v, v, v) else SectorChannels(h, s, v);
    NewRgb(Trunc(channels.0 * 255.0), Trunc(channels.1 * 255.0), Trunc(channels.2 * 255.0)).value
  }
}
