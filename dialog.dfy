/**
 * The `ColorDialog` controller: seven sliders (red, green, blue, alpha, hue,
 * saturation, value) and a colour wheel kept consistent by two change
 * handlers under a push/pop "ignore changed events" counter.
 */
module Dialog {
  import opened Failures
  import opened NumberHelpers
  import opened ColorSpace
  import opened ColorSpaceProps
  import opened Slider

  datatype SliderId = Red | Green | Blue | Alpha | Hue | Saturation | Value

  /** The mode each of the dialog's sliders is laid out with. */
  function ModeOf(id: SliderId): SliderMode {
    match id
    case Red => Channel
    case Green => Channel
    case Blue => Channel
    case Alpha => Channel
    case Hue => Degrees
    case Saturation => Total
    case Value => Total
  }

  predicate IsRgbSlider(id: SliderId) { id == Red || id == Green || id == Blue }
  predicate IsHsvSlider(id: SliderId) { id == Hue || id == Saturation || id == Value }

  /**
   * What the dialog reads and writes of one slider: its value, its end
   * colours, its custom gradient, and how many `ValueChanged` events it has raised.
   */
  datatype SliderView = SliderView(value: int, minColor: Rgb, maxColor: Rgb, custom: Option<seq<Rgb>>, raised: nat)

  /** The dialog's seven sliders, one field per slider of the form. */
  datatype Panel = Panel(redSlider: SliderView, greenSlider: SliderView, blueSlider: SliderView, alphaSlider: SliderView,
                         hueSlider: SliderView, saturationSlider: SliderView, valueSlider: SliderView)
  {
    /** The slider a name stands for. */
    function Get(id: SliderId): SliderView {
      match id
      case Red => redSlider
      case Green => greenSlider
      case Blue => blueSlider
      case Alpha => alphaSlider
      case Hue => hueSlider
      case Saturation => saturationSlider
      case Value => valueSlider
    }

    /** The panel with the named slider replaced, every other slider kept. */
    function Put(id: SliderId, view: SliderView): (p: Panel)
      ensures p.Get(id) == view
      ensures forall other :: other != id ==> p.Get(other) == Get(other)
    {
      match id
      case Red => this.(redSlider := view)
      case Green => this.(greenSlider := view)
      case Blue => this.(blueSlider := view)
      case Alpha => this.(alphaSlider := view)
      case Hue => this.(hueSlider := view)
      case Saturation => this.(saturationSlider := view)
      case Value => this.(valueSlider := view)
    }
  }

  /** A slider's `Value` setter: a different value is stored and raises `ValueChanged` once. */
  function Assigned(view: SliderView, v: int): (w: SliderView)
    ensures w.value == v
    ensures view.value == v <==> w == view
  {
    if view.value != v then view.(value := v, raised := view.raised + 1) else view
  }

  /** Assigning the value a slider already shows changes nothing. */
  lemma AssignedIdempotent(view: SliderView, v: int)
    ensures Assigned(Assigned(view, v), v) == Assigned(view, v)
    ensures Assigned(view, view.value) == view
  {
  }

  /** Every slider holds a value in its mode's range. */
  predicate ValidViews(p: Panel) {
    && 0 <= p.redSlider.value <= 255 && 0 <= p.greenSlider.value <= 255 && 0 <= p.blueSlider.value <= 255
    && 0 <= p.alphaSlider.value <= 255 && 0 <= p.hueSlider.value <= 360
    && 0 <= p.saturationSlider.value <= 100 && 0 <= p.valueSlider.value <= 100
  }

  /** Validity is exactly each slider within its mode's range. */
  lemma ValidViewsByMode(p: Panel)
    ensures ValidViews(p) <==> forall id :: 0 <= p.Get(id).value <= ModeMaximum(ModeOf(id))
  {
    if forall id :: 0 <= p.Get(id).value <= ModeMaximum(ModeOf(id)) {
      assert 0 <= p.Get(Red).value <= 255 && 0 <= p.Get(Green).value <= 255 && 0 <= p.Get(Blue).value <= 255;
      assert 0 <= p.Get(Alpha).value <= 255 && 0 <= p.Get(Hue).value <= 360;
      assert 0 <= p.Get(Saturation).value <= 100 && 0 <= p.Get(Value).value <= 100;
    }
  }

  /** The colour the red, green and blue sliders show. */
  function RgbOf(p: Panel): (c: Rgb)
    requires ValidViews(p)
    ensures c.Valid()
  {
    Rgb(p.redSlider.value, p.greenSlider.value, p.blueSlider.value)
  }

  /** The colour the hue, saturation and value sliders show. */
  function HsvOf(p: Panel): (c: Hsv)
    requires ValidViews(p)
    ensures c.Valid()
  {
    Hsv(p.hueSlider.value, p.saturationSlider.value, p.valueSlider.value)
  }

  /** The hue slider's custom gradient: entry k is fully saturated, full-value hue k. */
  function HueRamp(): (ramp: seq<Rgb>)
    ensures |ramp| == 361
  {
    seq(361, k requires 0 <= k < 361 => ToRgb(Hsv(k, 100, 100)))
  }

  /** The saturation slider's custom gradient at hue h and value v: entry k has saturation k. */
  function SaturationRamp(h: int, v: int): (ramp: seq<Rgb>)
    requires 0 <= h <= 360 && 0 <= v <= 100
    ensures |ramp| == 101
  {
    seq(101, k requires 0 <= k < 101 => ToRgb(Hsv(h, k, v)))
  }

  /** The hue ramp starts and ends at red, and every entry has a channel at 255. */
  lemma {:induction false} HueRampShape()
    ensures HueRamp()[0] == Rgb(255, 0, 0) && HueRamp()[360] == Rgb(255, 0, 0)
    ensures forall k :: 0 <= k < 361 ==> MaxOf(HueRamp()[k]) == 255
  {
    CanonicalToRgb();
    ToRgbHue360(100, 100);
    forall k | 0 <= k < 361 ensures MaxOf(HueRamp()[k]) == 255 {
      ToRgbMaxChannel(Hsv(k, 100, 100));
    }
  }

  /** The saturation ramp starts at the gray of value v, and every entry peaks at that gray level. */
  lemma {:induction false} SaturationRampShape(h: int, v: int)
    requires 0 <= h <= 360 && 0 <= v <= 100
    ensures var gray := 255 * v / 100; SaturationRamp(h, v)[0] == Rgb(gray, gray, gray)
    ensures forall k :: 0 <= k < 101 ==> MaxOf(SaturationRamp(h, v)[k]) == 255 * v / 100
  {
    ToRgbGray(h, v);
    forall k | 0 <= k < 101 ensures MaxOf(SaturationRamp(h, v)[k]) == 255 * v / 100 {
      ToRgbMaxChannel(Hsv(h, k, v));
    }
  }

  /** The red, green and blue sliders span their own channel from 0 to 255, the other two held at c's. */
  ghost predicate RgbDecoratedFor(m: Panel, c: Rgb)
    requires ValidViews(m)
  {
    && m.redSlider.minColor == Rgb(0, c.g, c.b) && m.redSlider.maxColor == Rgb(255, c.g, c.b)
    && m.greenSlider.minColor == Rgb(c.r, 0, c.b) && m.greenSlider.maxColor == Rgb(c.r, 255, c.b)
    && m.blueSlider.minColor == Rgb(c.r, c.g, 0) && m.blueSlider.maxColor == Rgb(c.r, c.g, 255)
  }

  /** The hue ramp, the saturation ramp at hsv's hue and value, and the value slider's ends at hsv's hue and saturation. */
  ghost predicate HsvDecoratedFor(m: Panel, hsv: Hsv)
    requires ValidViews(m) && hsv.Valid()
  {
    && m.hueSlider.custom == Some(HueRamp())
    && m.saturationSlider.custom == Some(SaturationRamp(hsv.hue, hsv.value))
    && m.valueSlider.minColor == ToRgb(Hsv(hsv.hue, hsv.saturation, 0))
    && m.valueSlider.maxColor == ToRgb(Hsv(hsv.hue, hsv.saturation, 100))
  }

  /** Every slider's decoration matches the colour the sliders show, the alpha slider topping out at the RGB colour. */
  ghost predicate Decorated(m: Panel)
    requires ValidViews(m)
  {
    RgbDecoratedFor(m, RgbOf(m)) && m.alphaSlider.maxColor == RgbOf(m) && HsvDecoratedFor(m, HsvOf(m))
  }

  /** `SetColorGradientMinMaxColorsRgb` on a slider map: only the RGB sliders' end colours change. */
  function WithRgbBounds(m: Panel, r: int, g: int, b: int): (m': Panel)
    requires ValidViews(m)
    ensures ValidViews(m') && RgbOf(m') == RgbOf(m) && HsvOf(m') == HsvOf(m)
    ensures m'.alphaSlider == m.alphaSlider && m'.hueSlider == m.hueSlider && m'.saturationSlider == m.saturationSlider && m'.valueSlider == m.valueSlider
    ensures RgbDecoratedFor(m', Rgb(r, g, b))
  {
    m.(redSlider := m.redSlider.(minColor := Rgb(0, g, b), maxColor := Rgb(255, g, b)))
     .(greenSlider := m.greenSlider.(minColor := Rgb(r, 0, b), maxColor := Rgb(r, 255, b)))
     .(blueSlider := m.blueSlider.(minColor := Rgb(r, g, 0), maxColor := Rgb(r, g, 255)))
  }

  /** `SetColorGradientMinMaxColorsAlpha` on a slider map: only the alpha slider's top colour changes, to the RGB colour. */
  function WithAlphaBound(m: Panel): (m': Panel)
    requires ValidViews(m)
    ensures ValidViews(m') && RgbOf(m') == RgbOf(m) && HsvOf(m') == HsvOf(m)
    ensures m'.(alphaSlider := m.alphaSlider) == m
    ensures m'.alphaSlider.maxColor == RgbOf(m) && m'.alphaSlider.value == m.alphaSlider.value
  {
    m.(alphaSlider := m.alphaSlider.(maxColor := RgbOf(m)))
  }

  /** `SetColorGradientMinMaxColorsHsv` on a slider map: only the HSV sliders' decorations change. */
  function WithHsvBounds(m: Panel, h: int, s: int, v: int): (m': Panel)
    requires ValidViews(m) && Hsv(h, s, v).Valid()
    ensures ValidViews(m') && RgbOf(m') == RgbOf(m) && HsvOf(m') == HsvOf(m)
    ensures m'.redSlider == m.redSlider && m'.greenSlider == m.greenSlider && m'.blueSlider == m.blueSlider && m'.alphaSlider == m.alphaSlider
    ensures HsvDecoratedFor(m', Hsv(h, s, v))
  {
    m.(hueSlider := m.hueSlider.(custom := Some(HueRamp())))
     .(saturationSlider := m.saturationSlider.(custom := Some(SaturationRamp(h, v))))
     .(valueSlider := m.valueSlider.(minColor := ToRgb(Hsv(h, s, 0)), maxColor := ToRgb(Hsv(h, s, 100))))
  }

  /** `SetColorGradientValuesRgb` on a slider map: the RGB sliders show (r, g, b); nothing but their values and counts changes. */
  function WithRgbValues(m: Panel, r: int, g: int, b: int): (m': Panel)
    requires ValidViews(m) && Rgb(r, g, b).Valid()
    ensures ValidViews(m') && RgbOf(m') == Rgb(r, g, b) && HsvOf(m') == HsvOf(m)
    ensures m'.alphaSlider == m.alphaSlider && m'.hueSlider == m.hueSlider && m'.saturationSlider == m.saturationSlider && m'.valueSlider == m.valueSlider
    ensures RgbDecoratedFor(m, RgbOf(m)) ==> RgbDecoratedFor(m', RgbOf(m))
    ensures RgbOf(m) == Rgb(r, g, b) ==> m' == m
  {
    AssignedIdempotent(m.redSlider, r);
    AssignedIdempotent(m.greenSlider, g);
    AssignedIdempotent(m.blueSlider, b);
    m.(redSlider := Assigned(m.redSlider, r)).(greenSlider := Assigned(m.greenSlider, g)).(blueSlider := Assigned(m.blueSlider, b))
  }

  /** `SetColorGradientValuesHsv` on a slider map: the HSV sliders show (h, s, v); nothing but their values and counts changes. */
  function WithHsvValues(m: Panel, h: int, s: int, v: int): (m': Panel)
    requires ValidViews(m) && Hsv(h, s, v).Valid()
    ensures ValidViews(m') && HsvOf(m') == Hsv(h, s, v) && RgbOf(m') == RgbOf(m)
    ensures m'.redSlider == m.redSlider && m'.greenSlider == m.greenSlider && m'.blueSlider == m.blueSlider && m'.alphaSlider == m.alphaSlider
    ensures HsvOf(m) == Hsv(h, s, v) ==> m' == m
  {
    AssignedIdempotent(m.hueSlider, h);
    AssignedIdempotent(m.saturationSlider, s);
    AssignedIdempotent(m.valueSlider, v);
    m.(hueSlider := Assigned(m.hueSlider, h)).(saturationSlider := Assigned(m.saturationSlider, s)).(valueSlider := Assigned(m.valueSlider, v))
  }

  /**
   * The steps of an RGB-led update (RGB decorations, alpha decoration, then
   * the HSV sliders and their decorations set from the RGB colour's HSV form)
   * leave every decoration matching and the HSV sliders at that HSV form.
   */
  lemma {:induction false} RgbLeadDecorates(m: Panel)
    requires ValidViews(m)
    ensures var c := RgbOf(m);
            var hsv := ToHsv(c);
            var m1 := WithAlphaBound(WithRgbBounds(m, c.r, c.g, c.b));
            var m2 := WithHsvBounds(WithHsvValues(m1, hsv.hue, hsv.saturation, hsv.value), hsv.hue, hsv.saturation, hsv.value);
            Decorated(m2) && RgbOf(m2) == c && HsvOf(m2) == hsv && m2.alphaSlider.value == m.alphaSlider.value
  {
  }

  /**
   * The steps of an HSV-led update once the HSV sliders show hsv (HSV
   * decorations, RGB values, RGB decorations, alpha decoration) leave the RGB
   * sliders at hsv's RGB form and every decoration matching.
   */
  lemma {:induction false} HsvLeadDecorates(m: Panel, hsv: Hsv)
    requires ValidViews(m) && hsv.Valid() && HsvOf(m) == hsv
    ensures var rgb := ToRgb(hsv);
            var m1 := WithRgbValues(WithHsvBounds(m, hsv.hue, hsv.saturation, hsv.value), rgb.r, rgb.g, rgb.b);
            var m2 := WithAlphaBound(WithRgbBounds(m1, rgb.r, rgb.g, rgb.b));
            Decorated(m2) && HsvOf(m2) == hsv && RgbOf(m2) == rgb && m2.alphaSlider.value == m.alphaSlider.value
  {
  }

  /**
   * The steps of a wheel-led update (HSV values, RGB values, alpha kept, then
   * the decorations of both sides) leave the sliders showing the wheel's
   * colour in both forms, alpha unchanged, and every decoration matching.
   */
  lemma {:induction false} WheelLeadDecorates(m: Panel, hsv: Hsv, r: int, g: int, b: int, a: int)
    requires ValidViews(m) && hsv.Valid() && ToRgb(hsv) == Rgb(r, g, b) && a == m.alphaSlider.value
    ensures var m1 := WithRgbValues(WithHsvValues(m, hsv.hue, hsv.saturation, hsv.value), r, g, b).(alphaSlider := Assigned(m.alphaSlider, a));
            var m2 := WithHsvBounds(WithHsvValues(m1, hsv.hue, hsv.saturation, hsv.value), hsv.hue, hsv.saturation, hsv.value);
            var m3 := WithAlphaBound(WithRgbBounds(WithRgbValues(m2, r, g, b), r, g, b));
            Decorated(m3) && HsvOf(m3) == hsv && RgbOf(m3) == ToRgb(hsv) && m3.alphaSlider.value == a
  {
    var m1 := WithRgbValues(WithHsvValues(m, hsv.hue, hsv.saturation, hsv.value), r, g, b);
    AssignedIdempotent(m.alphaSlider, a);
    assert m1.(alphaSlider := Assigned(m.alphaSlider, a)) == m1;
    assert WithHsvValues(m1, hsv.hue, hsv.saturation, hsv.value) == m1;
    HsvLeadDecorates(m1, hsv);
  }

  /** The byte cast `(byte)x`: the low eight bits. */
  function ByteCast(x: int): (b: int)
    ensures 0 <= b <= 255
    ensures 0 <= x <= 255 ==> b == x
    ensures (x - b) % 256 == 0
  {
    x % 256
  }

  class ColorDialog {
    /** The dialog's sliders, by name. */
    var sliders: Panel
    /** `colorWheel1.Color`. */
    var wheel: Hsv
    /** `_IgnoreChangedEventCounter`. */
    var ignoreCounter: nat

    ghost predicate Valid()
      reads this
    {
      ValidViews(sliders) && wheel.Valid()
    }

    /**
     * The state the handlers leave after a change led by the RGB side: the HSV
     * sliders and the wheel show the RGB sliders' colour converted, and every
     * decoration matches.
     */
    ghost predicate LedByRgb()
      reads this
      requires Valid()
    {
      HsvOf(sliders) == ToHsv(RgbOf(sliders)) && wheel == HsvOf(sliders) && Decorated(sliders)
    }

    /**
     * The state the handlers leave after a change led by the HSV side or the
     * wheel: the HSV sliders show the wheel, the RGB sliders its conversion,
     * and every decoration matches.
     */
    ghost predicate LedByHsv()
      reads this
      requires Valid()
    {
      wheel == HsvOf(sliders) && RgbOf(sliders) == ToRgb(wheel) && Decorated(sliders)
    }

    /**
     * The constructor: the sliders start at 0 with the gradient's default red
     * and blue ends, then the wheel is set to white, which runs the wheel
     * handler and leaves the dialog showing white, fully consistent.
     */
    constructor ()
      ensures Valid() && ignoreCounter == 0 && LedByHsv()
      ensures wheel == Hsv(0, 0, 100) && RgbOf(sliders) == Rgb(255, 255, 255)
    {
      var view := SliderView(0, Rgb(255, 0, 0), Rgb(0, 0, 255), None, 0);
      sliders := Panel(view, view, view, view, view, view, view);
      wheel := Hsv(0, 0, 0);
      ignoreCounter := 0;
      new;
      GraysToHsv();
      WhiteFromHsv();
      SetWheel(ToHsv(NewRgb(255, 255, 255).value));
    }

    /** The `WheelColor` getter: the wheel's colour in RGB with the alpha slider's value. */
    function WheelColor(): (argb: (int, Rgb))
      reads this
      requires Valid()
      ensures argb.1 == ToRgb(wheel) && argb.0 == sliders.alphaSlider.value
    {
      var rgb := ToRgb(wheel);
      (ClampToByte(sliders.alphaSlider.value), Rgb(ClampToByte(rgb.r), ClampToByte(rgb.g), ClampToByte(rgb.b)))
    }

    /**
     * The `WheelColor` setter: the wheel takes the colour's HSV form, then the
     * alpha slider the colour's alpha. When the wheel changes, the dialog
     * ends up led by it, so the getter returns the HSV round trip of the colour.
     */
    method SetWheelColor(alpha: int, c: Rgb)
      requires Valid() && c.Valid() && 0 <= alpha <= 255
      modifies this
      ensures Valid() && ignoreCounter == old(ignoreCounter) && wheel == ToHsv(c) && sliders.alphaSlider.value == alpha
      ensures WheelColor() == (alpha, ToRgb(ToHsv(c)))
      ensures old(ignoreCounter) == 0 && ToHsv(c) != old(wheel) ==> LedByHsv() && RgbOf(sliders) == ToRgb(ToHsv(c))
    {
      SetWheel(ToHsv(c));
      SetSliderValue(Alpha, alpha);
    }

    /**
     * A slider's `Value` set to `v` (by the dialog or by the user): a different
     * value is stored and the slider notifies `OnColorSliderValueChanged`.
     */
    method SetSliderValue(id: SliderId, v: int)
      requires Valid() && 0 <= v <= ModeMaximum(ModeOf(id))
      modifies this
      decreases if ignoreCounter == 0 then 1 else 0, 2
      ensures Valid() && ignoreCounter == old(ignoreCounter) && sliders.Get(id).value == v
      ensures v == old(sliders.Get(id).value) ==> sliders == old(sliders) && wheel == old(wheel)
      ensures old(ignoreCounter) != 0 ==> sliders == old(sliders).Put(id, Assigned(old(sliders).Get(id), v)) && wheel == old(wheel)
      ensures old(ignoreCounter) == 0 && v != old(sliders.Get(id).value) && IsRgbSlider(id) ==>
                RgbOf(sliders) == RgbOf(old(sliders).Put(id, Assigned(old(sliders).Get(id), v)))
                && sliders.alphaSlider.value == old(sliders.alphaSlider.value) && LedByRgb()
      ensures old(ignoreCounter) == 0 && v != old(sliders.Get(id).value) && IsHsvSlider(id) ==>
                HsvOf(sliders) == HsvOf(old(sliders).Put(id, Assigned(old(sliders).Get(id), v)))
                && sliders.alphaSlider.value == old(sliders.alphaSlider.value)
                && (old(wheel) != HsvOf(sliders) ==> LedByHsv())
      ensures old(ignoreCounter) == 0 && id == Alpha ==>
                sliders == old(sliders).Put(id, Assigned(old(sliders).Get(id), v)) && wheel == old(wheel)
    {
      if sliders.Get(id).value != v {
        sliders := sliders.Put(id, Assigned(sliders.Get(id), v));
        OnColorSliderValueChanged(id);
      }
    }

    /** The wheel's `Color` setter: a different colour is stored and the wheel notifies `OnWheelColorChanged`. */
    method SetWheel(hsv: Hsv)
      requires Valid() && hsv.Valid()
      modifies this
      decreases if ignoreCounter == 0 then 1 else 0, 2
      ensures Valid() && ignoreCounter == old(ignoreCounter) && wheel == hsv
      ensures hsv == old(wheel) || old(ignoreCounter) != 0 ==> sliders == old(sliders)
      ensures hsv != old(wheel) && old(ignoreCounter) == 0 ==>
                LedByHsv() && sliders.alphaSlider.value == old(sliders.alphaSlider.value)
    {
      if wheel != hsv {
        wheel := hsv;
        OnWheelColorChanged();
      }
    }

    /** `SetColorGradientMinMaxColorsRgb`. */
    method SetColorGradientMinMaxColorsRgb(r: int, g: int, b: int)
      requires Valid()
      modifies this
      ensures Valid() && sliders == WithRgbBounds(old(sliders), r, g, b)
      ensures wheel == old(wheel) && ignoreCounter == old(ignoreCounter)
    {
      sliders := sliders.(redSlider := sliders.redSlider.(minColor := Rgb(0, g, b), maxColor := Rgb(255, g, b)));
      sliders := sliders.(greenSlider := sliders.greenSlider.(minColor := Rgb(r, 0, b), maxColor := Rgb(r, 255, b)));
      sliders := sliders.(blueSlider := sliders.blueSlider.(minColor := Rgb(r, g, 0), maxColor := Rgb(r, g, 255)));
    }

    /** `SetColorGradientMinMaxColorsAlpha`: its argument is unused; the top colour comes from the RGB sliders. */
    method SetColorGradientMinMaxColorsAlpha(a: int)
      requires Valid()
      modifies this
      ensures Valid() && sliders == WithAlphaBound(old(sliders))
      ensures wheel == old(wheel) && ignoreCounter == old(ignoreCounter)
    {
      sliders := sliders.(alphaSlider := sliders.alphaSlider.(maxColor := Rgb(sliders.redSlider.value, sliders.greenSlider.value, sliders.blueSlider.value)));
    }

    /** `SetColorGradientMinMaxColorsHsv`: the ramps are built by loops, then handed over. */
    method SetColorGradientMinMaxColorsHsv(h: int, s: int, v: int)
      requires Valid() && Hsv(h, s, v).Valid()
      modifies this
      ensures Valid() && sliders == WithHsvBounds(old(sliders), h, s, v)
      ensures wheel == old(wheel) && ignoreCounter == old(ignoreCounter)
    {
      var hueColors := HueColors();
      sliders := sliders.(hueSlider := sliders.hueSlider.(custom := Some(hueColors)));
      var satColors := SaturationColors(h, v);
      sliders := sliders.(saturationSlider := sliders.saturationSlider.(custom := Some(satColors)));
      var maxColor := ToRgb(NewHsv(h, s, 100).value);
      var minColor := ToRgb(NewHsv(h, s, 0).value);
      sliders := sliders.(valueSlider := sliders.valueSlider.(minColor := minColor, maxColor := maxColor));
    }

    /** `SetColorGradientValuesRgb`: each RGB slider is assigned only when its value differs. */
    method SetColorGradientValuesRgb(r: int, g: int, b: int)
      requires Valid() && Rgb(r, g, b).Valid()
      modifies this
      decreases if ignoreCounter == 0 then 1 else 0, 3
      ensures Valid() && ignoreCounter == old(ignoreCounter)
      ensures old(ignoreCounter) != 0 ==> sliders == WithRgbValues(old(sliders), r, g, b) && wheel == old(wheel)
    {
      if sliders.redSlider.value != r {
        SetSliderValue(Red, r);
      }
      assert old(ignoreCounter) != 0 ==> sliders == old(sliders).(redSlider := Assigned(old(sliders).redSlider, r));
      ghost var m1 := sliders;
      if sliders.greenSlider.value != g {
        SetSliderValue(Green, g);
      }
      assert old(ignoreCounter) != 0 ==> sliders == m1.(greenSlider := Assigned(m1.greenSlider, g));
      ghost var m2 := sliders;
      if sliders.blueSlider.value != b {
        SetSliderValue(Blue, b);
      }
      assert old(ignoreCounter) != 0 ==> sliders == m2.(blueSlider := Assigned(m2.blueSlider, b));
    }

    /** `SetColorGradientValuesHsv`: each HSV slider is assigned only when its value differs. */
    method SetColorGradientValuesHsv(h: int, s: int, v: int)
      requires Valid() && Hsv(h, s, v).Valid()
      modifies this
      decreases if ignoreCounter == 0 then 1 else 0, 3
      ensures Valid() && ignoreCounter == old(ignoreCounter)
      ensures old(ignoreCounter) != 0 ==> sliders == WithHsvValues(old(sliders), h, s, v) && wheel == old(wheel)
    {
      if sliders.hueSlider.value != h {
        SetSliderValue(Hue, h);
      }
      assert old(ignoreCounter) != 0 ==> sliders == old(sliders).(hueSlider := Assigned(old(sliders).hueSlider, h));
      ghost var m1 := sliders;
      if sliders.saturationSlider.value != s {
        SetSliderValue(Saturation, s);
      }
      assert old(ignoreCounter) != 0 ==> sliders == m1.(saturationSlider := Assigned(m1.saturationSlider, s));
      ghost var m2 := sliders;
      if sliders.valueSlider.value != v {
        SetSliderValue(Value, v);
      }
      assert old(ignoreCounter) != 0 ==> sliders == m2.(valueSlider := Assigned(m2.valueSlider, v));
    }

    /** `SyncHsvFromRgb`: the HSV sliders, their decorations and the wheel take the colour's HSV form. */
    method SyncHsvFromRgb(c: Rgb)
      requires Valid() && c.Valid()
      modifies this
      decreases if ignoreCounter == 0 then 1 else 0, 4
      ensures Valid() && ignoreCounter == old(ignoreCounter)
      ensures old(ignoreCounter) != 0 ==>
                var hsv := ToHsv(c);
                wheel == hsv
                && sliders == WithHsvBounds(WithHsvValues(old(sliders), hsv.hue, hsv.saturation, hsv.value),
                                            hsv.hue, hsv.saturation, hsv.value)
    {
      var hsv := ToHsv(NewRgb(c.r, c.g, c.b).value);
      SetColorGradientValuesHsv(hsv.hue, hsv.saturation, hsv.value);
      SetColorGradientMinMaxColorsHsv(hsv.hue, hsv.saturation, hsv.value);
      SetWheel(hsv);
    }

    /** `SyncRgbFromHsv`: the RGB sliders take the colour's RGB form, then the RGB and alpha decorations follow. */
    method SyncRgbFromHsv(hsv: Hsv)
      requires Valid() && hsv.Valid()
      modifies this
      decreases if ignoreCounter == 0 then 1 else 0, 4
      ensures Valid() && ignoreCounter == old(ignoreCounter)
      ensures old(ignoreCounter) != 0 ==>
                var rgb := ToRgb(hsv);
                wheel == old(wheel)
                && sliders == WithAlphaBound(WithRgbBounds(WithRgbValues(old(sliders), rgb.r, rgb.g, rgb.b),
                                                           rgb.r, rgb.g, rgb.b))
    {
      var rgb := ToRgb(hsv);
      ghost var m0 := sliders;
      SetSliderValue(Red, rgb.r);
      SetSliderValue(Green, rgb.g);
      SetSliderValue(Blue, rgb.b);
      ghost var m1 := sliders;
      assert old(ignoreCounter) != 0 ==> m1 == WithRgbValues(m0, rgb.r, rgb.g, rgb.b);
      SetColorGradientValuesRgb(rgb.r, rgb.g, rgb.b);
      assert old(ignoreCounter) != 0 ==> sliders == m1;
      SetColorGradientMinMaxColorsRgb(rgb.r, rgb.g, rgb.b);
      SetColorGradientMinMaxColorsAlpha(sliders.alphaSlider.value);
    }

    /**
     * `OnColorSliderValueChanged`: ignored while the counter is non-zero. A
     * red, green or blue change makes the RGB sliders lead; a hue, saturation
     * or value change that differs from the wheel makes the HSV sliders lead;
     * an alpha change does nothing. The counter returns to its entry value.
     */
    method OnColorSliderValueChanged(sender: SliderId)
      requires Valid()
      modifies this
      decreases if ignoreCounter == 0 then 1 else 0, 1
      ensures Valid() && ignoreCounter == old(ignoreCounter)
      ensures old(ignoreCounter) != 0 ==> sliders == old(sliders) && wheel == old(wheel)
      ensures old(ignoreCounter) == 0 && IsRgbSlider(sender) ==>
                RgbOf(sliders) == RgbOf(old(sliders)) && sliders.alphaSlider.value == old(sliders.alphaSlider.value) && LedByRgb()
      ensures old(ignoreCounter) == 0 && IsHsvSlider(sender) && old(wheel) == HsvOf(old(sliders)) ==>
                sliders == old(sliders) && wheel == old(wheel)
      ensures old(ignoreCounter) == 0 && IsHsvSlider(sender) && old(wheel) != HsvOf(old(sliders)) ==>
                HsvOf(sliders) == HsvOf(old(sliders)) && sliders.alphaSlider.value == old(sliders.alphaSlider.value) && LedByHsv()
      ensures old(ignoreCounter) == 0 && sender == Alpha ==> sliders == old(sliders) && wheel == old(wheel)
    {
      if ignoreCounter != 0 {
        return;
      }
      ignoreCounter := ignoreCounter + 1;
      if IsRgbSlider(sender) {
        RgbSliderChanged();
      } else if IsHsvSlider(sender) {
        HsvSliderChanged();
      }
      ignoreCounter := ignoreCounter - 1;
    }

    /** The red, green or blue branch of `OnColorSliderValueChanged`, run with the counter raised. */
    method RgbSliderChanged()
      requires Valid() && ignoreCounter > 0
      modifies this
      decreases if ignoreCounter == 0 then 1 else 0, 5
      ensures Valid() && ignoreCounter == old(ignoreCounter)
      ensures RgbOf(sliders) == RgbOf(old(sliders)) && sliders.alphaSlider.value == old(sliders.alphaSlider.value) && LedByRgb()
    {
      var c := Rgb(ClampToByte(sliders.redSlider.value), ClampToByte(sliders.greenSlider.value), ClampToByte(sliders.blueSlider.value));
      var a := ClampToByte(sliders.alphaSlider.value);
      ghost var m0 := sliders;
      SetColorGradientMinMaxColorsRgb(c.r, c.g, c.b);
      SetColorGradientMinMaxColorsAlpha(a);
      ghost var m1 := sliders;
      SetColorGradientValuesRgb(c.r, c.g, c.b);
      SetColorGradientMinMaxColorsAlpha(a);
      assert sliders == m1;
      SyncHsvFromRgb(c);
      RgbLeadDecorates(m0);
    }

    /** The hue, saturation or value branch of `OnColorSliderValueChanged`, run with the counter raised. */
    method HsvSliderChanged()
      requires Valid() && ignoreCounter > 0
      modifies this
      decreases if ignoreCounter == 0 then 1 else 0, 5
      ensures Valid() && ignoreCounter == old(ignoreCounter)
      ensures old(wheel) == HsvOf(old(sliders)) ==> sliders == old(sliders) && wheel == old(wheel)
      ensures old(wheel) != HsvOf(old(sliders)) ==>
                HsvOf(sliders) == HsvOf(old(sliders)) && sliders.alphaSlider.value == old(sliders.alphaSlider.value) && LedByHsv()
    {
      var oldHsv := wheel;
      var hsv := NewHsv(sliders.hueSlider.value, sliders.saturationSlider.value, sliders.valueSlider.value).value;
      if oldHsv != hsv {
        ghost var m0 := sliders;
        SetWheel(hsv);
        SetColorGradientValuesHsv(hsv.hue, hsv.saturation, hsv.value);
        assert sliders == m0;
        SetColorGradientMinMaxColorsHsv(hsv.hue, hsv.saturation, hsv.value);
        SyncRgbFromHsv(hsv);
        HsvLeadDecorates(m0, hsv);
      }
    }

    /**
     * `OnWheelColorChanged`: ignored while the counter is non-zero. Otherwise
     * the HSV sliders take the wheel's colour, the RGB sliders its RGB form,
     * every decoration follows, alpha keeps its value, and the counter returns
     * to its entry value.
     */
    method OnWheelColorChanged()
      requires Valid()
      modifies this
      decreases if ignoreCounter == 0 then 1 else 0, 1
      ensures Valid() && ignoreCounter == old(ignoreCounter) && wheel == old(wheel)
      ensures old(ignoreCounter) != 0 ==> sliders == old(sliders)
      ensures old(ignoreCounter) == 0 ==> LedByHsv() && sliders.alphaSlider.value == old(sliders.alphaSlider.value)
    {
      if ignoreCounter != 0 {
        return;
      }
      ignoreCounter := ignoreCounter + 1;
      var hsvColor := wheel;
      var rgbColor := ToRgb(hsvColor);
      var r, g, b, a := ByteCast(rgbColor.r), ByteCast(rgbColor.g), ByteCast(rgbColor.b), ByteCast(sliders.alphaSlider.value);
      ghost var m0 := sliders;
      assert rgbColor == Rgb(r, g, b) && a == m0.alphaSlider.value;
      ShowHsv(hsvColor);
      ShowRgb(r, g, b, a);
      DecorateColor(hsvColor, r, g, b, a);
      WheelLeadDecorates(m0, hsvColor, r, g, b, a);
      ignoreCounter := ignoreCounter - 1;
    }

    /** The three HSV `Value` writes that open the body of `OnWheelColorChanged`. */
    method ShowHsv(hsv: Hsv)
      requires Valid() && ignoreCounter > 0 && hsv.Valid()
      modifies this
      decreases if ignoreCounter == 0 then 1 else 0, 5
      ensures Valid() && ignoreCounter == old(ignoreCounter) && wheel == old(wheel)
      ensures sliders == WithHsvValues(old(sliders), hsv.hue, hsv.saturation, hsv.value)
    {
      SetSliderValue(Hue, hsv.hue);
      SetSliderValue(Saturation, hsv.saturation);
      SetSliderValue(Value, hsv.value);
    }

    /** The four RGB and alpha `Value` writes that follow them. */
    method ShowRgb(r: int, g: int, b: int, a: int)
      requires Valid() && ignoreCounter > 0 && Rgb(r, g, b).Valid() && 0 <= a <= 255
      modifies this
      decreases if ignoreCounter == 0 then 1 else 0, 5
      ensures Valid() && ignoreCounter == old(ignoreCounter) && wheel == old(wheel)
      ensures sliders == WithRgbValues(old(sliders), r, g, b).(alphaSlider := Assigned(old(sliders).alphaSlider, a))
    {
      SetSliderValue(Red, r);
      SetSliderValue(Green, g);
      SetSliderValue(Blue, b);
      SetSliderValue(Alpha, a);
    }

    /** The five decoration calls that close the body of `OnWheelColorChanged`. */
    method DecorateColor(hsv: Hsv, r: int, g: int, b: int, a: int)
      requires Valid() && ignoreCounter > 0 && hsv.Valid() && Rgb(r, g, b).Valid()
      modifies this
      decreases if ignoreCounter == 0 then 1 else 0, 5
      ensures Valid() && ignoreCounter == old(ignoreCounter) && wheel == old(wheel)
      ensures var m1 := WithHsvBounds(WithHsvValues(old(sliders), hsv.hue, hsv.saturation, hsv.value), hsv.hue, hsv.saturation, hsv.value);
              sliders == WithAlphaBound(WithRgbBounds(WithRgbValues(m1, r, g, b), r, g, b))
    {
      SetColorGradientValuesHsv(hsv.hue, hsv.saturation, hsv.value);
      SetColorGradientMinMaxColorsHsv(hsv.hue, hsv.saturation, hsv.value);
      SetColorGradientValuesRgb(r, g, b);
      SetColorGradientMinMaxColorsRgb(r, g, b);
      SetColorGradientMinMaxColorsAlpha(a);
    }
  }

  /** The hue ramp as `SetColorGradientMinMaxColorsHsv` fills it, one hue at a time. */
  method HueColors() returns (ramp: seq<Rgb>)
    ensures ramp == HueRamp()
  {
    var colors := new Rgb[361];
    for newH := 0 to 361
      invariant forall k :: 0 <= k < newH ==> colors[k] == ToRgb(Hsv(k, 100, 100))
    {
      var hsv := NewHsv(newH, 100, 100).value;
      colors[newH] := ToRgb(hsv);
    }
    ramp := colors[..];
  }

  /** The saturation ramp as `SetColorGradientMinMaxColorsHsv` fills it, one saturation at a time. */
  method SaturationColors(h: int, v: int) returns (ramp: seq<Rgb>)
    requires 0 <= h <= 360 && 0 <= v <= 100
    ensures ramp == SaturationRamp(h, v)
  {
    var colors := new Rgb[101];
    for newS := 0 to 101
      invariant forall k :: 0 <= k < newS ==> colors[k] == ToRgb(Hsv(h, k, v))
    {
      var hsv := NewHsv(h, newS, v).value;
      colors[newS] := ToRgb(hsv);
    }
    ramp := colors[..];
  }
}
