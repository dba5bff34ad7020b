/**
 * The `ColorGradient` control: a track of up to sixteen handles, edited in
 * place through `Count`, `SetValue` and the mouse, plus the custom colour
 * array it keeps as a private copy.
 */
module Gradient {
  import opened Failures
  import opened NumberHelpers
  import opened ColorSpace
  import opened GradientTrack

  datatype MouseButton = Left | Right | Middle | NoButton

  /** A mouse position in client coordinates. */
  datatype Point = Point(x: int, y: int)

  class ColorGradient {
    /** `_Values`: the handle values, rebuilt by `Count` and edited by `SetValue`. */
    var values: array<int>
    var orientation: Orientation
    var width: int
    var height: int
    /** `_Tracking`: the handle being dragged, or -1. */
    var tracking: int
    /** `_Highlight`: the handle under an idle pointer, or -1. */
    var highlight: int
    var minColor: Rgb
    var maxColor: Rgb
    /** `_CustomGradient`: null, or an array that no caller holds. */
    var customGradient: array?<Rgb>
    /** How many times `OnValueChanged` has raised `ValueChanged`. */
    var valueChangedEvents: nat

    /** The track invariant: at most sixteen handles, strictly ordered within [0, 255]. */
    ghost predicate Valid()
      reads this, values
    {
      values.Length <= MaxCount && Ordered(values[..])
    }

    /** The number of pixels along the track's axis. */
    function AxisLength(): int
      reads this
    {
      if orientation == Horizontal then width else height
    }

    /** A new control holds one handle at 128, drawn vertically in red to blue. */
    constructor (width: int, height: int)
      ensures Valid() && fresh(values)
      ensures values[..] == [128] && orientation == Vertical
      ensures this.width == width && this.height == height
      ensures tracking == -1 && highlight == -1
      ensures minColor == Rgb(255, 0, 0) && maxColor == Rgb(0, 0, 255)
      ensures customGradient == null && valueChangedEvents == 1
    {
      var a := new int[1];
      a[0] := 128;
      values := a;
      orientation := Vertical;
      this.width := width;
      this.height := height;
      tracking := -1;
      highlight := -1;
      minColor := Rgb(255, 0, 0);
      maxColor := Rgb(0, 0, 255);
      customGradient := null;
      valueChangedEvents := 1;
    }

    /**
     * The `Count` setter: outside [0, 16] it throws and changes nothing;
     * otherwise a fresh array holds the even spread and `ValueChanged` is raised.
     */
    method SetCount(count: int) returns (outcome: Outcome)
      requires Valid()
      modifies this
      ensures Valid()
      ensures outcome.Fail? <==> count < 0 || count > MaxCount
      ensures outcome.Fail? ==> outcome.error == ArgumentOutOfRange("value")
      ensures outcome.Fail? ==> values == old(values) && valueChangedEvents == old(valueChangedEvents)
      ensures outcome.Pass? ==> fresh(values) && values[..] == EvenSpread(count)
      ensures outcome.Pass? ==> valueChangedEvents == old(valueChangedEvents) + 1
      ensures orientation == old(orientation) && width == old(width) && height == old(height)
      ensures tracking == old(tracking) && highlight == old(highlight)
      ensures minColor == old(minColor) && maxColor == old(maxColor) && customGradient == old(customGradient)
    {
      if count < 0 || count > MaxCount {
        return Fail(ArgumentOutOfRange("value"));
      }
      var a := EvenSpreadArray(count);
      values := a;
      EvenSpreadShape(count);
      valueChangedEvents := valueChangedEvents + 1;
      outcome := Pass;
    }

    /** `GetValue`: the handle at `index`, or a range error naming "index". */
    method GetValue(index: int) returns (r: Result<int>)
      ensures r.Err? <==> !(0 <= index < values.Length)
      ensures r.Err? ==> r.error == ArgumentOutOfRange("index")
      ensures r.Ok? ==> r.value == values[index]
    {
      if index < 0 || index >= values.Length {
        return Err(ArgumentOutOfRange("index"));
      }
      return Ok(values[index]);
    }

    /**
     * `SetValue`: a range error for a bad index; otherwise, when `val` differs
     * from the stored value, the handle becomes `val` clamped strictly between
     * its neighbours and `ValueChanged` is raised. No other handle moves.
     */
    method SetValue(index: int, val: int) returns (outcome: Outcome)
      requires Valid()
      modifies values, this`valueChangedEvents
      ensures Valid()
      ensures outcome.Fail? <==> !(0 <= index < values.Length)
      ensures outcome.Fail? ==> outcome.error == ArgumentOutOfRange("index")
      ensures outcome.Fail? ==> values[..] == old(values[..]) && valueChangedEvents == old(valueChangedEvents)
      ensures outcome.Pass? ==> values[..] == Assign(old(values[..]), index, val)
      ensures outcome.Pass? ==> valueChangedEvents == old(valueChangedEvents) + (if old(values[index]) != val then 1 else 0)
    {
      if index < 0 || index >= values.Length {
        return Fail(ArgumentOutOfRange("index"));
      }
      ghost var before := values[..];
      var min := -1;
      var max := 256;
      if index - 1 >= 0 {
        min := values[index - 1];
      }
      if index + 1 < values.Length {
        max := values[index + 1];
      }
      if values[index] != val {
        var clamped := Clamp(val, min + 1, max - 1);
        assert clamped == Ok(ClampToNeighbours(before, index, val));
        values[index] := clamped.value;
        AssignKeepsOrder(before, index, val);
        valueChangedEvents := valueChangedEvents + 1;
      }
      outcome := Pass;
    }

    /**
     * `WhichTriangle`: the first handle nearest to the value under pixel `pos`,
     * or -1 when none is nearer than `int.MaxValue`.
     */
    method WhichTriangle(pos: int) returns (best: int)
      requires AxisLength() != TriangleSize
      ensures IsNearest(values[..], PositionToValue(orientation, AxisLength(), pos), best)
      ensures -1 <= best < values.Length
    {
      var bestIndex := -1;
      var bestDistance := IntMaxValue;
      var v := PositionToValue(orientation, AxisLength(), pos);
      for i := 0 to values.Length
        invariant -1 <= bestIndex < i
        invariant bestIndex == -1 ==> bestDistance == IntMaxValue
        invariant bestIndex != -1 ==> bestDistance == Abs(values[bestIndex] - v)
        invariant IsNearest(values[..i], v, bestIndex)
      {
        NearestStep(values[..i], v, bestIndex, bestDistance, values[i]);
        assert values[..i + 1] == values[..i] + [values[i]];
        var distance := Abs(values[i] - v);
        if distance < bestDistance {
          bestDistance := distance;
          bestIndex := i;
        }
      }
      assert values[..] == values[..values.Length];
      best := bestIndex;
    }

    /** `GetOrientedValue`: the coordinate along the track's axis. */
    function OrientedValue(pt: Point): (pos: int)
      reads this
      ensures orientation == Horizontal ==> pos == pt.x
      ensures orientation == Vertical ==> pos == pt.y
    {
      match orientation
      case Horizontal => pt.x
      case Vertical => pt.y
    }

    /** The track value under the pointer: `PositionToValue(GetOrientedValue(pt))`. */
    function PointerValue(pt: Point): int
      reads this
      requires AxisLength() != TriangleSize
    {
      PositionToValue(orientation, AxisLength(), OrientedValue(pt))
    }

    /**
     * `OnMouseMove`: while dragging, the tracked handle follows the pointer
     * through `SetValue`; otherwise only the highlight is updated.
     */
    method OnMouseMove(pt: Point) returns (outcome: Outcome)
      requires Valid() && AxisLength() != TriangleSize
      modifies values, this`valueChangedEvents, this`highlight
      ensures Valid()
      ensures tracking >= 0 ==> highlight == old(highlight)
      ensures 0 <= tracking < values.Length ==>
                outcome == Pass
                && values[..] == Assign(old(values[..]), tracking, PointerValue(pt))
                && valueChangedEvents == old(valueChangedEvents) + (if old(values[tracking]) != PointerValue(pt) then 1 else 0)
      ensures tracking >= values.Length ==>
                outcome == Fail(ArgumentOutOfRange("index")) && values[..] == old(values[..])
                && valueChangedEvents == old(valueChangedEvents)
      ensures tracking < 0 ==>
                outcome == Pass && values[..] == old(values[..])
                && valueChangedEvents == old(valueChangedEvents)
                && IsNearest(values[..], PointerValue(pt), highlight)
    {
      var pos := OrientedValue(pt);
      if tracking >= 0 {
        var val := PositionToValue(orientation, AxisLength(), pos);
        outcome := SetValue(tracking, val);
      } else {
        highlight := WhichTriangle(pos);
        outcome := Pass;
      }
    }

    /**
     * `OnMouseDown`: a left press picks the nearest handle to drag and moves it
     * to the pointer; with no handle to pick, the move sets the highlight to -1.
     */
    method OnMouseDown(button: MouseButton, pt: Point) returns (outcome: Outcome)
      requires Valid() && AxisLength() != TriangleSize
      modifies values, this`valueChangedEvents, this`highlight, this`tracking
      ensures Valid()
      ensures button != Left ==> outcome == Pass && tracking == old(tracking) && highlight == old(highlight)
                                 && values[..] == old(values[..]) && valueChangedEvents == old(valueChangedEvents)
      ensures button == Left ==>
                outcome == Pass && -1 <= tracking < values.Length
                && IsNearest(old(values[..]), PointerValue(pt), tracking)
      ensures button == Left && tracking >= 0 ==>
                highlight == old(highlight)
                && values[..] == Assign(old(values[..]), tracking, PointerValue(pt))
                && valueChangedEvents == old(valueChangedEvents) + (if old(values[..])[tracking] != PointerValue(pt) then 1 else 0)
      ensures button == Left && tracking == -1 ==>
                highlight == -1 && values[..] == old(values[..]) && valueChangedEvents == old(valueChangedEvents)
    {
      outcome := Pass;
      if button == Left {
        var pos := OrientedValue(pt);
        tracking := WhichTriangle(pos);
        outcome := OnMouseMove(pt);
        if tracking < 0 {
          NearestUnique(values[..], PointerValue(pt), tracking, highlight);
        }
      }
    }

    /**
     * `OnMouseUp`: a left release applies the final move, then stops dragging.
     * When that move throws (a tracked index the track no longer has), the
     * exception skips the reset and tracking stays as it was.
     */
    method OnMouseUp(button: MouseButton, pt: Point) returns (outcome: Outcome)
      requires Valid() && AxisLength() != TriangleSize
      modifies values, this`valueChangedEvents, this`highlight, this`tracking
      ensures Valid()
      ensures button != Left ==> outcome == Pass && tracking == old(tracking) && highlight == old(highlight)
                                 && values[..] == old(values[..]) && valueChangedEvents == old(valueChangedEvents)
      ensures button == Left && old(tracking) >= values.Length ==>
                outcome == Fail(ArgumentOutOfRange("index")) && tracking == old(tracking) && highlight == old(highlight)
                && values[..] == old(values[..]) && valueChangedEvents == old(valueChangedEvents)
      ensures button == Left && 0 <= old(tracking) < values.Length ==>
                outcome == Pass && tracking == -1 && highlight == old(highlight)
                && values[..] == Assign(old(values[..]), old(tracking), PointerValue(pt))
                && valueChangedEvents == old(valueChangedEvents) + (if old(values[tracking]) != PointerValue(pt) then 1 else 0)
      ensures button == Left && old(tracking) < 0 ==>
                outcome == Pass && tracking == -1
                && values[..] == old(values[..]) && valueChangedEvents == old(valueChangedEvents)
                && IsNearest(values[..], PointerValue(pt), highlight)
    {
      outcome := Pass;
      if button == Left {
        outcome := OnMouseMove(pt);
        if outcome.Fail? {
          return;
        }
        tracking := -1;
      }
    }

    /** `OnMouseLeave`: the highlight is cleared. */
    method OnMouseLeave()
      modifies this`highlight
      ensures highlight == -1
    {
      highlight := -1;
    }

    /**
     * The `CustomGradient` setter: a different array (or null) is stored as a
     * private copy; handing back the stored array itself changes nothing.
     */
    method SetCustomGradient(colors: array?<Rgb>)
      modifies this`customGradient
      ensures colors == old(customGradient) ==> customGradient == old(customGradient)
      ensures colors != old(customGradient) && colors == null ==> customGradient == null
      ensures colors != old(customGradient) && colors != null ==>
                customGradient != null && fresh(customGradient) && customGradient[..] == colors[..]
    {
      if colors != customGradient {
        if colors == null {
          customGradient := null;
        } else {
          customGradient := CloneColors(colors);
        }
      }
    }

    /** The `CustomGradient` getter: null, or a fresh copy of the stored array. */
    method GetCustomGradient() returns (colors: array?<Rgb>)
      ensures customGradient == null ==> colors == null
      ensures customGradient != null ==> colors != null && fresh(colors) && colors[..] == customGradient[..]
    {
      if customGradient == null {
        return null;
      }
      colors := CloneColors(customGradient);
    }
  }

  /** The array `Count` builds: i * 255 / (n - 1) for each handle when n > 1, a single 128 when n == 1. */
  method EvenSpreadArray(count: int) returns (a: array<int>)
    requires 0 <= count <= MaxCount
    ensures fresh(a) && a[..] == EvenSpread(count)
  {
    a := new int[count];
    if count > 1 {
      for i := 0 to count
        invariant forall j :: 0 <= j < i ==> a[j] == EvenSpread(count)[j]
      {
        a[i] := i * 255 / (count - 1);
      }
    } else if count == 1 {
      a[0] := 128;
    }
  }

  /** `Array.Clone` on a colour array: a fresh array with the same elements. */
  method CloneColors(a: array<Rgb>) returns (c: array<Rgb>)
    ensures fresh(c) && c[..] == a[..]
  {
    c := new Rgb[a.Length](i requires 0 <= i < a.Length reads a => a[i]);
  }

  /** A copy handed to the control is not affected when the caller later writes its own array. */
  method CustomGradientIsPrivate(g: ColorGradient, colors: array<Rgb>)
    requires colors.Length > 0 && g.customGradient != colors
    modifies g, colors
    ensures g.customGradient != null && g.customGradient[..] == old(colors[..])
  {
    g.SetCustomGradient(colors);
    var before := g.customGradient[..];
    colors[0] := Rgb(1, 2, 3);
    assert g.customGradient[..] == before;
  }
}
