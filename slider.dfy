/**
 * The `ColorSlider` control: a numeric up-down box and a one-handle gradient
 * track kept in step through a mode-dependent scaling, under a re-entrancy
 * counter that swallows the notifications its own writes cause.
 */
module Slider {
  import opened Failures
  import opened NumberHelpers
  import opened GradientTrack
  import opened Gradient

  /** What the up-down box counts: a 0..255 channel, 0..360 degrees or 0..100 percent. */
  datatype SliderMode = Channel | Degrees | Total

  /** Which control raised the change notification. */
  datatype Sender = FromGradient | FromUpDown

  /** The up-down box's Maximum in each mode; its Minimum is always 0. */
  function ModeMaximum(mode: SliderMode): (m: nat)
    ensures 100 <= m <= 360
    ensures mode == Channel <==> m == 255
  {
    match mode
    case Channel => 255
    case Degrees => 360
    case Total => 100
  }

  /** A track value 0..255 shown in the up-down box: unchanged, scaled to degrees, or to percent. */
  function GradientToUpDown(mode: SliderMode, g: int): (n: int)
    ensures 0 <= g <= 255 ==> 0 <= n <= ModeMaximum(mode)
    ensures mode == Channel ==> n == g
  {
    if mode.Degrees? || mode.Total? then
      ScaleBounds(if 0 <= g <= 255 then g else 0, ModeMaximum(mode), 255);
      TruncDiv(g * ModeMaximum(mode), 255)
    else g
  }

  /** An up-down value placed on the 0..255 track: unchanged, or scaled from degrees or percent. */
  function UpDownToGradient(mode: SliderMode, n: int): (g: int)
    ensures 0 <= n <= ModeMaximum(mode) ==> 0 <= g <= 255
    ensures mode == Channel ==> g == n
  {
    if mode.Degrees? || mode.Total? then
      ScaleBounds(if 0 <= n <= ModeMaximum(mode) then n else 0, 255, ModeMaximum(mode));
      TruncDiv(n * 255, ModeMaximum(mode))
    else n
  }

  /** Both mappings send the ends of one range to the ends of the other. */
  lemma MappingEnds(mode: SliderMode)
    ensures GradientToUpDown(mode, 0) == 0 && GradientToUpDown(mode, 255) == ModeMaximum(mode)
    ensures UpDownToGradient(mode, 0) == 0 && UpDownToGradient(mode, ModeMaximum(mode)) == 255
  {
  }

  /**
   * Track -> box -> track never gains; it loses at most 1 in degrees (the box
   * is finer than the track) and at most 3 in percent.
   */
  lemma {:induction false} GradientRoundTrip(mode: SliderMode, g: int)
    requires 0 <= g <= 255
    ensures UpDownToGradient(mode, GradientToUpDown(mode, g)) <= g
    ensures mode == Channel ==> UpDownToGradient(mode, GradientToUpDown(mode, g)) == g
    ensures mode == Degrees ==> g - 1 <= UpDownToGradient(mode, GradientToUpDown(mode, g))
    ensures mode == Total ==> g - 3 <= UpDownToGradient(mode, GradientToUpDown(mode, g))
  {
    if mode != Channel {
      ScaleRoundTrip(g, ModeMaximum(mode), 255);
      ScaleBounds(g, ModeMaximum(mode), 255);
    }
  }

  /** Box -> track -> box never gains; it loses at most 2 in degrees and at most 1 in percent. */
  lemma {:induction false} UpDownRoundTrip(mode: SliderMode, n: int)
    requires 0 <= n <= ModeMaximum(mode)
    ensures GradientToUpDown(mode, UpDownToGradient(mode, n)) <= n
    ensures mode == Channel ==> GradientToUpDown(mode, UpDownToGradient(mode, n)) == n
    ensures mode == Degrees ==> n - 2 <= GradientToUpDown(mode, UpDownToGradient(mode, n))
    ensures mode == Total ==> n - 1 <= GradientToUpDown(mode, UpDownToGradient(mode, n))
  {
    if mode != Channel {
      ScaleRoundTrip(n, 255, ModeMaximum(mode));
      ScaleBounds(n, 255, ModeMaximum(mode));
    }
  }

  /** The degree bound is reached: 4 degrees is track value 2, which reads back as 2 degrees. */
  lemma DegreesLoseTwo()
    ensures UpDownToGradient(Degrees, 4) == 2 && GradientToUpDown(Degrees, 2) == 2
  {
  }

  class ColorSlider {
    /** `_Mode`. */
    var mode: SliderMode
    /** `numericUpDown.Minimum`, `.Maximum`, `.Increment` and `.Value`. */
    var minimum: int
    var maximum: int
    var increment: int
    var upDown: int
    /** `colorGradient`: a one-handle track. */
    const gradient: ColorGradient
    /** `_IgnoreChangedEventCounter`. */
    var ignoreCounter: nat
    /** How many times this slider has raised `ValueChanged`. */
    var valueChangedEvents: nat

    /** The state every method keeps: a valid track with exactly one handle. */
    ghost predicate Wired()
      reads this, gradient, gradient.values
    {
      gradient.Valid() && gradient.values.Length == 1
    }

    /** Between calls, the box's range is the mode's range with step 1, and holds the box's value. */
    ghost predicate Valid()
      reads this, gradient, gradient.values
    {
      Wired() && minimum == 0 && maximum == ModeMaximum(mode) && increment == 1 && minimum <= upDown <= maximum
    }

    /** The `Value` getter: the up-down box's value. */
    function Value(): int
      reads this
    {
      upDown
    }

    /** A new slider is a channel slider showing 0, with its track handle at 128. */
    constructor (width: int, height: int)
      ensures Valid() && fresh(gradient) && fresh(gradient.values)
      ensures mode == Channel && upDown == 0 && gradient.values[..] == [128]
      ensures ignoreCounter == 0 && valueChangedEvents == 0
    {
      gradient := new ColorGradient(width, height);
      mode := Channel;
      minimum := 0;
      maximum := 255;
      increment := 1;
      upDown := 0;
      ignoreCounter := 0;
      valueChangedEvents := 0;
    }

    /**
     * The `Value` setter (and the up-down box's own): a different value outside
     * [Minimum, Maximum] throws; otherwise it is stored and the box notifies
     * `OnValueChanged`, which moves the track when the counter is zero.
     */
    method SetValue(value: int) returns (outcome: Outcome)
      requires Wired()
      modifies this, gradient.values, gradient`valueChangedEvents
      decreases if ignoreCounter == 0 then 1 else 0, 3
      ensures Wired() && gradient.values == old(gradient.values)
      ensures mode == old(mode) && minimum == old(minimum) && maximum == old(maximum)
      ensures increment == old(increment) && ignoreCounter == old(ignoreCounter)
      ensures outcome.Fail? <==> value != old(upDown) && !(minimum <= value <= maximum)
      ensures outcome.Fail? ==> outcome.error == ArgumentOutOfRange("Value")
      ensures upDown == (if outcome.Pass? then value else old(upDown))
      ensures value == old(upDown) || outcome.Fail? || old(ignoreCounter) != 0 ==>
                gradient.values[..] == old(gradient.values[..]) && valueChangedEvents == old(valueChangedEvents)
      ensures value != old(upDown) && outcome.Pass? && old(ignoreCounter) == 0 ==>
                gradient.values[..] == [ClampToByte(UpDownToGradient(mode, value))]
                && valueChangedEvents == old(valueChangedEvents) + 1
    {
      outcome := Pass;
      if upDown != value {
        if value < minimum || value > maximum {
          return Fail(ArgumentOutOfRange("Value"));
        }
        upDown := value;
        outcome := OnValueChanged(FromUpDown);
      }
    }

    /**
     * The `Mode` setter: the box's range becomes the mode's, its value is pulled
     * down into it (notifying under the old mode), and the step becomes 1.
     */
    method SetMode(m: SliderMode)
      requires Valid()
      modifies this, gradient.values, gradient`valueChangedEvents
      decreases if ignoreCounter == 0 then 1 else 0, 4
      ensures Valid() && mode == m && gradient.values == old(gradient.values)
      ensures ignoreCounter == old(ignoreCounter)
      ensures old(upDown) <= ModeMaximum(m) ==>
                upDown == old(upDown) && gradient.values[..] == old(gradient.values[..])
                && valueChangedEvents == old(valueChangedEvents)
      ensures old(upDown) > ModeMaximum(m) ==> upDown == ModeMaximum(m)
      ensures old(upDown) > ModeMaximum(m) && old(ignoreCounter) == 0 ==>
                gradient.values[..] == [ClampToByte(UpDownToGradient(old(mode), ModeMaximum(m)))]
                && valueChangedEvents == old(valueChangedEvents) + 1
    {
      minimum := 0;
      maximum := ModeMaximum(m);
      if upDown > maximum {
        var outcome := SetValue(maximum);
      }
      increment := 1;
      mode := m;
    }

    /**
     * `OnValueChanged`: ignored while the counter is non-zero. Otherwise the
     * other control is written when its mapped value differs, `ValueChanged`
     * is raised and the counter returns to zero. An up-down write that throws
     * leaves the counter raised, as the exception skips the pop.
     */
    method OnValueChanged(sender: Sender) returns (outcome: Outcome)
      requires Wired()
      modifies this, gradient.values, gradient`valueChangedEvents
      decreases if ignoreCounter == 0 then 1 else 0, 2
      ensures Wired() && gradient.values == old(gradient.values)
      ensures mode == old(mode) && minimum == old(minimum) && maximum == old(maximum) && increment == old(increment)
      ensures old(ignoreCounter) != 0 ==>
                outcome == Pass && ignoreCounter == old(ignoreCounter) && upDown == old(upDown)
                && gradient.values[..] == old(gradient.values[..]) && valueChangedEvents == old(valueChangedEvents)
      ensures old(ignoreCounter) == 0 && sender == FromUpDown ==>
                outcome == Pass && ignoreCounter == 0 && upDown == old(upDown)
                && gradient.values[..] == [ClampToByte(UpDownToGradient(mode, upDown))]
                && valueChangedEvents == old(valueChangedEvents) + 1
      ensures old(ignoreCounter) == 0 && sender == FromGradient ==>
                gradient.values[..] == old(gradient.values[..])
                && (outcome.Pass? <==> GradientToUpDown(mode, old(gradient.values[0])) == old(upDown)
                                       || minimum <= GradientToUpDown(mode, old(gradient.values[0])) <= maximum)
                && (outcome.Pass? ==> upDown == GradientToUpDown(mode, old(gradient.values[0]))
                                      && ignoreCounter == 0 && valueChangedEvents == old(valueChangedEvents) + 1)
                && (outcome.Fail? ==> upDown == old(upDown) && ignoreCounter == 1
                                      && valueChangedEvents == old(valueChangedEvents))
    {
      outcome := Pass;
      if ignoreCounter != 0 {
        return;
      }
      ignoreCounter := ignoreCounter + 1;
      match sender {
        case FromGradient =>
          var value := GradientToUpDown(mode, gradient.values[0]);
          if upDown != value {
            outcome := SetValue(value);
            if outcome.Fail? {
              return;
            }
          }
        case FromUpDown =>
          var value := UpDownToGradient(mode, upDown);
          if gradient.values[0] != value {
            var before := gradient.valueChangedEvents;
            var setOutcome := gradient.SetValue(0, value);
            if gradient.valueChangedEvents != before {
              var nested := OnValueChanged(FromGradient);
            }
          }
      }
      valueChangedEvents := valueChangedEvents + 1;
      ignoreCounter := ignoreCounter - 1;
    }
  }

  /** Typing a value into a valid slider places the track handle at its scaled position. */
  method TypeIntoBox(s: ColorSlider, n: int) returns (outcome: Outcome)
    requires s.Valid() && s.ignoreCounter == 0 && n != s.upDown && 0 <= n <= ModeMaximum(s.mode)
    modifies s, s.gradient.values, s.gradient`valueChangedEvents
    ensures outcome == Pass && s.Valid() && s.upDown == n
    ensures s.gradient.values[..] == [UpDownToGradient(s.mode, n)]
    ensures s.gradient.orientation == old(s.gradient.orientation) && s.gradient.tracking == old(s.gradient.tracking)
    ensures s.gradient.highlight == old(s.gradient.highlight) && s.gradient.customGradient == old(s.gradient.customGradient)
  {
    outcome := s.SetValue(n);
  }
}
