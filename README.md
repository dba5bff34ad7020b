# ColorPicker core in Dafny

This project models the logic core of the ColorPicker WinForms widget set. The core has six parts:

- **ColorRgb / ColorHsv.** Two colour types with range-checked constructors, and the hexcone RGB↔HSV conversions. The conversions use six 60° sectors and truncate onto the integer grids 0..255 and 0..360/0..100.
- **NumberHelpers.** The integer clamps, `ClampInternal`, `Clamp(Int32)` and `ClampToByte(Int32)`.
- **ColorGradient.** A track of 0–16 handle values, modelled as a class over an `array<int>`:
  - `Count` rebuilds the array with an even spread;
  - `SetValue` clamps one handle strictly between its neighbours;
  - pixel positions map to values and back with C# truncating division;
  - `WhichTriangle` finds the nearest handle;
  - the mouse handlers drive the dragging (`_Tracking`) and hover (`_Highlight`) state;
  - `CustomGradient` stores and hands out private copies.
- **ColorSlider.** A numeric up-down box and a one-handle gradient, kept in step through the Channel/Degrees/Total scaling. A re-entrancy counter swallows the notifications that its own writes cause. Nested notifications are real nested calls in the model.
- **ColorDialog.** Seven sliders (red, green, blue, alpha, hue, saturation, value) and the colour wheel, kept consistent by the two change handlers. They run under a push/pop "ignore changed events" counter. Each slider's end colours or custom gradient are derived from the current colour.

Modules:

- `Failures`: exceptions as `Result`/`Outcome` values.
- `NumberHelpers`, `ColorSpace` and `ColorSpaceProps`.
- `GradientTrack`: the pure track arithmetic.
- `Gradient`: the `ColorGradient` class.
- `Slider`: the mapping functions and the `ColorSlider` class.
- `Dialog`: the `ColorDialog` class over a `Panel` record of slider views.

Modelling choices:

- **Doubles.** The conversions only ever divide small integers, so they are exact `real` arithmetic. The C# `(int)` cast is `ColorSpace.Trunc`, truncation toward zero.
- **Integer division.** C# `/` on ints is `GradientTrack.TruncDiv`, because `PositionToValue` can see negative numerators.
- **Exceptions.** A thrown exception is an `Err`/`Fail` value that names the parameter the C# code names.
- **Wiring.** The designer files are not modelled; the model assumes this wiring:
  - the up-down box's and the gradient's `ValueChanged` call `ColorSlider.OnValueChanged`;
  - each dialog slider's `ValueChanged` calls `OnColorSliderValueChanged`;
  - the wheel's colour change calls `OnWheelColorChanged`;
  - the dialog's red, green, blue and alpha sliders run in Channel mode, hue in Degrees, saturation and value in Total.
- **Dialog sliders.** A dialog slider is a `SliderView` value. It holds the slider's value, its end colours, its custom gradient and a count of the `ValueChanged` events it has raised.
- **Wheel.** The wheel is its `Hsv` colour. Setting a different colour notifies the dialog.

Facts about the code that the model keeps:

- HSV (120, 50, 50) converts to RGB (63, 127, 63), not (64, 128, 64). Channels are truncated after multiplying by 255 (`ColorSpaceProps.ToRgbTruncates`).
- RGB→HSV→RGB is exact for the eight canonical colours. It is not within 1 per channel in general: (5, 5, 5) comes back as (2, 2, 2) (`ColorSpaceProps.RoundTripLoss`). What holds is a loss of 0 to 3 on the largest channel (`ColorSpaceProps.RoundTripMaxChannel`).
- An alpha-slider change does nothing in `OnColorSliderValueChanged`: no branch handles it, so the alpha slider's top colour is not refreshed.
- The position/value mappings are not within one unit over the whole axis range. Pixel → value → pixel is proved within one pixel on tracks of at most 262 pixels (a usable length of 255). Value → pixel → value is proved within one unit on tracks of at least that length. Otherwise only the direction of the error is stated.

## Model

| member | source | states |
|---|---|---|
| NumberHelpers.ClampInternal | NumberHelpers.cs:25-44 | An `InvalidArgument("min")` error exactly when min > max. Otherwise the result is in [min, max]: min below the range, max above it, the value itself inside it |
| NumberHelpers.Clamp | NumberHelpers.cs:71-74 | The Int32 overload is `ClampInternal` on ints, and succeeds exactly when min <= max |
| NumberHelpers.ClampToByte | NumberHelpers.cs:76-79 | The result is in [0, 255]. It is the identity on [0, 255], 0 below and 255 above |
| NumberHelpers.ClampIdempotent | NumberHelpers.cs:25-44 | Clamping an already clamped value returns it unchanged |
| NumberHelpers.ClampMonotone | NumberHelpers.cs:33-43 | Clamping preserves the order of its inputs |
| ColorSpace.NewRgb | ColorRgb.cs:31-51 | Succeeds exactly when all channels are in [0, 255], storing them unchanged. Otherwise the range error names the first bad channel, checking r, then g, then b |
| ColorSpace.NewHsv | ColorHsv.cs:53-73 | Succeeds exactly when hue is in [0, 360] and saturation and value are in [0, 100]. Otherwise the range error names the first bad field in that order |
| ColorSpace.HsvEquals | ColorHsv.cs:30-36 | `==` holds exactly when the two colours are equal field by field |
| ColorSpace.HsvNotEquals | ColorHsv.cs:38-41 | `!=` holds exactly when the colours differ |
| ColorSpace.Trunc | ColorRgb.cs:122 | The C# `(int)` cast truncates toward zero: the result is the integer part, toward 0 on either side |
| ColorSpace.HueSixths | ColorRgb.cs:93-107 | Whichever channel's branch is taken, the hue of a chromatic colour in sixths of a turn lies in [-1, 5] |
| ColorSpace.Degrees | ColorRgb.cs:113-118 | Scaling by 60 and adding 360 to a negative angle always yields an angle in [0, 360) |
| ColorSpace.SaturationFraction | ColorRgb.cs:82-92 | The saturation fraction always lies in [0, 1], so the percentage fits the HSV range |
| ColorSpace.HueDegrees | ColorRgb.cs:82-118 | The hue before truncation is in [0, 360) |
| ColorSpace.ToHsv | ColorRgb.cs:63-123 | A valid RGB colour converts to a valid HSV colour whose hue is below 360, so the HSV constructor never throws |
| ColorSpace.Sector | ColorHsv.cs:112-113 | The sector index is floor(h / 60), in 0..5 |
| ColorSpace.Intermediates | ColorHsv.cs:122-124 | p, q and t all lie between 0 and v |
| ColorSpace.SectorChannels | ColorHsv.cs:110-177 | Every channel a sector assigns lies in [0, v], and one of them is v itself |
| ColorSpace.ToRgb | ColorHsv.cs:86-183 | A valid HSV colour converts to channels in [0, 255], so the RGB constructor never throws |
| ColorSpaceProps.ToHsvValue | ColorRgb.cs:77-122 | Value is floor(max(R, G, B) * 100 / 255) |
| ColorSpaceProps.AchromaticIff | ColorRgb.cs:82-89 | The achromatic branch is taken exactly when the largest and smallest channels are equal |
| ColorSpaceProps.ToHsvSaturation | ColorRgb.cs:82-122 | Saturation is 0 when all channels are equal, and floor((max - min) * 100 / max) otherwise |
| ColorSpaceProps.ToHsvGray | ColorRgb.cs:82-89 | A gray (x, x, x), black included, has hue 0 and saturation 0, and value floor(100x / 255) |
| ColorSpaceProps.TieBreakImmaterial | ColorRgb.cs:93-107 | When two channels share the maximum, either branch gives the same angle in degrees, so the red-over-green-over-blue order never changes the hue |
| ColorSpaceProps.ToRgbGray | ColorHsv.cs:100-107 | Saturation 0 gives a gray whose three channels all equal floor(Value * 255 / 100) |
| ColorSpaceProps.WhiteFromHsv | ColorHsv.cs:100-107 | HSV (0, 0, 100) is white |
| ColorSpaceProps.ToRgbHue360 | ColorHsv.cs:96 | Hue 360 converts exactly like hue 0 |
| ColorSpaceProps.ToRgbMaxChannel | ColorHsv.cs:122-182 | The largest output channel is floor(Value * 255 / 100) |
| ColorSpaceProps.ToRgbTruncates | ColorHsv.cs:182 | Channels are truncated, not rounded: (120, 50, 50) gives (63, 127, 63) |
| ColorSpaceProps.GraysToHsv | ColorRgb.cs:82-89 | Black is HSV (0, 0, 0) and white is (0, 0, 100) |
| ColorSpaceProps.PrimariesToHsv | ColorRgb.cs:93-122 | Red, green and blue are HSV (0/120/240, 100, 100) |
| ColorSpaceProps.SecondariesToHsv | ColorRgb.cs:93-122 | Yellow, cyan and magenta are HSV (60/180/300, 100, 100) |
| ColorSpaceProps.FullHueAtSectorStart | ColorHsv.cs:112-177 | At hue 60k with full saturation and value, sector k assigns its (v, t, p), (q, v, p), … pattern with p = t = 0 and q = 1 |
| ColorSpaceProps.CanonicalToRgb | ColorHsv.cs:128-177 | The HSV forms of the eight canonical colours convert back to those colours |
| ColorSpaceProps.CanonicalRoundTrips | ColorRgb.cs:63-122 | Black, white, the primaries and the secondaries survive RGB→HSV→RGB unchanged |
| ColorSpaceProps.RoundTripMaxChannel | ColorRgb.cs:79-122 | The round trip's largest channel is floor(floor(100m / 255) * 255 / 100), within 3 below the original maximum m and never above it |
| ColorSpaceProps.RoundTripLoss | ColorRgb.cs:122 | (5, 5, 5) becomes HSV (0, 0, 1) and comes back as (2, 2, 2) |
| GradientTrack.TruncDiv | ColorGradient.cs:617 | C# int division agrees with Euclidean division on non-negative operands |
| GradientTrack.TruncDivOdd | ColorGradient.cs:617 | Negating the dividend or the divisor negates the quotient |
| GradientTrack.TruncDivNegative | ColorGradient.cs:617 | On a negative dividend it differs from Euclidean division: -7 / 2 is -3 |
| GradientTrack.PositionToValue | ColorGradient.cs:593-625 | A pointer inside the inset track, pixels 3 to length - 4 of a track longer than 7 pixels, maps to a value in [0, 255] |
| GradientTrack.ValueToPosition | ColorGradient.cs:627-658 | A value in [0, 255] on a track of at least 7 pixels maps to a pixel inside the inset track, 3 to length - 4 |
| GradientTrack.ValueToPositionEnds | ColorGradient.cs:627-658 | Vertically 255 is drawn at pixel 3 and 0 at length - 4. Horizontally it is the reverse |
| GradientTrack.PositionToValueEnds | ColorGradient.cs:593-625 | The two inset pixels map back to 255 and 0 (vertical) or 0 and 255 (horizontal), for any axis length but 7 |
| GradientTrack.PositionToValueInside | ColorGradient.cs:593-625 | Inside a track longer than 7 pixels, the truncating division is plain integer division |
| GradientTrack.VerticalValueRoundTrip | ColorGradient.cs:593-658 | Vertically, value → pixel → value never overshoots. It loses at most 1 when the usable length is at least 255 |
| GradientTrack.HorizontalValueRoundTrip | ColorGradient.cs:593-658 | Horizontally, value → pixel → value never undershoots. It gains at most 1 when the usable length is at least 255 |
| GradientTrack.PositionRoundTrip | ColorGradient.cs:593-658 | Pixel → value → pixel lands on the same pixel or the next one, when the usable length is at most 255 |
| GradientTrack.EvenSpread | ColorGradient.cs:158-170 | The spread for `Count` n has n handles |
| GradientTrack.EvenSpreadShape | ColorGradient.cs:158-170 | n > 1 handles run from 0 to 255, strictly increasing; one handle is 128; zero handles is empty. The result always satisfies the track invariant |
| GradientTrack.ClampToNeighbours | ColorGradient.cs:190-210 | The stored value is in [0, 255] and strictly between the existing neighbours |
| GradientTrack.Assign | ColorGradient.cs:190-214 | The value stored by `SetValue`: same length, no other handle changes, the stored handle lies in [0, 255], and assigning the value already held changes nothing |
| GradientTrack.AssignKeepsOrder | ColorGradient.cs:198-213 | `SetValue` keeps the track strictly ordered and in range, and changes no other handle. It stores the value itself whenever it fits between the neighbours |
| GradientTrack.DragStopsBeforeNeighbour | ColorGradient.cs:208-210 | Moving the middle of [0, 128, 255] to 255 stops it at 254 |
| GradientTrack.NearestStep | ColorGradient.cs:666-675 | One iteration of the scan keeps the answer correct for the prefix it has seen. Only a strictly nearer handle replaces the best, so ties keep the first index |
| GradientTrack.NearestUnique | ColorGradient.cs:660-678 | The nearest-handle answer is unique |
| GradientTrack.NearestNoneIffEmpty | ColorGradient.cs:660-678 | On a valid track the answer is -1 exactly when there are no handles |
| Gradient.ColorGradient.constructor | ColorGradient.cs:269-275 | A new track is vertical, red to blue, with no custom gradient, one handle at 128 and nothing tracked or highlighted |
| Gradient.ColorGradient.SetCount | ColorGradient.cs:151-175 | A count outside [0, 16] throws and changes nothing. Otherwise a fresh array holds the even spread, `ValueChanged` is raised once and the track stays ordered |
| Gradient.ColorGradient.GetValue | ColorGradient.cs:178-186 | A range error naming "index" exactly when the index is outside the array. Otherwise the stored handle |
| Gradient.ColorGradient.SetValue | ColorGradient.cs:188-216 | A range error exactly for a bad index, changing nothing. Otherwise the handles become `Assign(old, index, val)`, with `ValueChanged` raised only when val differs from the stored value |
| Gradient.ColorGradient.WhichTriangle | ColorGradient.cs:660-678 | The result is the first handle nearest to the value under the pixel, or -1 when none is nearer than `int.MaxValue` |
| Gradient.ColorGradient.OrientedValue | ColorGradient.cs:710-735 | The pointer's coordinate along the track's axis: x horizontally, y vertically |
| Gradient.ColorGradient.OnMouseMove | ColorGradient.cs:737-759 | While dragging a valid handle, that handle becomes `Assign(old, tracking, pointer value)`, `ValueChanged` is raised once exactly when the value differs, and the highlight stays. A tracked index past the end is a range error that changes nothing. Otherwise the handles and events are untouched and the highlight becomes the nearest handle |
| Gradient.ColorGradient.OnMouseDown | ColorGradient.cs:680-691 | A left press tracks the handle nearest the pointer. If one is hit, it becomes `Assign(old, tracking, pointer value)`, `ValueChanged` is raised once exactly when the value differs, and the highlight stays. If none is hit, the highlight is cleared and nothing else changes. Other buttons change nothing |
| Gradient.ColorGradient.OnMouseUp | ColorGradient.cs:693-703 | A left release applies the final move of the tracked handle (one `ValueChanged` exactly when it changes), then stops tracking. When that move throws because the tracked index is past the end, tracking is left as it was and nothing changes. An untracked release leaves the handles alone and highlights the nearest one. Other buttons change nothing |
| Gradient.ColorGradient.OnMouseLeave | ColorGradient.cs:761-766 | The highlight is cleared |
| Gradient.ColorGradient.SetCustomGradient | ColorGradient.cs:107-122 | Handing back the stored array changes nothing. Null clears the gradient. Any other array is stored as a fresh copy |
| Gradient.ColorGradient.GetCustomGradient | ColorGradient.cs:97-105 | Null, or a fresh copy of the stored colours |
| Gradient.EvenSpreadArray | ColorGradient.cs:158-170 | The array that `Count` fills in its loop is fresh and holds the even spread |
| Gradient.CloneColors | ColorGradient.cs:104 | `Array.Clone` returns a fresh array with the same colours |
| Gradient.CustomGradientIsPrivate | ColorGradient.cs:107-122 | Writing the caller's array after handing it over leaves the track's custom gradient unchanged |
| Slider.ModeMaximum | ColorSlider.cs:70-101 | The maximum set for a mode is 255 exactly in Channel mode, and always between 100 and 360 |
| Slider.GradientToUpDown | ColorSlider.cs:187-211 | A track value in [0, 255] maps into the mode's range, unchanged in Channel mode |
| Slider.UpDownToGradient | ColorSlider.cs:223-247 | A box value in the mode's range maps into [0, 255], unchanged in Channel mode |
| Slider.MappingEnds | ColorSlider.cs:187-247 | Both mappings send the ends of one range to the ends of the other |
| Slider.GradientRoundTrip | ColorSlider.cs:183-254 | Track → box → track never gains. It is exact in Channel mode and loses at most 1 in Degrees and 3 in Total |
| Slider.UpDownRoundTrip | ColorSlider.cs:183-254 | Box → track → box never gains. It is exact in Channel mode and loses at most 2 in Degrees and 1 in Total |
| Slider.DegreesLoseTwo | ColorSlider.cs:195-235 | The Degrees bound is reached: 4° maps to track 2, which reads back as 2° |
| Slider.ColorSlider.constructor | ColorSlider.cs:28-32 | A new slider is a Channel slider with range 0..255 and step 1, showing 0, with its track handle at 128 |
| Slider.ColorSlider.SetValue | ColorSlider.cs:104-115 | Only a different value is assigned. An out-of-range one throws, changing nothing. Otherwise, with the counter at zero, the track handle moves to the mapped value and `ValueChanged` is raised once |
| Slider.ColorSlider.SetMode | ColorSlider.cs:70-101 | The range becomes the mode's (0..255, 0..360, 0..100) with step 1. A value above the new maximum is pulled down to it, notifying under the old mode |
| Slider.ColorSlider.OnValueChanged | ColorSlider.cs:174-261 | With the counter non-zero nothing happens. Otherwise the other control gets the mapped value, `ValueChanged` is raised once and the counter returns to its entry value. A throwing box write leaves the counter raised |
| Slider.TypeIntoBox | ColorSlider.cs:219-254 | Typing an in-range value into an idle slider places the track handle at its scaled position. The track's orientation, tracking, highlight and custom gradient are untouched |
| Dialog.Assigned | ColorSlider.cs:104-115 | A slider's `Value` setter stores the value and changes the slider exactly when the value differs |
| Dialog.AssignedIdempotent | ColorSlider.cs:104-115 | Assigning the value a slider already shows changes nothing |
| Dialog.ValidViewsByMode | ColorSlider.cs:70-101 | The dialog's slider invariant is exactly: each slider's value lies in its mode's range |
| Dialog.HueRamp | ColorDialog.cs:147-155 | The hue gradient has 361 entries |
| Dialog.SaturationRamp | ColorDialog.cs:157-165 | The saturation gradient has 101 entries |
| Dialog.HueRampShape | ColorDialog.cs:147-155 | The hue gradient starts and ends at pure red, and every entry has a channel at 255 |
| Dialog.SaturationRampShape | ColorDialog.cs:157-165 | The saturation gradient starts at the gray of value v, and every entry peaks at that gray level |
| Dialog.WithRgbBounds | ColorDialog.cs:68-76 | Red spans (0,g,b)–(255,g,b), green (r,0,b)–(r,255,b) and blue (r,g,0)–(r,g,255). No slider value and no other slider changes |
| Dialog.WithAlphaBound | ColorDialog.cs:79-101 | The alpha slider's top colour becomes the current RGB slider triple. Nothing else changes |
| Dialog.WithHsvBounds | ColorDialog.cs:145-169 | The hue slider gets the hue ramp, saturation the ramp at (h, v), and value the ends HSV(h, s, 0)/HSV(h, s, 100). Nothing else changes |
| Dialog.WithRgbValues | ColorDialog.cs:103-122 | The RGB sliders show (r, g, b) and no other slider changes. It is a no-op when they already do |
| Dialog.WithHsvValues | ColorDialog.cs:124-143 | The HSV sliders show (h, s, v) and no other slider changes. It is a no-op when they already do |
| Dialog.RgbLeadDecorates | ColorDialog.cs:203-218 | The RGB branch's steps leave the HSV sliders at the RGB colour's HSV form with every decoration matching |
| Dialog.HsvLeadDecorates | ColorDialog.cs:226-249 | The HSV branch's steps leave the RGB sliders at the HSV colour's RGB form with every decoration matching |
| Dialog.WheelLeadDecorates | ColorDialog.cs:264-302 | The wheel handler's steps leave both slider groups showing the wheel colour, alpha unchanged and every decoration matching |
| Dialog.ByteCast | ColorDialog.cs:266-270 | `(byte)x` lies in [0, 255], agrees with x modulo 256, and is the identity on bytes |
| Dialog.ColorDialog.constructor | ColorDialog.cs:27-31 | Setting the wheel to white leaves the dialog consistent and showing white: HSV (0, 0, 100), RGB (255, 255, 255) |
| Dialog.ColorDialog.WheelColor | ColorDialog.cs:35-42 | The getter returns the wheel's RGB form and the alpha slider's value; its byte clamps never bite |
| Dialog.ColorDialog.SetWheelColor | ColorDialog.cs:44-48 | The wheel holds the colour's HSV form and alpha its alpha. The getter then returns the colour's HSV round trip. With the counter at zero and a changed wheel, the dialog is led by the wheel |
| Dialog.ColorDialog.SetSliderValue | ColorSlider.cs:104-115 | A dialog slider's value write notifies the dialog only when it changes the value. An RGB write leaves the dialog led by RGB, an HSV write by HSV, and an alpha write changes only alpha |
| Dialog.ColorDialog.SetWheel | ColorDialog.cs:234 | A wheel write that changes the colour, with the counter at zero, leaves every slider consistent with the wheel. Alpha is kept |
| Dialog.ColorDialog.SetColorGradientMinMaxColorsRgb | ColorDialog.cs:68-76 | The dialog's sliders become `WithRgbBounds` of the old ones |
| Dialog.ColorDialog.SetColorGradientMinMaxColorsAlpha | ColorDialog.cs:79-101 | The dialog's sliders become `WithAlphaBound` of the old ones; the argument is unused |
| Dialog.ColorDialog.SetColorGradientMinMaxColorsHsv | ColorDialog.cs:145-169 | The dialog's sliders become `WithHsvBounds` of the old ones |
| Dialog.ColorDialog.SetColorGradientValuesRgb | ColorDialog.cs:103-122 | With notifications ignored, the sliders become `WithRgbValues` of the old ones: only differing sliders are assigned |
| Dialog.ColorDialog.SetColorGradientValuesHsv | ColorDialog.cs:124-143 | With notifications ignored, the sliders become `WithHsvValues` of the old ones |
| Dialog.ColorDialog.SyncHsvFromRgb | ColorDialog.cs:171-179 | The HSV sliders, their decorations and the wheel take the colour's HSV form |
| Dialog.ColorDialog.SyncRgbFromHsv | ColorDialog.cs:181-192 | The RGB sliders take the colour's RGB form, then the RGB and alpha decorations follow; the wheel is kept |
| Dialog.ColorDialog.OnColorSliderValueChanged | ColorDialog.cs:194-253 | Ignored while the counter is non-zero, and the counter returns to its entry value. An RGB change leaves HSV and the wheel at ToHsv of the RGB sliders. An HSV change equal to the wheel is a no-op; otherwise the wheel takes it and RGB becomes its ToRgb. An alpha change does nothing. Alpha is always kept |
| Dialog.ColorDialog.RgbSliderChanged | ColorDialog.cs:203-220 | The RGB branch keeps the RGB colour and alpha, and leads with RGB |
| Dialog.ColorDialog.HsvSliderChanged | ColorDialog.cs:221-250 | The HSV branch is a no-op when the sliders match the wheel. Otherwise it keeps the HSV colour and alpha, and leads with HSV |
| Dialog.ColorDialog.OnWheelColorChanged | ColorDialog.cs:255-306 | Ignored while the counter is non-zero. Otherwise the HSV sliders show the wheel, the RGB sliders its ToRgb, alpha is unchanged, every decoration matches and the counter returns to its entry value |
| Dialog.ColorDialog.ShowHsv | ColorDialog.cs:272-274 | The three HSV writes make the sliders `WithHsvValues` of the old ones |
| Dialog.ColorDialog.ShowRgb | ColorDialog.cs:276-280 | The RGB writes and the alpha write make the sliders `WithRgbValues` of the old ones, with alpha assigned |
| Dialog.ColorDialog.DecorateColor | ColorDialog.cs:282-302 | The five decoration calls compose the HSV values and bounds, then the RGB values and bounds, then the alpha bound |
| Dialog.HueColors | ColorDialog.cs:147-155 | The loop fills exactly the hue ramp |
| Dialog.SaturationColors | ColorDialog.cs:157-165 | The loop fills exactly the saturation ramp at (h, v) |

## Left out

- ColorWheel.cs and ColorBox.cs are not part of this model. They hold polar floating-point hit-testing and painting. The wheel is reduced to its HSV colour and its change notification.
- Painting and rendering are not modelled:
  - `DrawGradient`, including the custom-gradient colour blend, and `InvalidateTriangle`;
  - the `Invalidate`/`Update` calls;
  - `Dispose`, `InitializeComponent` and the designer wiring.
- Event delegates are reduced to a count of raised `ValueChanged` events, or to a direct call into the wired handler.
- The float, double and other-width `Clamp` overloads and `Lerp` are not modelled. They are floating point, or repeat the Int32 case.
- `ColorBgra` and `System.Drawing.Color` are not modelled. Colours are `Rgb` values, and alpha is a separate int.
- `ToColor`, `ToString`, `GetHashCode` and `Equals(object)` are not modelled.
- IEEE double rounding is not modelled. The conversions are exact over `real`, so results at a truncation boundary may differ from what doubles produce.
- 32-bit overflow is not modelled. Ints are unbounded. The product `((length - 7) - (pos - 3)) * 255` in `PositionToValue` (ColorGradient.cs:617) overflows once the pointer coordinate is more than about 8.4 million pixels away from the track (int.MaxValue / 255). `Math.Abs` in `WhichTriangle` (ColorGradient.cs:667) throws `OverflowException` on `int.MinValue`.
- `ColorGradient`'s `DrawNearNub` and `DrawFarNub` properties are not modelled: they only choose which handle shapes are drawn. `Orientation` is a field with no setter method; its setter only stores and repaints.
- `ColorGradient`'s `MinColor`/`MaxColor` setters are fields only, with no setter methods, for the same reason.
- `ColorGradient`'s `Value` property is `GetValue(0)`/`SetValue(0, …)`, which the slider calls directly.
- `ColorSlider`'s `Text`, its `MinColor`/`MaxColor`/`CustomGradient` pass-throughs, and its focus and key handlers are not modelled. The dialog keeps those colours in its `SliderView` records.
- Dialog sliders: the model does not nest a full `ColorSlider` object in each dialog slider. Only the value, end colours, custom gradient and `ValueChanged` count are kept.
- Gradient.ColorGradient.WhichTriangle, OnMouseMove, OnMouseDown and OnMouseUp require the track's axis not to be exactly 7 pixels long. The C# division then throws `DivideByZeroException`, and the model does not represent that crash.
- Dialog.ColorDialog.SetColorGradientValuesRgb, SetColorGradientValuesHsv, SyncHsvFromRgb and SyncRgbFromHsv state their resulting sliders only when the counter is raised, which is how the handlers call them. With the counter at zero only validity is stated.
- Slider.ColorSlider.SetValue and OnValueChanged do not model the up-down box's own rounding of decimal values. The box holds integers only.
