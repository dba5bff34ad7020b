/** The integer clamp helpers used by the gradient track and the dialog. */
module NumberHelpers {
  import opened Failures

  /** Clamp `value` into [min, max]; throws when the range is empty. */
  function ClampInternal(value: int, min: int, max: int): (r: Result<int>)
    ensures r.Err? <==> min > max
    ensures r.Err? ==> r.error == InvalidArgument("min")
    ensures r.Ok? ==> min <= r.value <= max
    ensures r.Ok? && value < min ==> r.value == min
    ensures r.Ok? && value > max ==> r.value == max
    ensures r.Ok? && min <= value <= max ==> r.value == value
  {
    if min > max then Err(InvalidArgument("min"))
    else if value < min then Ok(min)
    else if value > max then Ok(max)
    else Ok(value)
  }

  /** The Int32 overload of `Clamp`. */
  function Clamp(value: int, min: int, max: int): (r: Result<int>)
    ensures r == ClampInternal(value, min, max)
    ensures r.Ok? <==> min <= max
  {
    ClampInternal(value, min, max)
  }

  /** `ClampToByte(Int32)`: clamp into the byte range. */
  function ClampToByte(value: int): (b: int)
    ensures 0 <= b <= 255
    ensures 0 <= value <= 255 ==> b == value
    ensures value < 0 ==> b == 0
    ensures value > 255 ==> b == 255
  {
    ClampInternal(value, 0, 255).value
  }

  /** Clamping a value that is already clamped returns it unchanged. */
  lemma ClampIdempotent(value: int, min: int, max: int)
    requires min <= max
    ensures ClampInternal(ClampInternal(value, min, max).value, min, max) == ClampInternal(value, min, max)
  {
  }

  /** Clamping is monotone in the value. */
  lemma ClampMonotone(x: int, y: int, min: int, max: int)
    requires min <= max && x <= y
    ensures ClampInternal(x, min, max).value <= ClampInternal(y, min, max).value
  {
  }
}
