/**
 * The pure arithmetic of the multi-handle gradient track: C# integer division,
 * the pixel/value mapping, the even spread of handles, neighbour clamping and
 * nearest-handle search.
 */
module GradientTrack {
  import opened Failures
  import opened NumberHelpers

  /** Size of the marker triangles drawn at each handle, and its half length. */
  const TriangleSize: int := 7
  const TriangleHalfLength: int := (TriangleSize - 1) / 2

  /** `int.MaxValue`, the initial best distance of the nearest-handle search. */
  const IntMaxValue: int := 0x7fff_ffff

  /** The most handles a track may have. */
  const MaxCount: int := 16

  datatype Orientation = Horizontal | Vertical

  function Abs(x: int): int { if x < 0 then -x else x }

  /** C# `/` on ints: the quotient is truncated toward zero. */
  function TruncDiv(a: int, b: int): (q: int)
    requires b != 0
    ensures a >= 0 && b > 0 ==> q == a / b
  {
    if b > 0 then (if a >= 0 then a / b else -((-a) / b))
    else (if a >= 0 then -(a / (-b)) else (-a) / (-b))
  }

  /** Truncation is symmetric: negating the dividend negates the quotient, unlike Euclidean division. */
  lemma TruncDivOdd(a: int, b: int)
    requires b != 0
    ensures TruncDiv(-a, b) == -TruncDiv(a, b)
    ensures TruncDiv(a, -b) == -TruncDiv(a, b)
  {
  }

  /** Euclidean and truncating division differ on a negative dividend: -7 / 2 is -3, not -4. */
  lemma TruncDivNegative()
    ensures TruncDiv(-7, 2) == -3 && -7 / 2 == -4
  {
  }

  lemma MulLeCancel(d: int, a: int, b: int)
    requires d > 0 && d * a <= d * b
    ensures a <= b
  {
  }

  lemma MulLtCancel(d: int, a: int, b: int)
    requires d > 0 && d * a < d * b
    ensures a < b
  {
  }

  lemma {:induction false} MulMono(a: int, b: int, c: int)
    requires a <= b && c >= 0
    ensures a * c <= b * c
  {
    assert b * c - a * c == (b - a) * c;
  }

  lemma DivBounds(x: int, d: int)
    requires d > 0
    ensures d * (x / d) <= x < d * (x / d) + d
  {
  }

  lemma {:induction false} MulDivCancel(n: int, k: int)
    requires n > 0
    ensures (n * k) / n == k && (k * n) / n == k
  {
    var q := (n * k) / n;
    DivBounds(n * k, n);
    MulLeCancel(n, q, k);
    assert n * (q + 1) == n * q + n;
    MulLtCancel(n, k, q + 1);
    assert k * n == n * k;
  }

  /** `x * m / d` stays in [0, m] for 0 <= x <= d. */
  lemma {:induction false} ScaleBounds(x: int, m: int, d: int)
    requires 0 <= x <= d && d > 0 && m >= 0
    ensures 0 <= (x * m) / d <= m
  {
    var q := (x * m) / d;
    DivBounds(x * m, d);
    assert x * m <= d * m;
    MulLeCancel(d, q, m);
    assert 0 <= x * m;
    MulLtCancel(d, -1, q);
  }

  /**
   * Scaling x by a/b and back by b/a (each with a truncating division) never
   * gains, and loses less than 1 + b/a.
   */
  lemma {:induction false} ScaleRoundTrip(x: int, a: int, b: int)
    requires x >= 0 && a > 0 && b > 0
    ensures ((((x * a) / b) * b) / a) <= x
    ensures a * (x - ((((x * a) / b) * b) / a)) < a + b
  {
    var k := (x * a) / b;
    DivBounds(x * a, b);
    var back := (k * b) / a;
    DivBounds(k * b, a);
    assert a * back <= a * x;
    MulLeCancel(a, back, x);
    assert a * back > x * a - b - a;
  }

  /** Scaling a value by d/255 and back by 255/d never overshoots, and loses at most one unit when d >= 255. */
  lemma {:induction false} ScaleDownUp(v: int, d: int)
    requires 0 <= v <= 255 && d > 0
    ensures 0 <= (v * d) / 255 <= d
    ensures (((v * d) / 255) * 255) / d <= v
    ensures d >= 255 ==> v - 1 <= (((v * d) / 255) * 255) / d
  {
    var k := (v * d) / 255;
    DivBounds(v * d, 255);
    MulMono(0, v, d);
    MulMono(v, 255, d);
    assert 0 <= v * d <= 255 * d;
    MulLtCancel(255, -1, k);
    MulLeCancel(255, k, d);
    var back := (k * 255) / d;
    DivBounds(k * 255, d);
    assert k * 255 == 255 * k && v * d == d * v;
    assert d * back <= d * v;
    MulLeCancel(d, back, v);
    if d >= 255 {
      assert d * back > 255 * k - d;
      assert 255 * k > d * v - 255;
      assert d * (v - 2) == d * v - 2 * d;
      assert d * (v - 2) < d * back;
      MulLtCancel(d, v - 2, back);
    }
  }

  /** Scaling an index by 255/d and back by d/255 lands on it or one below, when d <= 255. */
  lemma {:induction false} ScaleUpDown(j: int, d: int)
    requires 0 < d <= 255 && 0 <= j <= d
    ensures 0 <= (j * 255) / d <= 255
    ensures j - 1 <= ((((j * 255) / d) * d) / 255) <= j
  {
    ScaleBounds(j, 255, d);
    var val := (j * 255) / d;
    DivBounds(j * 255, d);
    var w := (val * d) / 255;
    DivBounds(val * d, 255);
    assert 255 * w <= 255 * j;
    MulLeCancel(255, w, j);
    assert 255 * w > j * 255 - d - 255;
    assert 255 * (j - 2) < 255 * w;
    MulLtCancel(255, j - 2, w);
  }

  /**
   * `PositionToValue`: a pixel coordinate on an axis of `length` pixels to a
   * track value; 255 at the near inset, 0 at the far inset, reversed when horizontal.
   */
  function PositionToValue(orientation: Orientation, length: int, pos: int): (v: int)
    requires length != TriangleSize
    ensures length > TriangleSize && TriangleHalfLength <= pos <= length - TriangleHalfLength - 1 ==> 0 <= v <= 255
  {
    var d := length - TriangleSize;
    var j := d - (pos - TriangleHalfLength);
    var val := TruncDiv(j * 255, d);
    if d > 0 && 0 <= j <= d then
      ScaleBounds(j, 255, d);
      if orientation == Horizontal then 255 - val else val
    else if orientation == Horizontal then 255 - val else val
  }

  /** `ValueToPosition`: the pixel coordinate at which a value's marker is drawn. */
  function ValueToPosition(orientation: Orientation, length: int, val: int): (pos: int)
    ensures length >= TriangleSize && 0 <= val <= 255 ==> TriangleHalfLength <= pos <= length - TriangleHalfLength - 1
  {
    var v := if orientation == Horizontal then 255 - val else val;
    var d := length - TriangleSize;
    if d >= 0 && 0 <= v <= 255 then
      ScaleBounds(v, d, 255);
      TriangleHalfLength + (d - TruncDiv(v * d, 255))
    else TriangleHalfLength + (d - TruncDiv(v * d, 255))
  }

  /** The end values sit at the insets: 255 at 3 and 0 at length - 4 when vertical, the reverse when horizontal. */
  lemma {:induction false} ValueToPositionEnds(length: int)
    ensures ValueToPosition(Vertical, length, 255) == TriangleHalfLength
    ensures ValueToPosition(Vertical, length, 0) == length - TriangleHalfLength - 1
    ensures ValueToPosition(Horizontal, length, 0) == TriangleHalfLength
    ensures ValueToPosition(Horizontal, length, 255) == length - TriangleHalfLength - 1
  {
    var d := length - TriangleSize;
    MulDivCancel(255, d);
    TruncDivOdd(255 * d, 255);
    assert TruncDiv(255 * d, 255) == d;
  }

  /** The insets map back to the end values. */
  lemma {:induction false} PositionToValueEnds(length: int)
    requires length != TriangleSize
    ensures PositionToValue(Vertical, length, TriangleHalfLength) == 255
    ensures PositionToValue(Vertical, length, length - TriangleHalfLength - 1) == 0
    ensures PositionToValue(Horizontal, length, TriangleHalfLength) == 0
    ensures PositionToValue(Horizontal, length, length - TriangleHalfLength - 1) == 255
  {
    var d := length - TriangleSize;
    if d > 0 {
      MulDivCancel(d, 255);
    } else {
      MulDivCancel(-d, 255);
      assert d * 255 == -((-d) * 255);
      TruncDivOdd((-d) * 255, d);
      TruncDivOdd((-d) * 255, -d);
    }
    assert TruncDiv(d * 255, d) == 255;
  }

  /** With a positive usable length d, the vertical value of pixel `pos` inside the track. */
  lemma {:induction false} PositionToValueInside(length: int, pos: int)
    requires length > TriangleSize && TriangleHalfLength <= pos <= length - TriangleHalfLength - 1
    ensures PositionToValue(Vertical, length, pos)
            == ((length - TriangleSize - (pos - TriangleHalfLength)) * 255) / (length - TriangleSize)
  {
  }

  /** Vertical value -> position -> value never overshoots, and loses at most one unit on a track of 255 pixels or more. */
  lemma {:induction false} VerticalValueRoundTrip(length: int, v: int)
    requires length > TriangleSize && 0 <= v <= 255
    ensures PositionToValue(Vertical, length, ValueToPosition(Vertical, length, v)) <= v
    ensures length - TriangleSize >= 255 ==>
              v - 1 <= PositionToValue(Vertical, length, ValueToPosition(Vertical, length, v))
  {
    var d := length - TriangleSize;
    ScaleDownUp(v, d);
    var k := (v * d) / 255;
    var pos := ValueToPosition(Vertical, length, v);
    assert pos == TriangleHalfLength + (d - k);
    PositionToValueInside(length, pos);
  }

  /** Horizontal value -> position -> value never undershoots, and gains at most one unit on a long track. */
  lemma {:induction false} HorizontalValueRoundTrip(length: int, v: int)
    requires length > TriangleSize && 0 <= v <= 255
    ensures v <= PositionToValue(Horizontal, length, ValueToPosition(Horizontal, length, v))
    ensures length - TriangleSize >= 255 ==>
              PositionToValue(Horizontal, length, ValueToPosition(Horizontal, length, v)) <= v + 1
  {
    VerticalValueRoundTrip(length, 255 - v);
    assert ValueToPosition(Horizontal, length, v) == ValueToPosition(Vertical, length, 255 - v);
  }

  /** Position -> value -> position lands on the same pixel or the next one, for a track of at most 255 pixels. */
  lemma {:induction false} PositionRoundTrip(orientation: Orientation, length: int, pos: int)
    requires TriangleSize < length <= TriangleSize + 255
    requires TriangleHalfLength <= pos <= length - TriangleHalfLength - 1
    ensures pos <= ValueToPosition(orientation, length, PositionToValue(orientation, length, pos)) <= pos + 1
  {
    var d := length - TriangleSize;
    var j := d - (pos - TriangleHalfLength);
    ScaleUpDown(j, d);
    PositionToValueInside(length, pos);
    var val := (j * 255) / d;
    assert PositionToValue(Vertical, length, pos) == val;
    var w := (val * d) / 255;
    assert ValueToPosition(Vertical, length, val) == TriangleHalfLength + (d - w);
    assert ValueToPosition(Horizontal, length, 255 - val) == TriangleHalfLength + (d - w);
  }

  /** The handle values of a track of `count` handles, spread evenly by integer division. */
  function EvenSpread(count: int): (s: seq<int>)
    requires 0 <= count <= MaxCount
    ensures |s| == count
  {
    seq(count, i requires 0 <= i < count => if count > 1 then i * 255 / (count - 1) else 128)
  }

  /** Strictly increasing from one handle to the next. */
  predicate StrictlyIncreasing(s: seq<int>) {
    forall i :: 0 < i < |s| ==> s[i - 1] < s[i]
  }

  /** The track invariant: handles strictly ordered and all within [0, 255]. */
  predicate Ordered(s: seq<int>) {
    StrictlyIncreasing(s) && forall i :: 0 <= i < |s| ==> 0 <= s[i] <= 255
  }

  lemma {:induction false} DivStep(i: int, d: int)
    requires 0 <= i && 1 <= d <= 255
    ensures (i * 255) / d < ((i + 1) * 255) / d
  {
    var a := i * 255;
    var b := (i + 1) * 255;
    assert b == a + 255;
    var q := a / d;
    DivBounds(a, d);
    DivBounds(b, d);
    assert d * (q + 1) == d * q + d;
    assert d * (b / d + 1) == d * (b / d) + d;
    MulLtCancel(d, q + 1, b / d + 1);
  }

  /** Count n > 1 gives 0 first, 255 last, strictly increasing; 1 gives [128]; 0 gives []. */
  lemma {:induction false} EvenSpreadShape(count: int)
    requires 0 <= count <= MaxCount
    ensures count == 0 ==> EvenSpread(count) == []
    ensures count == 1 ==> EvenSpread(count) == [128]
    ensures count > 1 ==> EvenSpread(count)[0] == 0 && EvenSpread(count)[count - 1] == 255
    ensures Ordered(EvenSpread(count))
  {
    var s := EvenSpread(count);
    if count == 1 {
      assert s == [128];
    } else if count > 1 {
      var d := count - 1;
      assert forall i :: 0 <= i < count ==> s[i] == (i * 255) / d;
      assert s[0] == 0;
      MulDivCancel(d, 255);
      assert s[count - 1] == 255;
      forall i | 0 < i < count ensures s[i - 1] < s[i] {
        DivStep(i - 1, d);
      }
      forall i | 0 <= i < count ensures 0 <= s[i] <= 255 {
        ScaleBounds(i, 255, d);
        assert i * 255 == 255 * i;
      }
    }
  }

  /**
   * The value `SetValue` stores: `val` clamped strictly between its neighbours,
   * with -1 and 256 standing in for missing neighbours.
   */
  function ClampToNeighbours(s: seq<int>, index: int, val: int): (r: int)
    requires Ordered(s) && 0 <= index < |s|
    ensures 0 <= r <= 255
    ensures index > 0 ==> s[index - 1] < r
    ensures index + 1 < |s| ==> r < s[index + 1]
  {
    var min := if index - 1 >= 0 then s[index - 1] else -1;
    var max := if index + 1 < |s| then s[index + 1] else 256;
    assert min + 1 <= s[index] <= max - 1 by {
      if 0 < index { assert s[index - 1] < s[index]; }
      if index + 1 < |s| { assert s[index] < s[index + 1]; }
    }
    Clamp(val, min + 1, max - 1).value
  }

  /** The handles after `SetValue(index, val)` on a valid index. */
  function Assign(s: seq<int>, index: int, val: int): (t: seq<int>)
    requires Ordered(s) && 0 <= index < |s|
    ensures |t| == |s| && 0 <= t[index] <= 255
    ensures forall j :: 0 <= j < |s| && j != index ==> t[j] == s[j]
    ensures s[index] == val ==> t == s
  {
    if s[index] != val then s[index := ClampToNeighbours(s, index, val)] else s
  }

  /**
   * `SetValue` keeps the track ordered and in range, leaves every other handle
   * alone, and stores `val` itself whenever it fits between the neighbours.
   */
  lemma {:induction false} AssignKeepsOrder(s: seq<int>, index: int, val: int)
    requires Ordered(s) && 0 <= index < |s|
    ensures Ordered(Assign(s, index, val))
    ensures (index == 0 || s[index - 1] < val) && (index + 1 == |s| || val < s[index + 1]) && 0 <= val <= 255
            ==> Assign(s, index, val)[index] == val
  {
    var t := Assign(s, index, val);
    forall i | 0 < i < |t| ensures t[i - 1] < t[i] {
      assert s[i - 1] < s[i];
    }
  }

  /** Dragging the middle of [0, 128, 255] to 255 stops it at 254. */
  lemma DragStopsBeforeNeighbour()
    ensures Assign([0, 128, 255], 1, 255) == [0, 254, 255]
  {
  }

  /**
   * `best` is what `WhichTriangle` answers: -1 when no handle is nearer than
   * `int.MaxValue`, otherwise the first index of least distance to `v`.
   */
  ghost predicate IsNearest(s: seq<int>, v: int, best: int) {
    if forall i :: 0 <= i < |s| ==> Abs(s[i] - v) >= IntMaxValue then best == -1
    else
      && 0 <= best < |s|
      && (forall i :: 0 <= i < |s| ==> Abs(s[best] - v) <= Abs(s[i] - v))
      && (forall i :: 0 <= i < best ==> Abs(s[best] - v) < Abs(s[i] - v))
  }

  /**
   * One step of the scan: appending x keeps the answer, unless x is strictly
   * nearer than the best distance so far, which is `IntMaxValue` while there
   * is no answer yet.
   */
  lemma {:induction false} NearestStep(s: seq<int>, v: int, best: int, bestDistance: int, x: int)
    requires IsNearest(s, v, best) && -1 <= best < |s|
    requires best == -1 ==> bestDistance == IntMaxValue
    requires best != -1 ==> bestDistance == Abs(s[best] - v)
    ensures IsNearest(s + [x], v, if Abs(x - v) < bestDistance then |s| else best)
  {
    var t := s + [x];
    assert forall i :: 0 <= i < |s| ==> t[i] == s[i];
    if best == -1 {
      assert forall i :: 0 <= i < |s| ==> Abs(s[i] - v) >= IntMaxValue;
    }
  }

  /** The nearest-handle answer is unique. */
  lemma {:induction false} NearestUnique(s: seq<int>, v: int, a: int, b: int)
    requires IsNearest(s, v, a) && IsNearest(s, v, b)
    ensures a == b
  {
    if a != -1 {
      assert Abs(s[a] - v) <= Abs(s[b] - v) && Abs(s[b] - v) <= Abs(s[a] - v);
    }
  }

  /** With handles in [0, 255] and a value of realistic size, there is no handle exactly when there is no answer. */
  lemma {:induction false} NearestNoneIffEmpty(s: seq<int>, v: int, best: int)
    requires Ordered(s) && Abs(v) <= 0x4000_0000
    requires IsNearest(s, v, best)
    ensures best == -1 <==> |s| == 0
  {
    if |s| > 0 {
      assert Abs(s[0] - v) < IntMaxValue;
    }
  }
}
