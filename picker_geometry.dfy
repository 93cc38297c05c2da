/** The clamp-and-scale arithmetic of the two pickers.

    The hue picker is a vertical track: only the pointer's vertical offset
    carries information, and the track's height spans hue 0 (top) to 360
    (bottom). The saturation/value picker is a plane: the horizontal offset
    spans saturation 0 to 1 and the vertical offset spans value 1 (top) to 0
    (bottom). Positions are clamped to the picker before they are scaled, and
    the widget divides by the picker sizes without a guard, so every size it
    divides by must be positive. Arithmetic is over `real`; the source's float
    rounding is not modelled. */
module PickerGeometry {

  /** A point in a picker's local coordinates. */
  datatype Vector2 = Vector2(x: real, y: real)

  /** `v` forced into [lo, hi], as the engine's clamp does. */
  function Clamp(v: real, lo: real, hi: real): (r: real)
    requires lo <= hi
    ensures lo <= r <= hi
    ensures lo <= v <= hi ==> r == v
    ensures v < lo ==> r == lo
    ensures hi < v ==> r == hi
  {
    if v < lo then lo else if v < hi then v else hi
  }

  /** `p` lies inside the canvas of the given size (origin at the top-left corner). */
  predicate WithinCanvas(p: Vector2, sizeX: real, sizeY: real)
  {
    0.0 <= p.x <= sizeX && 0.0 <= p.y <= sizeY
  }

  /** Where an indicator asked to go to `p` is placed: clamped to the canvas. */
  function ClampToCanvas(p: Vector2, sizeX: real, sizeY: real): (q: Vector2)
    requires 0.0 <= sizeX && 0.0 <= sizeY
    ensures WithinCanvas(q, sizeX, sizeY)
    ensures WithinCanvas(p, sizeX, sizeY) ==> q == p
    ensures 0.0 <= p.x <= sizeX ==> q.x == p.x
    ensures p.x < 0.0 ==> q.x == 0.0
    ensures sizeX < p.x ==> q.x == sizeX
    ensures 0.0 <= p.y <= sizeY ==> q.y == p.y
    ensures p.y < 0.0 ==> q.y == 0.0
    ensures sizeY < p.y ==> q.y == sizeY
  {
    Vector2(Clamp(p.x, 0.0, sizeX), Clamp(p.y, 0.0, sizeY))
  }

  // ---------------------------------------------------------------------
  // Hue track

  /** The hue selected by a pointer at vertical offset `y` on a track of
      height `sizeY`. Hue 360 is reached at the bottom and is not wrapped. */
  function HueAtTrackPosition(y: real, sizeY: real): (hue: real)
    requires 0.0 < sizeY
    ensures 0.0 <= hue <= 360.0
    ensures hue == 0.0 <==> y <= 0.0
    ensures hue == 360.0 <==> sizeY <= y
  {
    ScaleFacts(Clamp(y, 0.0, sizeY), sizeY, 360.0);
    Clamp(y, 0.0, sizeY) / sizeY * 360.0
  }

  /** The vertical track offset at which a hue is drawn (the inverse scale). */
  function TrackPositionOfHue(hue: real, sizeY: real): (y: real)
    requires 0.0 < sizeY
    ensures 0.0 <= hue <= 360.0 ==> 0.0 <= y <= sizeY
    ensures hue < 0.0 ==> y < 0.0
    ensures 360.0 < hue ==> sizeY < y
  {
    InverseScaleFacts(hue, 360.0, sizeY);
    hue / 360.0 * sizeY
  }

  // ---------------------------------------------------------------------
  // Saturation/value plane

  /** The saturation selected by a pointer at horizontal offset `x` on a
      plane of width `sizeX`. */
  function SaturationAtPlanePosition(x: real, sizeX: real): (s: real)
    requires 0.0 < sizeX
    ensures 0.0 <= s <= 1.0
    ensures s == 0.0 <==> x <= 0.0
    ensures s == 1.0 <==> sizeX <= x
  {
    ScaleFacts(Clamp(x, 0.0, sizeX), sizeX, 1.0);
    Clamp(x, 0.0, sizeX) / sizeX
  }

  /** The value selected by a pointer at vertical offset `y` on a plane of
      height `sizeY`: full value at the top, none at the bottom. */
  function ValueAtPlanePosition(y: real, sizeY: real): (v: real)
    requires 0.0 < sizeY
    ensures 0.0 <= v <= 1.0
    ensures v == 1.0 <==> y <= 0.0
    ensures v == 0.0 <==> sizeY <= y
  {
    ScaleFacts(Clamp(y, 0.0, sizeY), sizeY, 1.0);
    1.0 - Clamp(y, 0.0, sizeY) / sizeY
  }

  /** The horizontal plane offset at which a saturation is drawn. */
  function PlanePositionOfSaturation(s: real, sizeX: real): (x: real)
    requires 0.0 < sizeX
    ensures 0.0 <= s <= 1.0 ==> 0.0 <= x <= sizeX
    ensures s < 0.0 ==> x < 0.0
    ensures 1.0 < s ==> sizeX < x
  {
    InverseScaleFacts(s, 1.0, sizeX);
    s * sizeX
  }

  /** The vertical plane offset at which a value is drawn. */
  function PlanePositionOfValue(v: real, sizeY: real): (y: real)
    requires 0.0 < sizeY
    ensures 0.0 <= v <= 1.0 ==> 0.0 <= y <= sizeY
    ensures v < 0.0 ==> sizeY < y
    ensures 1.0 < v ==> y < 0.0
  {
    InverseScaleFacts(1.0 - v, 1.0, sizeY);
    (1.0 - v) * sizeY
  }

  // ---------------------------------------------------------------------
  // Scaling facts shared by both pickers. Each of the first three lemmas
  // states one fact about multiplying or dividing by a positive size, so
  // that the proofs after them need no nonlinear reasoning of their own.

  /** Dividing by a positive size and multiplying back is the identity. */
  lemma DivMulCancel(t: real, size: real)
    requires 0.0 < size
    ensures t / size * size == t
  {
  }

  /** Multiplying by a positive factor keeps the sign. */
  lemma SignOfProduct(a: real, c: real)
    requires 0.0 < c
    ensures a < 0.0 <==> a * c < 0.0
    ensures a == 0.0 <==> a * c == 0.0
  {
  }

  /** Multiplying by a positive factor keeps order and equality. */
  lemma ProductOrder(a: real, b: real, c: real)
    requires 0.0 < c
    ensures a <= b <==> a * c <= b * c
    ensures a == b <==> a * c == b * c
  {
    SignOfProduct(b - a, c);
    assert (b - a) * c == b * c - a * c;
  }

  /** Multiplying by a positive size and dividing by it again is the identity. */
  lemma MulDivCancel(w: real, size: real)
    requires 0.0 < size
    ensures w * size / size == w
  {
    var d := w * size / size;
    DivMulCancel(w * size, size);
    ProductOrder(d, w, size);
  }

  /** Clamping a scaled value to [0, size] is scaling the value clamped to [0, 1]. */
  lemma ClampScales(q: real, size: real)
    requires 0.0 < size
    ensures Clamp(q * size, 0.0, size) == Clamp(q, 0.0, 1.0) * size
  {
    SignOfProduct(q, size);
    ProductOrder(q, 1.0, size);
  }

  /** Scaling an offset `t` in [0, size] by `span / size` lands in [0, span],
      with the ends reached exactly at the ends. */
  lemma ScaleFacts(t: real, size: real, span: real)
    requires 0.0 <= t <= size && 0.0 < size && 0.0 < span
    ensures 0.0 <= t / size * span <= span
    ensures t / size * span == 0.0 <==> t == 0.0
    ensures t / size * span == span <==> t == size
  {
    var q := t / size;
    DivMulCancel(t, size);
    SignOfProduct(q, size);
    ProductOrder(q, 1.0, size);
    assert 0.0 <= q <= 1.0 && (q == 0.0 <==> t == 0.0) && (q == 1.0 <==> t == size);
    SignOfProduct(q, span);
    ProductOrder(q, 1.0, span);
  }

  /** Scaling `t` by `size / span` preserves which side of [0, span] it is on. */
  lemma InverseScaleFacts(t: real, span: real, size: real)
    requires 0.0 < span && 0.0 < size
    ensures 0.0 <= t <= span ==> 0.0 <= t / span * size <= size
    ensures t < 0.0 ==> t / span * size < 0.0
    ensures span < t ==> size < t / span * size
  {
    var q := t / span;
    DivMulCancel(t, span);
    SignOfProduct(q, span);
    ProductOrder(q, 1.0, span);
    SignOfProduct(q, size);
    ProductOrder(q, 1.0, size);
  }

  // ---------------------------------------------------------------------
  // Round trips between a component and its indicator position

  /** Drawing a hue on the track and reading it back yields that hue clamped
      to [0, 360]: exact for every hue in the documented range and beyond. */
  lemma HueRoundTrip(hue: real, sizeY: real)
    requires 0.0 < sizeY
    ensures HueAtTrackPosition(TrackPositionOfHue(hue, sizeY), sizeY) == Clamp(hue, 0.0, 360.0)
  {
    var q := hue / 360.0;
    var c := Clamp(q, 0.0, 1.0);
    ClampScales(q, sizeY);
    MulDivCancel(c, sizeY);
    calc {
      HueAtTrackPosition(TrackPositionOfHue(hue, sizeY), sizeY);
      Clamp(q * sizeY, 0.0, sizeY) / sizeY * 360.0;
      c * sizeY / sizeY * 360.0;
      c * 360.0;
      Clamp(hue, 0.0, 360.0);
    }
  }

  /** Reading the hue at a track offset and drawing it again puts the
      indicator at the clamped offset. */
  lemma TrackPositionRoundTrip(y: real, sizeY: real)
    requires 0.0 < sizeY
    ensures TrackPositionOfHue(HueAtTrackPosition(y, sizeY), sizeY) == Clamp(y, 0.0, sizeY)
  {
    var q := Clamp(y, 0.0, sizeY) / sizeY;
    assert q * 360.0 / 360.0 == q;
    DivMulCancel(Clamp(y, 0.0, sizeY), sizeY);
  }

  /** Drawing a saturation on the plane and reading it back yields it clamped to [0, 1]. */
  lemma SaturationRoundTrip(s: real, sizeX: real)
    requires 0.0 < sizeX
    ensures SaturationAtPlanePosition(PlanePositionOfSaturation(s, sizeX), sizeX) == Clamp(s, 0.0, 1.0)
  {
    ClampScales(s, sizeX);
    MulDivCancel(Clamp(s, 0.0, 1.0), sizeX);
  }

  /** Drawing a value on the plane and reading it back yields it clamped to [0, 1]. */
  lemma ValueRoundTrip(v: real, sizeY: real)
    requires 0.0 < sizeY
    ensures ValueAtPlanePosition(PlanePositionOfValue(v, sizeY), sizeY) == Clamp(v, 0.0, 1.0)
  {
    var w := 1.0 - v;
    ClampScales(w, sizeY);
    MulDivCancel(Clamp(w, 0.0, 1.0), sizeY);
  }

  /** Reading saturation and value at a plane point and drawing them again
      puts the indicator at the clamped point. */
  lemma PlanePositionRoundTrip(p: Vector2, sizeX: real, sizeY: real)
    requires 0.0 < sizeX && 0.0 < sizeY
    ensures Vector2(PlanePositionOfSaturation(SaturationAtPlanePosition(p.x, sizeX), sizeX),
                    PlanePositionOfValue(ValueAtPlanePosition(p.y, sizeY), sizeY))
            == ClampToCanvas(p, sizeX, sizeY)
  {
    var cy := Clamp(p.y, 0.0, sizeY);
    var qy := cy / sizeY;
    DivMulCancel(Clamp(p.x, 0.0, sizeX), sizeX);
    DivMulCancel(cy, sizeY);
    assert 1.0 - (1.0 - qy) == qy;
  }

  /** A lower pointer never selects a smaller hue. */
  lemma HueMonotonic(y1: real, y2: real, sizeY: real)
    requires 0.0 < sizeY && y1 <= y2
    ensures HueAtTrackPosition(y1, sizeY) <= HueAtTrackPosition(y2, sizeY)
  {
    var c1, c2 := Clamp(y1, 0.0, sizeY), Clamp(y2, 0.0, sizeY);
    var q1, q2 := c1 / sizeY, c2 / sizeY;
    assert c1 <= c2;
    DivMulCancel(c1, sizeY);
    DivMulCancel(c2, sizeY);
    ProductOrder(q1, q2, sizeY);
    assert q1 <= q2;
    assert HueAtTrackPosition(y1, sizeY) == q1 * 360.0 && HueAtTrackPosition(y2, sizeY) == q2 * 360.0;
  }

  /** On the default 30 x 300 track and 400 x 300 plane: the middle of the
      track is hue 180, the point (200, 75) is saturation 0.5 and value 0.75,
      and a pointer far outside the plane is clamped to its corner. */
  lemma DefaultLayoutExamples()
    ensures HueAtTrackPosition(150.0, 300.0) == 180.0
    ensures TrackPositionOfHue(180.0, 300.0) == 150.0
    ensures SaturationAtPlanePosition(200.0, 400.0) == 0.5
    ensures ValueAtPlanePosition(75.0, 300.0) == 0.75
    ensures PlanePositionOfSaturation(0.5, 400.0) == 200.0 && PlanePositionOfValue(0.75, 300.0) == 75.0
    ensures SaturationAtPlanePosition(-50.0, 400.0) == 0.0 && ValueAtPlanePosition(1000.0, 300.0) == 0.0
  {
  }
}
