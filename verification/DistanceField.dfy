/** make_distance_mapd and make_distance_mapb of external/freetype-gl/distance-field.c, with the
    gradients of computegradient. */
module DistanceField {
  import opened Bytes
  import opened EdgeCoverage
  import opened EdgeDistance
  import opened DistanceSweep

  const DBL_MAX: real := 1.7976931348623157e308
  const DBL_MIN: real := 2.2250738585072014e-308
  const SQRT2: real := 1.4142136

  // ---- gradients ----

  /** The convolution for one edge pixel, before the vector is normalised. */
  function GradientX(img: seq<real>, w: int, k: int): real
    requires 2 <= w && w + 1 <= k && k + w + 1 < |img|
  {
    -img[k - w - 1] - SQRT2 * img[k - 1] - img[k + w - 1] + img[k - w + 1] + SQRT2 * img[k + 1] + img[k + w + 1]
  }

  function GradientY(img: seq<real>, w: int, k: int): real
    requires 2 <= w && w + 1 <= k && k + w + 1 < |img|
  {
    -img[k - w - 1] - SQRT2 * img[k - w] - img[k - w + 1] + img[k + w - 1] + SQRT2 * img[k + w] + img[k + w + 1]
  }

  predicate UnitOrZero(x: real, y: real) {
    (x == 0.0 && y == 0.0) || x * x + y * y == 1.0
  }

  function SquareSum(x: real, y: real): real { x * x + y * y }

  /** A vector scaled to length 1. */
  function Unit(x: real, y: real, sqrt: real -> real): (real, real) {
    var s := SquareSum(x, y);
    if s > 0.0 && sqrt(s) != 0.0 then (x / sqrt(s), y / sqrt(s)) else (x, y)
  }

  lemma UnitIs(x: real, y: real, s: real, sqrt: real -> real)
    requires s == SquareSum(x, y)
    ensures Unit(x, y, sqrt)
         == if s > 0.0 && sqrt(s) != 0.0 then (x / sqrt(s), y / sqrt(s)) else (x, y)
  {
  }

  /** The gradient of one grey pixel. */
  method GradientAt(img: seq<real>, w: int, k: int, sqrt: real -> real) returns (x: real, y: real)
    requires 2 <= w && w + 1 <= k && k + w + 1 < |img| && IsSqrt(sqrt)
    ensures UnitOrZero(x, y)
    ensures (x, y) == Unit(GradientX(img, w, k), GradientY(img, w, k), sqrt)
  {
    hide GradientX, GradientY, Unit;
    x, y := GradientX(img, w, k), GradientY(img, w, k);
    var glength := x * x + y * y;
    UnitIs(x, y, glength, sqrt);
    if glength > 0.0 {
      NormalisedGradient(sqrt, x, y, glength);
      glength := sqrt(glength);
      x := x / glength;
      y := y / glength;
    } else {
      NoGradient(x, y, glength);
    }
  }

  /** The number of the pixel in row i and column j. */
  function Spot(w: int, i: int, j: int): int { i * w + j }

  /** The gradient of pixel number k is that of its neighbourhood if it is grey, and zero if not. */
  ghost predicate Directed(img: seq<real>, gx: seq<real>, gy: seq<real>, w: int, k: int, sqrt: real -> real) {
    && 2 <= w && w + 1 <= k && k + w + 1 < |img| == |gx| == |gy|
    && (gx[k], gy[k])
       == if 0.0 < img[k] < 1.0 then Unit(GradientX(img, w, k), GradientY(img, w, k), sqrt) else (0.0, 0.0)
  }

  /** What computegradient leaves in the gradient arrays of an image. */
  ghost predicate Gradients(img: seq<real>, gx: seq<real>, gy: seq<real>) {
    && |img| == |gx| == |gy|
    && (forall k :: 0 <= k < |img| ==> UnitOrZero(gx[k], gy[k]))
    && (forall k :: 0 <= k < |img| && !(0.0 < img[k] < 1.0) ==> gx[k] == 0.0 && gy[k] == 0.0)
  }

  /** The rows above i, and row i up to column j. */
  ghost predicate DirectedTo(img: seq<real>, gx: seq<real>, gy: seq<real>, w: int, h: int, i: int, j: int,
                             sqrt: real -> real)
  {
    forall a, b :: 1 <= a < h - 1 && 1 <= b < w - 1 && (a < i || (a == i && b < j)) ==>
      Directed(img, gx, gy, w, Spot(w, a, b), sqrt)
  }

  /** The outermost rows and columns have no gradient. */
  ghost predicate BorderZero(gx: seq<real>, gy: seq<real>, w: int, h: int) {
    forall a, b :: 0 <= a < h && 0 <= b < w && (a == 0 || a == h - 1 || b == 0 || b == w - 1) ==>
      var k := Spot(w, a, b);
      0 <= k < |gx| && 0 <= k < |gy| && gx[k] == 0.0 && gy[k] == 0.0
  }

  /** computegradient on arrays of zeros: every pixel inside gets its own direction; unit vectors or
      zero everywhere, and zero on the border and on pixels that are not grey. */
  method ComputeGradient(img: array<real>, w: int, h: int, gx: array<real>, gy: array<real>, sqrt: real -> real)
    requires 2 <= w && 2 <= h && img.Length == gx.Length == gy.Length == w * h && IsSqrt(sqrt)
    requires gx != gy && gx != img && gy != img
    requires forall k :: 0 <= k < gx.Length ==> gx[k] == 0.0 && gy[k] == 0.0
    modifies gx, gy
    ensures Gradients(img[..], gx[..], gy[..]) && BorderZero(gx[..], gy[..], w, h)
    ensures forall a, b :: 1 <= a < h - 1 && 1 <= b < w - 1 ==>
      Directed(img[..], gx[..], gy[..], w, Spot(w, a, b), sqrt)
  {
    hide UnitOrZero, IsSqrt, Directed, DirectedTo, Unit, GradientX, GradientY, Spot, BorderZero;
    ZeroGradient();
    DirectedNone(img[..], gx[..], gy[..], w, h, sqrt);
    BorderStart(gx[..], gy[..], w, h);
    for i := 1 to h - 1
      invariant Gradients(img[..], gx[..], gy[..]) && DirectedTo(img[..], gx[..], gy[..], w, h, i, 1, sqrt)
      invariant BorderZero(gx[..], gy[..], w, h)
    {
      for j := 1 to w - 1
        invariant Gradients(img[..], gx[..], gy[..]) && DirectedTo(img[..], gx[..], gy[..], w, h, i, j, sqrt)
        invariant BorderZero(gx[..], gy[..], w, h)
      {
        InteriorIndex(w, h, i, j);
        var k := i * w + j;
        ghost var wasX, wasY := gx[..], gy[..];
        if img[k] > 0.0 && img[k] < 1.0 {
          gx[k], gy[k] := GradientAt(img[..], w, k, sqrt);
        }
        DirectedIs(img[..], gx[..], gy[..], w, k, sqrt);
        BorderStays(wasX, wasY, gx[..], gy[..], w, h, i, j);
        DirectedNext(img[..], wasX, wasY, gx[..], gy[..], w, h, i, j, sqrt);
      }
      RowDone(img[..], gx[..], gy[..], w, h, i, sqrt);
    }
    AllDirected(img[..], gx[..], gy[..], w, h, sqrt);
  }

  lemma BorderStart(gx: seq<real>, gy: seq<real>, w: int, h: int)
    requires 2 <= w && 2 <= h && |gx| == |gy| == w * h
    requires forall k :: 0 <= k < |gx| ==> gx[k] == 0.0 && gy[k] == 0.0
    ensures BorderZero(gx, gy, w, h)
  {
    forall a, b | 0 <= a < h && 0 <= b < w ensures 0 <= Spot(w, a, b) < w * h {
      Rows(a, h, w);
      if a > 0 { Rows(0, a, w); }
    }
  }

  lemma BorderStays(gx: seq<real>, gy: seq<real>, gx': seq<real>, gy': seq<real>, w: int, h: int, i: int, j: int)
    requires BorderZero(gx, gy, w, h) && 1 <= i < h - 1 && 1 <= j < w - 1
    requires |gx'| == |gx| == |gy'| == |gy|
    requires forall k :: 0 <= k < |gx| && k != i * w + j ==> gx'[k] == gx[k] && gy'[k] == gy[k]
    ensures BorderZero(gx', gy', w, h)
  {
    forall a, b | 0 <= a < h && 0 <= b < w && (a == 0 || a == h - 1 || b == 0 || b == w - 1)
      ensures Spot(w, a, b) != i * w + j
    {
      if Spot(w, a, b) == Spot(w, i, j) { SpotApart(w, a, b, i, j); }
    }
  }

  lemma DirectedIs(img: seq<real>, gx: seq<real>, gy: seq<real>, w: int, k: int, sqrt: real -> real)
    requires 2 <= w && w + 1 <= k && k + w + 1 < |img| == |gx| == |gy|
    requires (gx[k], gy[k])
          == if 0.0 < img[k] < 1.0 then Unit(GradientX(img, w, k), GradientY(img, w, k), sqrt) else (0.0, 0.0)
    ensures Directed(img, gx, gy, w, k, sqrt)
  {
  }

  lemma DirectedNone(img: seq<real>, gx: seq<real>, gy: seq<real>, w: int, h: int, sqrt: real -> real)
    ensures DirectedTo(img, gx, gy, w, h, 1, 1, sqrt)
  {
  }

  lemma SpotApart(w: int, a: int, b: int, i: int, j: int)
    requires 0 <= b < w && 0 <= j < w && Spot(w, a, b) == Spot(w, i, j)
    ensures a == i && b == j
  {
    if a < i { Rows(a, i, w); }
    if i < a { Rows(i, a, w); }
  }

  lemma DirectedStays(img: seq<real>, gx: seq<real>, gy: seq<real>, gx': seq<real>, gy': seq<real>, w: int, k: int,
                      sqrt: real -> real)
    requires Directed(img, gx, gy, w, k, sqrt) && |gx'| == |gx| && |gy'| == |gy|
    requires 0 <= k < |gx| && 0 <= k < |gy| && gx'[k] == gx[k] && gy'[k] == gy[k]
    ensures Directed(img, gx', gy', w, k, sqrt)
  {
  }

  lemma DirectedNext(img: seq<real>, gx: seq<real>, gy: seq<real>, gx': seq<real>, gy': seq<real>,
                     w: int, h: int, i: int, j: int, sqrt: real -> real)
    requires DirectedTo(img, gx, gy, w, h, i, j, sqrt) && 1 <= j < w - 1 && 1 <= i < h - 1
    requires |gx| == |gy| == |gx'| == |gy'| == |img| && Directed(img, gx', gy', w, i * w + j, sqrt)
    requires forall k :: 0 <= k < |gx| && k != i * w + j ==> gx'[k] == gx[k] && gy'[k] == gy[k]
    ensures DirectedTo(img, gx', gy', w, h, i, j + 1, sqrt)
  {
    hide Unit, GradientX, GradientY;
    forall a, b | 1 <= a < h - 1 && 1 <= b < w - 1 && (a < i || (a == i && b < j + 1))
      ensures Directed(img, gx', gy', w, Spot(w, a, b), sqrt)
    {
      if !(a == i && b == j) {
        if Spot(w, a, b) == Spot(w, i, j) { SpotApart(w, a, b, i, j); }
        DirectedStays(img, gx, gy, gx', gy', w, Spot(w, a, b), sqrt);
      }
    }
  }

  lemma RowDone(img: seq<real>, gx: seq<real>, gy: seq<real>, w: int, h: int, i: int, sqrt: real -> real)
    requires DirectedTo(img, gx, gy, w, h, i, w - 1, sqrt)
    ensures DirectedTo(img, gx, gy, w, h, i + 1, 1, sqrt)
  {
    hide Directed;
  }

  lemma AllDirected(img: seq<real>, gx: seq<real>, gy: seq<real>, w: int, h: int, sqrt: real -> real)
    requires DirectedTo(img, gx, gy, w, h, h - 1, 1, sqrt)
    ensures forall a, b :: 1 <= a < h - 1 && 1 <= b < w - 1 ==> Directed(img, gx, gy, w, Spot(w, a, b), sqrt)
  {
    hide Directed;
  }

  lemma ZeroGradient()
    ensures UnitOrZero(0.0, 0.0)
  {
  }

  lemma InteriorIndex(w: int, h: int, i: int, j: int)
    requires 2 <= w && 1 <= i < h - 1 && 1 <= j < w - 1
    ensures w + 1 <= i * w + j && i * w + j + w + 1 < w * h
  {
    Rows(0, i, w);
    Rows(i, i + 1, w);
    Rows(i + 1, h, w);
    assert (i + 1) * w == i * w + w;
    assert w * h == h * w;
  }

  lemma NormalisedGradient(sqrt: real -> real, x: real, y: real, s: real)
    requires IsSqrt(sqrt) && s == x * x + y * y && s > 0.0
    ensures var g := sqrt(s);
      g != 0.0 && UnitOrZero(x / g, y / g)
  {
    if x != 0.0 {
      Normalised(sqrt, x, y);
    } else {
      var sy := Square(y);
      Normalised(sqrt, y, x);
    }
  }

  lemma NoGradient(x: real, y: real, s: real)
    requires s == x * x + y * y && !(s > 0.0)
    ensures x == 0.0 && y == 0.0
  {
    var a := Square(x);
    var b := Square(y);
  }

  // ---- what the gradient means ----

  /** The gradient compares the column on the right with the one on the left and the row below with
      the one above; direct neighbours weigh 1.4142136, diagonal ones 1. */
  lemma GradientWeights(img: seq<real>, w: int, k: int)
    requires 2 <= w && w + 1 <= k && k + w + 1 < |img|
    ensures var right := img[k - w + 1] + 1.4142136 * img[k + 1] + img[k + w + 1];
      var left := img[k - w - 1] + 1.4142136 * img[k - 1] + img[k + w - 1];
      GradientX(img, w, k) == right - left
    ensures var below := img[k + w - 1] + 1.4142136 * img[k + w] + img[k + w + 1];
      var above := img[k - w - 1] + 1.4142136 * img[k - w] + img[k - w + 1];
      GradientY(img, w, k) == below - above
  {
  }

  /** The eight neighbours of pixel number k lie on a ramp that rises by a per column and b per row. */
  predicate OnRamp(img: seq<real>, w: int, k: int, level: real, a: real, b: real)
    requires 2 <= w && w + 1 <= k && k + w + 1 < |img|
  {
    && img[k - w - 1] == level - a - b && img[k - w] == level - b && img[k - w + 1] == level + a - b
    && img[k - 1] == level - a && img[k + 1] == level + a
    && img[k + w - 1] == level - a + b && img[k + w] == level + b && img[k + w + 1] == level + a + b
  }

  /** On a ramp the gradient is the unit vector along its slope, of length e. */
  lemma RampGradient(img: seq<real>, w: int, k: int, level: real, a: real, b: real, e: real, sqrt: real -> real)
    requires 2 <= w && w + 1 <= k && k + w + 1 < |img| && IsSqrt(sqrt) && OnRamp(img, w, k, level, a, b)
    requires e > 0.0 && e * e == a * a + b * b
    ensures Unit(GradientX(img, w, k), GradientY(img, w, k), sqrt) == (a / e, b / e)
  {
    hide IsSqrt;
    var c := 4.0 + 2.0 * SQRT2;
    assert GradientX(img, w, k) == c * a;
    assert GradientY(img, w, k) == c * b;
    UnitScaled(a, b, c, e, sqrt);
  }

  lemma UnitScaled(a: real, b: real, c: real, e: real, sqrt: real -> real)
    requires IsSqrt(sqrt) && e > 0.0 && e * e == a * a + b * b && c > 0.0
    ensures Unit(c * a, c * b, sqrt) == (a / e, b / e)
  {
    hide IsSqrt;
    var g := PositiveProduct(c, e);
    var s := PositiveProduct(g, g);
    assert s == (c * a) * (c * a) + (c * b) * (c * b);
    assert SquareSum(c * a, c * b) == s;
    RootIs(sqrt, s, g);
    ScaledQuotient(a, c, e);
    ScaledQuotient(b, c, e);
  }

  lemma ScaledQuotient(a: real, c: real, e: real)
    requires c > 0.0 && e > 0.0 && c * e > 0.0
    ensures (c * a) / (c * e) == a / e
  {
    var r := QuotientTimes(a, e);
    assert r * (c * e) == c * (r * e);
    QuotientIs(c * a, c * e, r);
  }

  // ---- the map ----

  /** An image on arrays. */
  ghost predicate Shaped(data: array<real>, w: int, h: int) {
    2 <= w <= MAX_SIDE && 2 <= h <= MAX_SIDE && data.Length == w * h
  }

  lemma Results(m: Image, s: Field)
    requires Sound(m, s) && FixedPoint(m, s)
    ensures |s.d| == |m.img|
    ensures forall k :: 0 <= k < |s.d| ==> s.d[k] <= FAR
    ensures forall k :: 0 <= k < |s.d| && m.img[k] <= 0.0 ==> s.d[k] >= 0.25
    ensures forall k :: 0 <= k < |s.d| && m.img[k] >= 1.0 ==> s.d[k] <= 0.0
    ensures forall k :: 0 <= k < |s.d| ==> (s.d[k] > 0.0 <==> m.img[k] < 0.5)
    ensures (exists k :: 0 <= k < |s.d| && m.img[k] > 0.0) ==> forall k :: 0 <= k < |s.d| ==> s.d[k] <= 70000.0
  {
    hide Sound, FixedPoint, Index, IsSqrt;
    forall k | 0 <= k < |s.d|
      ensures s.d[k] <= FAR && (m.img[k] <= 0.0 ==> s.d[k] >= 0.25) && (m.img[k] >= 1.0 ==> s.d[k] <= 0.0)
      ensures s.d[k] > 0.0 <==> m.img[k] < 0.5
    {
      var x, y := PixelOf(m, k);
      DistBounds(m, s, x, y);
      AwayFromSeed(m, s, x, y);
      PixelSign(m, s, x, y);
    }
    forall j, k | 0 <= j < |s.d| && m.img[j] > 0.0 && 0 <= k < |s.d|
      ensures s.d[k] <= 70000.0
    {
      var x0, y0 := PixelOf(m, j);
      var x, y := PixelOf(m, k);
      Completeness(m, s, x0, y0, x, y);
    }
  }

  function Max(a: real, b: real): real { if a < b then b else a }

  function Min(a: real, b: real): real { if a < b then a else b }

  /** An image with the gradients that computegradient gives it, and a state in which no test of
      edtaa3 changes anything any more. */
  ghost predicate Transformed(m: Image, s: Field) {
    && Sound(m, s) && FixedPoint(m, s) && Gradients(m.img, m.gx, m.gy) && BorderZero(m.gx, m.gy, m.w, m.h)
    && forall a, b :: 1 <= a < m.h - 1 && 1 <= b < m.w - 1 ==>
      Directed(m.img, m.gx, m.gy, m.w, Spot(m.w, a, b), m.sqrt)
  }

  /** One call of edtaa3 with its own gradients, cut off at 0. */
  method Distances(data: array<real>, w: int, h: int, sqrt: real -> real, xdist: array<int>, ydist: array<int>,
                   gx: array<real>, gy: array<real>) returns (dist: array<real>, ghost m: Image, ghost s: Field)
    requires Shaped(data, w, h) && IsSqrt(sqrt)
    requires data.Length == xdist.Length == ydist.Length == gx.Length == gy.Length
    requires xdist != ydist && gx != gy && gx != data && gy != data
    requires forall k :: 0 <= k < gx.Length ==> gx[k] == 0.0 && gy[k] == 0.0
    modifies xdist, ydist, gx, gy
    ensures m.w == w && m.h == h && m.img == data[..] && m.sqrt == sqrt && Transformed(m, s)
    ensures fresh(dist) && dist.Length == data.Length == |s.d|
    ensures forall k :: 0 <= k < dist.Length ==> dist[k] == Max(0.0, s.d[k])
  {
    hide IsSqrt, Sound, FixedPoint, Directed, Spot, BorderZero, Gradients;
    dist := new real[data.Length](_ => 0.0);
    ComputeGradient(data, w, h, gx, gy, sqrt);
    var image := Image(w, h, data[..], gx[..], gy[..], sqrt);
    Edtaa3(image, xdist, ydist, dist);
    m := image;
    s := Snap(xdist, ydist, dist);
    for i := 0 to dist.Length
      invariant forall k :: 0 <= k < dist.Length ==> dist[k] == if k < i then Max(0.0, s.d[k]) else s.d[k]
    {
      if dist[i] < 0.0 { dist[i] := 0.0; }
    }
  }

  /** Cut off at 0, a distance is positive exactly below one half, and it is never larger than
      "not set". */
  lemma CutOff(m: Image, s: Field, dist: seq<real>)
    requires Transformed(m, s) && |dist| == |s.d| && forall k :: 0 <= k < |dist| ==> dist[k] == Max(0.0, s.d[k])
    ensures |dist| == |m.img|
    ensures forall k :: 0 <= k < |dist| ==> 0.0 <= dist[k] <= FAR
    ensures forall k :: 0 <= k < |dist| && m.img[k] <= 0.0 ==> dist[k] >= 0.25
    ensures forall k :: 0 <= k < |dist| && m.img[k] >= 1.0 ==> dist[k] == 0.0
    ensures forall k :: 0 <= k < |dist| ==> (dist[k] > 0.0 <==> m.img[k] < 0.5)
    ensures (exists k :: 0 <= k < |dist| && m.img[k] > 0.0) ==> forall k :: 0 <= k < |dist| ==> dist[k] <= 70000.0
  {
    hide IsSqrt, Sound, FixedPoint, Directed, Spot, BorderZero, Gradients;
    Results(m, s);
  }

  ghost predicate Maximum(values: seq<real>, v: real) {
    (forall k :: 0 <= k < |values| ==> values[k] <= v) && exists k :: 0 <= k < |values| && values[k] == v
  }

  ghost predicate Minimum(values: seq<real>, v: real) {
    (forall k :: 0 <= k < |values| ==> v <= values[k]) && exists k :: 0 <= k < |values| && values[k] == v
  }

  /** The map is on the side of one half that the image is not, and one half where the image is;
      0 is reached exactly when some pixel is above one half, and otherwise all of it is 1. */
  ghost predicate Mapped(before: seq<real>, after: seq<real>) {
    && |before| == |after|
    && (forall k :: 0 <= k < |after| ==> 0.0 <= after[k] <= 1.0)
    && (forall k :: 0 <= k < |after| ==> (after[k] < 0.5 <==> before[k] > 0.5))
    && (forall k :: 0 <= k < |after| ==> (after[k] == 0.5 <==> before[k] == 0.5))
    && ((exists k :: 0 <= k < |after| && after[k] == 0.0) <==> exists k :: 0 <= k < |before| && before[k] > 0.5)
    && ((forall k :: 0 <= k < |before| ==> before[k] < 0.5) ==> forall k :: 0 <= k < |after| ==> after[k] == 1.0)
  }

  /** distmap = outside - inside, and its minimum. */
  method Subtract(outside: array<real>, inside: array<real>) returns (vmin: real, ghost least: int)
    requires outside != inside && 0 < outside.Length == inside.Length
    requires forall k :: 0 <= k < outside.Length ==> outside[k] <= FAR && inside[k] >= 0.0
    modifies outside
    ensures forall k :: 0 <= k < outside.Length ==> outside[k] == old(outside[k]) - inside[k]
    ensures 0 <= least < outside.Length && vmin == outside[least]
    ensures forall k :: 0 <= k < outside.Length ==> vmin <= outside[k]
  {
    vmin := DBL_MAX;
    least := 0;
    for i := 0 to outside.Length
      invariant forall k :: 0 <= k < outside.Length ==>
        outside[k] == if k < i then old(outside[k]) - inside[k] else old(outside[k])
      invariant i == 0 ==> vmin == DBL_MAX
      invariant i > 0 ==> 0 <= least < i && vmin == outside[least]
      invariant forall k :: 0 <= k < i ==> vmin <= outside[k]
    {
      outside[i] := outside[i] - inside[i];
      if outside[i] < vmin {
        vmin := outside[i];
        least := i;
      }
    }
  }

  /** Clamps the map to -vmin..vmin and scales it to 0..1. */
  method Normalise(outside: array<real>, data: array<real>, vmin: real)
    requires outside != data && outside.Length == data.Length && vmin > 0.0
    modifies outside, data
    ensures forall k :: 0 <= k < data.Length ==> data[k] == Output(old(outside[k]), vmin)
  {
    for i := 0 to outside.Length
      invariant forall k :: i <= k < outside.Length ==> outside[k] == old(outside[k])
      invariant forall k :: 0 <= k < i ==> data[k] == Output(old(outside[k]), vmin)
    {
      var v := outside[i];
      if v < -vmin {
        outside[i] := -vmin;
      } else if v > vmin {
        outside[i] := vmin;
      }
      data[i] := (outside[i] + vmin) / (2.0 * vmin);
    }
  }

  method Invert(data: array<real>)
    modifies data
    ensures forall k :: 0 <= k < data.Length ==> data[k] == 1.0 - old(data[k])
  {
    for i := 0 to data.Length
      invariant forall k :: 0 <= k < data.Length ==> data[k] == if k < i then 1.0 - old(data[k]) else old(data[k])
    {
      data[i] := 1.0 - data[i];
    }
  }

  /** The two transforms of make_distance_mapd. */
  datatype Transforms = Transforms(outside: Image, outer: Field, inside: Image, inner: Field)

  /** They are those of an image and of its inverse. */
  ghost predicate TransformsOf(t: Transforms, image: seq<real>, w: int, h: int, sqrt: real -> real) {
    && t.outside.w == w && t.outside.h == h && t.outside.sqrt == sqrt && t.outside.img == image
    && t.inside.w == w && t.inside.h == h && t.inside.sqrt == sqrt && |t.inside.img| == |image|
    && (forall k :: 0 <= k < |image| ==> t.inside.img[k] == 1.0 - image[k])
    && |t.outer.d| == |t.inner.d| == |image|
    && Transformed(t.outside, t.outer) && Transformed(t.inside, t.inner)
  }

  /** outside - inside, both cut off at 0. */
  function Bipolar(outer: seq<real>, inner: seq<real>): (d: seq<real>)
    requires |outer| == |inner|
    ensures |d| == |outer| && forall k :: 0 <= k < |d| ==> d[k] == Max(0.0, outer[k]) - Max(0.0, inner[k])
  {
    seq(|outer|, k requires 0 <= k < |outer| => Max(0.0, outer[k]) - Max(0.0, inner[k]))
  }

  /** out is the difference of the distances, cut off at its least value on both sides and scaled
      from there to 0..1. */
  ghost predicate IsMap(outer: seq<real>, inner: seq<real>, least: real, out: seq<real>)
    requires |outer| == |inner|
  {
    var b, v := Bipolar(outer, inner), Abs(least);
    && Minimum(b, least) && v > 0.0 && |out| == |b|
    && forall k :: 0 <= k < |out| ==> out[k] == (Max(-v, Min(v, b[k])) + v) / (2.0 * v)
  }

  /** make_distance_mapd. The source divides by vmin in any case; `defined` says whether that is
      not 0. It is 0 exactly when the largest pixel is one half. */
  method MakeDistanceMapD(data: array<real>, w: int, h: int, sqrt: real -> real)
    returns (defined: bool, ghost t: Transforms, ghost least: real)
    requires Shaped(data, w, h) && IsSqrt(sqrt)
    modifies data
    ensures TransformsOf(t, old(data[..]), w, h, sqrt)
    ensures defined <==> !Maximum(old(data[..]), 0.5)
    ensures defined ==> |t.outer.d| == |t.inner.d| && IsMap(t.outer.d, t.inner.d, least, data[..])
    ensures defined ==> Mapped(old(data[..]), data[..])
  {
    hide *;
    ghost var image := data[..];
    ShapedIs(data, w, h);
    var xdist, ydist := new int[data.Length], new int[data.Length];
    var gx := new real[data.Length](_ => 0.0);
    var gy := new real[data.Length](_ => 0.0);
    SomePixel(w, h);
    ghost var mo, so, mi, si;
    var outside, inside;
    outside, mo, so := Distances(data, w, h, sqrt, xdist, ydist, gx, gy);
    ghost var far := outside[..];
    CutOff(mo, so, far);
    forall k | 0 <= k < gx.Length { gx[k] := 0.0; }
    forall k | 0 <= k < gy.Length { gy[k] := 0.0; }
    Invert(data);
    assert outside[..] == far;
    inside, mi, si := Distances(data, w, h, sqrt, xdist, ydist, gx, gy);
    t := Transforms(mo, so, mi, si);
    TransformsAre(t, image, w, h, sqrt);
    ghost var deep := inside[..];
    CutOff(mi, si, deep);
    assert outside[..] == far;
    var vmin; ghost var at;
    vmin, at := Subtract(outside, inside);
    ghost var bipolar := outside[..];
    Signs(image, far, deep, bipolar);
    LeastSign(image, bipolar, vmin, at);
    least := vmin;
    AbsZero(vmin);
    vmin := Abs(vmin);
    if vmin == 0.0 { return false, t, least; }
    Normalise(outside, data, vmin);
    Outputs(image, bipolar, data[..], least, at);
    MapIs(so.d, si.d, bipolar, data[..], least, at);
    defined := true;
  }

  lemma AbsZero(x: real)
    ensures Abs(x) >= 0.0 && (Abs(x) == 0.0 <==> x == 0.0)
  {
  }

  lemma ShapedIs(data: array<real>, w: int, h: int)
    requires Shaped(data, w, h)
    ensures 2 <= w && 2 <= h && data.Length == w * h
  {
  }

  lemma TransformsAre(t: Transforms, image: seq<real>, w: int, h: int, sqrt: real -> real)
    requires t.outside.w == w && t.outside.h == h && t.outside.sqrt == sqrt && t.outside.img == image
    requires t.inside.w == w && t.inside.h == h && t.inside.sqrt == sqrt && |t.inside.img| == |image|
    requires forall k :: 0 <= k < |image| ==> t.inside.img[k] == 1.0 - image[k]
    requires |t.outer.d| == |t.inner.d| == |image|
    requires Transformed(t.outside, t.outer) && Transformed(t.inside, t.inner)
    ensures TransformsOf(t, image, w, h, sqrt)
  {
  }

  lemma MapIs(outer: seq<real>, inner: seq<real>, bipolar: seq<real>, out: seq<real>, least: real, at: int)
    requires |outer| == |inner| == |bipolar| == |out| && least != 0.0
    requires forall k :: 0 <= k < |bipolar| ==> bipolar[k] == Max(0.0, outer[k]) - Max(0.0, inner[k])
    requires 0 <= at < |bipolar| && bipolar[at] == least && forall k :: 0 <= k < |bipolar| ==> least <= bipolar[k]
    requires forall k :: 0 <= k < |out| ==> out[k] == Output(bipolar[k], Abs(least))
    ensures IsMap(outer, inner, least, out)
  {
    assert bipolar == Bipolar(outer, inner);
  }

  lemma SomePixel(w: int, h: int)
    requires 2 <= w && 2 <= h
    ensures w * h > 0
  {
  }

  /** The last loop for one value. */
  function Output(v: real, vmin: real): real
    requires vmin > 0.0
  {
    ((if v < -vmin then -vmin else if v > vmin then vmin else v) + vmin) / (2.0 * vmin)
  }

  /** The difference is positive, zero or negative as the image is below, at or above one half. */
  lemma Signs(image: seq<real>, far: seq<real>, deep: seq<real>, bipolar: seq<real>)
    requires |image| == |far| == |deep| == |bipolar|
    requires forall k :: 0 <= k < |image| ==> bipolar[k] == far[k] - deep[k]
    requires forall k :: 0 <= k < |image| ==> 0.0 <= far[k] && 0.0 <= deep[k]
    requires forall k :: 0 <= k < |image| ==> (far[k] > 0.0 <==> image[k] < 0.5)
    requires forall k :: 0 <= k < |image| ==> (deep[k] > 0.0 <==> 1.0 - image[k] < 0.5)
    ensures forall k :: 0 <= k < |image| ==> SignOfHalf(bipolar[k], image[k])
  {
  }

  /** So the least difference is 0 exactly when the largest pixel is one half. */
  lemma LeastSign(image: seq<real>, bipolar: seq<real>, vmin: real, least: int)
    requires |image| == |bipolar| && 0 <= least < |bipolar| && vmin == bipolar[least]
    requires forall k :: 0 <= k < |bipolar| ==> vmin <= bipolar[k]
    requires forall k :: 0 <= k < |image| ==> SignOfHalf(bipolar[k], image[k])
    ensures vmin == 0.0 <==> Maximum(image, 0.5)
  {
    if vmin == 0.0 {
      forall k | 0 <= k < |image| ensures image[k] <= 0.5 { assert SignOfHalf(bipolar[k], image[k]); }
      assert SignOfHalf(bipolar[least], image[least]);
    }
    if Maximum(image, 0.5) {
      ghost var p :| 0 <= p < |image| && image[p] == 0.5;
      assert SignOfHalf(bipolar[p], image[p]) && SignOfHalf(bipolar[least], image[least]);
    }
  }

  lemma OutputRange(v: real, vmin: real)
    requires vmin > 0.0
    ensures var r := Output(v, vmin);
      && 0.0 <= r <= 1.0
      && (r < 0.5 <==> v < 0.0)
      && (r == 0.5 <==> v == 0.0)
      && (v <= -vmin ==> r == 0.0)
      && (v >= vmin ==> r == 1.0)
  {
    var c := (if v < -vmin then -vmin else if v > vmin then vmin else v) + vmin;
    var r := c / (2.0 * vmin);
    assert r * (2.0 * vmin) == c;
    Quotient(r, 2.0 * vmin, c);
  }

  lemma Quotient(r: real, k: real, c: real)
    requires k > 0.0 && r * k == c && 0.0 <= c <= k
    ensures 0.0 <= r <= 1.0
    ensures c < 0.5 * k ==> r < 0.5
    ensures c > 0.5 * k ==> r > 0.5
    ensures c == 0.5 * k ==> r == 0.5
    ensures c == 0.0 ==> r == 0.0
    ensures c == k ==> r == 1.0
  {
    if r < 0.0 { var p := PositiveProduct(-r, k); }
    if r > 1.0 { var p := PositiveProduct(r - 1.0, k); }
    if r > 0.0 { var p := PositiveProduct(r, k); }
    if r > 0.5 { var p := PositiveProduct(r - 0.5, k); }
    if r < 0.5 { var p := PositiveProduct(0.5 - r, k); }
    if r < 1.0 { var p := PositiveProduct(1.0 - r, k); }
  }

  lemma Outputs(image: seq<real>, bipolar: seq<real>, out: seq<real>, least: real, at: int)
    requires |image| == |bipolar| == |out| && least != 0.0
    requires forall k :: 0 <= k < |out| ==> out[k] == Output(bipolar[k], Abs(least))
    requires 0 <= at < |out| && bipolar[at] == least && forall k :: 0 <= k < |bipolar| ==> least <= bipolar[k]
    requires forall k :: 0 <= k < |image| ==> SignOfHalf(bipolar[k], image[k])
    ensures Mapped(image, out)
  {
    hide Output, Mapped;
    var vmin := Abs(least);
    forall k | 0 <= k < |out|
      ensures 0.0 <= out[k] <= 1.0 && (out[k] < 0.5 <==> image[k] > 0.5) && (out[k] == 0.5 <==> image[k] == 0.5)
      ensures least > 0.0 ==> out[k] == 1.0 && image[k] < 0.5
    {
      OutputRange(bipolar[k], vmin);
      assert SignOfHalf(bipolar[k], image[k]);
    }
    OutputRange(bipolar[at], vmin);
    assert least < 0.0 ==> out[at] == 0.0 && image[at] > 0.5;
    MappedWhen(image, out, at);
  }

  lemma MappedWhen(before: seq<real>, after: seq<real>, at: int)
    requires |before| == |after| && 0 <= at < |after|
    requires forall k :: 0 <= k < |after| ==> 0.0 <= after[k] <= 1.0
    requires forall k :: 0 <= k < |after| ==> (after[k] < 0.5 <==> before[k] > 0.5)
    requires forall k :: 0 <= k < |after| ==> (after[k] == 0.5 <==> before[k] == 0.5)
    requires || (after[at] == 0.0 && before[at] > 0.5)
             || forall k :: 0 <= k < |after| ==> after[k] == 1.0 && before[k] < 0.5
    ensures Mapped(before, after)
  {
  }

  /** Without the loops: for any two sound states of an image and its inverse, whatever their
      gradients, the least difference of the clamped distances is 0 exactly when the largest pixel
      is one half. */
  lemma DividesByZeroIff(m: Image, inverse: Image, outer: Field, inner: Field)
    requires Sound(m, outer) && Sound(inverse, inner) && inverse.w == m.w && inverse.h == m.h
    requires forall i :: 0 <= i < Pixels(m) ==> inverse.img[i] == 1.0 - m.img[i]
    ensures |outer.d| == |inner.d| == |m.img|
    ensures Minimum(Bipolar(outer.d, inner.d), 0.0) <==> Maximum(m.img, 0.5)
  {
    hide Sound, Maximum, Index, IsSqrt;
    SomePixel(m.w, m.h);
    var d := Bipolar(outer.d, inner.d);
    forall k | 0 <= k < |d| ensures SignOfHalf(d[k], m.img[k]) {
      var x, y := PixelOf(m, k);
      PixelSign(m, outer, x, y);
      SameIndex(m, inverse, x, y);
      PixelSign(inverse, inner, x, y);
    }
    var least := LeastOf(d);
    LeastSign(m.img, d, d[least], least);
    if Minimum(d, 0.0) {
      ghost var k :| 0 <= k < |d| && d[k] == 0.0;
    }
  }

  lemma SameIndex(m: Image, inverse: Image, x: int, y: int)
    requires inverse.w == m.w && inverse.h == m.h
    ensures Index(inverse, x, y) == Index(m, x, y) && Pixels(inverse) == Pixels(m)
    ensures Inside(inverse, x, y) <==> Inside(m, x, y)
  {
  }

  lemma {:induction false} LeastOf(values: seq<real>) returns (at: int)
    requires values != []
    ensures 0 <= at < |values| && forall k :: 0 <= k < |values| ==> values[at] <= values[k]
  {
    at := 0;
    for i := 1 to |values|
      invariant 0 <= at < i && forall k :: 0 <= k < i ==> values[at] <= values[k]
    {
      if values[i] < values[at] { at := i; }
    }
  }

  // ---- byte images ----

  ghost predicate IsMin(img: seq<byte>, v: byte) {
    (forall k :: 0 <= k < |img| ==> v <= img[k]) && exists k :: 0 <= k < |img| && v == img[k]
  }

  ghost predicate IsMax(img: seq<byte>, v: byte) {
    (forall k :: 0 <= k < |img| ==> img[k] <= v) && exists k :: 0 <= k < |img| && v == img[k]
  }

  /** The first loop: the extremes of a byte image. On a black image the maximum stays at DBL_MIN. */
  method Extremes(img: array<byte>) returns (imgMin: real, imgMax: real, ghost lo: byte, ghost hi: byte)
    requires img.Length > 0
    ensures IsMin(img[..], lo) && IsMax(img[..], hi)
    ensures imgMin == lo as real && imgMax == if hi == 0 then DBL_MIN else hi as real
  {
    imgMin, imgMax := DBL_MAX, DBL_MIN;
    lo, hi := 255, 0;
    for i := 0 to img.Length
      invariant imgMax == if hi == 0 then DBL_MIN else hi as real
      invariant if i == 0 then imgMin == DBL_MAX && hi == 0 else imgMin == lo as real
      invariant i > 0 ==> exists k :: 0 <= k < i && lo == img[k]
      invariant i > 0 ==> exists k :: 0 <= k < i && hi == img[k]
      invariant forall k :: 0 <= k < i ==> lo <= img[k] <= hi
    {
      var v := img[i] as real;
      if v > imgMax { imgMax := v; }
      if v < imgMin { imgMin := v; }
      if i == 0 || img[i] < lo { lo := img[i]; }
      if i == 0 || img[i] > hi { hi := img[i]; }
    }
  }

  /** Maps 0..255 to 0..1. */
  method ToReals(img: array<byte>, imgMin: real, imgMax: real) returns (data: array<real>)
    requires imgMax > 0.0
    ensures fresh(data) && data.Length == img.Length
    ensures forall k :: 0 <= k < data.Length ==> data[k] == (img[k] as real - imgMin) / imgMax
  {
    data := new real[img.Length];
    for i := 0 to img.Length
      invariant forall k :: 0 <= k < i ==> data[k] == (img[k] as real - imgMin) / imgMax
    {
      data[i] := (img[i] as real - imgMin) / imgMax;
    }
  }

  /** Maps 0..1 to 255..0. */
  method ToBytes(data: array<real>) returns (out: array<byte>)
    requires forall k :: 0 <= k < data.Length ==> 0.0 <= data[k] <= 1.0
    ensures fresh(out) && out.Length == data.Length
    ensures forall k :: 0 <= k < data.Length ==> out[k] == (255.0 * (1.0 - data[k])).Floor
  {
    out := new byte[data.Length];
    for i := 0 to data.Length
      invariant forall k :: 0 <= k < i ==> out[k] == (255.0 * (1.0 - data[k])).Floor
    {
      out[i] := (255.0 * (1.0 - data[i])).Floor;
    }
  }

  /** A scaled pixel against one half, in the bytes it was made of. */
  lemma ScaledPixel(v: byte, lo: byte, hi: byte, imgMax: real)
    requires lo <= v <= hi && imgMax == if hi == 0 then DBL_MIN else hi as real
    ensures var r := (v as real - lo as real) / imgMax;
      && (r > 0.5 <==> 2 * (v - lo) > hi)
      && (r == 0.5 <==> hi > 0 && 2 * (v - lo) == hi)
      && (r == 1.0 <==> hi > 0 && v - lo == hi)
  {
    var c := v as real - lo as real;
    if hi == 0 {
      ZeroOver(imgMax);
    } else {
      Compare(c, imgMax, 0.5);
      Compare(c, imgMax, 1.0);
    }
  }

  lemma ZeroOver(k: real)
    requires k > 0.0
    ensures 0.0 / k == 0.0
  {
  }

  lemma Compare(c: real, k: real, t: real)
    requires k > 0.0
    ensures (c / k > t <==> c > t * k) && (c / k == t <==> c == t * k)
  {
    var r := c / k;
    assert r * k == c;
    if r > t { var p := PositiveProduct(r - t, k); }
    if r < t { var p := PositiveProduct(t - r, k); }
  }

  /** The image that make_distance_mapb hands to make_distance_mapd. */
  ghost predicate ScaledFrom(img: seq<byte>, scaled: seq<real>, lo: byte, hi: byte) {
    && |scaled| == |img|
    && forall k :: 0 <= k < |img| ==>
      scaled[k] == (img[k] as real - lo as real) / if hi == 0 then 2.2250738585072014e-308 else hi as real
  }

  /** How it compares with one half. */
  ghost predicate Scaled01(img: seq<byte>, scaled: seq<real>, lo: byte, hi: byte) {
    && |scaled| == |img|
    && (forall k :: 0 <= k < |img| ==> (scaled[k] > 0.5 <==> 2 * (img[k] - lo) > hi))
    && (forall k :: 0 <= k < |img| ==> (scaled[k] == 0.5 <==> hi > 0 && 2 * (img[k] - lo) == hi))
  }

  lemma ScaledImage(img: seq<byte>, scaled: seq<real>, lo: byte, hi: byte, imgMax: real)
    requires IsMin(img, lo) && IsMax(img, hi) && imgMax == if hi == 0 then DBL_MIN else hi as real
    requires |img| == |scaled| && forall k :: 0 <= k < |img| ==> scaled[k] == (img[k] as real - lo as real) / imgMax
    ensures Scaled01(img, scaled, lo, hi) && ScaledFrom(img, scaled, lo, hi)
  {
    forall k | 0 <= k < |img|
      ensures scaled[k] > 0.5 <==> 2 * (img[k] - lo) > hi
      ensures scaled[k] == 0.5 <==> hi > 0 && 2 * (img[k] - lo) == hi
    {
      ScaledPixel(img[k], lo, hi, imgMax);
    }
  }

  /** The largest scaled pixel is one half exactly when the maximum is twice the minimum. */
  lemma ScaledMaximum(img: seq<byte>, scaled: seq<real>, lo: byte, hi: byte)
    requires IsMin(img, lo) && IsMax(img, hi) && Scaled01(img, scaled, lo, hi)
    ensures Maximum(scaled, 0.5) <==> hi > 0 && hi == 2 * lo
    ensures (exists k :: 0 <= k < |scaled| && scaled[k] > 0.5) <==> hi > 2 * lo
    ensures hi < 2 * lo || hi == 0 ==> forall k :: 0 <= k < |scaled| ==> scaled[k] < 0.5
  {
    ghost var top :| 0 <= top < |img| && img[top] == hi;
    assert scaled[top] > 0.5 <==> 2 * (img[top] - lo) > hi;
    assert scaled[top] == 0.5 <==> hi > 0 && 2 * (img[top] - lo) == hi;
    forall k | 0 <= k < |img|
      ensures hi <= 2 * lo ==> scaled[k] <= 0.5
      ensures hi < 2 * lo || hi == 0 ==> scaled[k] < 0.5
    {
      assert scaled[k] > 0.5 <==> 2 * (img[k] - lo) > hi;
      assert scaled[k] == 0.5 <==> hi > 0 && 2 * (img[k] - lo) == hi;
    }
  }

  /** The scaling gives the map a full object pixel exactly when an image that is not black has a
      black pixel. */
  lemma FullPixelIffBlack(img: seq<byte>, lo: byte, hi: byte)
    requires IsMin(img, lo) && IsMax(img, hi) && hi > 0
    ensures (exists k :: 0 <= k < |img| && (img[k] as real - lo as real) / hi as real == 1.0) <==> lo == 0
  {
    forall k | 0 <= k < |img| ensures (img[k] as real - lo as real) / hi as real == 1.0 <==> img[k] - lo == hi {
      ScaledPixel(img[k], lo, hi, hi as real);
    }
  }

  /** Which side of the middle the output is on, and when the whole range is used. */
  ghost predicate MappedBytes(img: seq<byte>, out: seq<byte>, lo: byte, hi: byte) {
    && |out| == |img|
    && (forall k :: 0 <= k < |out| && 2 * (img[k] - lo) >= hi > 0 ==> out[k] >= 127)
    && (forall k :: 0 <= k < |out| && 2 * (img[k] - lo) <= hi ==> out[k] <= 127)
    && ((exists k :: 0 <= k < |out| && out[k] == 255) <==> hi > 2 * lo)
    && (hi < 2 * lo || hi == 0 ==> forall k :: 0 <= k < |out| ==> out[k] == 0)
  }

  /** make_distance_mapb, for every image. lo and hi are its extremes; the division in
      make_distance_mapd is by 0 exactly when hi is twice lo and not 0. The bytes are those of the
      map of the scaled image, turned around. */
  method MakeDistanceMapB(img: array<byte>, w: int, h: int, sqrt: real -> real)
    returns (out: array<byte>, defined: bool, ghost lo: byte, ghost hi: byte, ghost scaled: seq<real>,
             ghost t: Transforms, ghost least: real, ghost mapped: seq<real>)
    requires 2 <= w <= MAX_SIDE && 2 <= h <= MAX_SIDE && img.Length == w * h && IsSqrt(sqrt)
    ensures IsMin(img[..], lo) && IsMax(img[..], hi)
    ensures ScaledFrom(img[..], scaled, lo, hi) && TransformsOf(t, scaled, w, h, sqrt)
    ensures defined <==> !(hi > 0 && hi == 2 * lo)
    ensures defined ==> |t.outer.d| == |t.inner.d| && IsMap(t.outer.d, t.inner.d, least, mapped)
    ensures defined ==> fresh(out) && out.Length == |mapped|
    ensures defined ==> forall k :: 0 <= k < out.Length ==> out[k] == (255.0 * (1.0 - mapped[k])).Floor
    ensures defined ==> MappedBytes(img[..], out[..], lo, hi)
  {
    hide *;
    SomePixel(w, h);
    SmallPositive();
    var imgMin, imgMax;
    imgMin, imgMax, lo, hi := Extremes(img);
    var data := ToReals(img, imgMin, imgMax);
    scaled := data[..];
    ScaledImage(img[..], scaled, lo, hi, imgMax);
    ShapedWhen(data, w, h);
    ScaledMaximum(img[..], scaled, lo, hi);
    defined, t, least := MakeDistanceMapD(data, w, h, sqrt);
    mapped := data[..];
    if !defined {
      out := new byte[0];
      return;
    }
    MappedIn01(scaled, data[..]);
    out := ToBytes(data);
    BytesMean(img[..], scaled, data[..], out[..], lo, hi);
  }

  lemma SmallPositive()
    ensures DBL_MIN > 0.0
  {
  }

  lemma ShapedWhen(data: array<real>, w: int, h: int)
    requires 2 <= w <= MAX_SIDE && 2 <= h <= MAX_SIDE && data.Length == w * h
    ensures Shaped(data, w, h)
  {
  }

  lemma MappedIn01(before: seq<real>, after: seq<real>)
    requires Mapped(before, after)
    ensures |before| == |after| && forall k :: 0 <= k < |after| ==> 0.0 <= after[k] <= 1.0
  {
  }

  lemma BytesMean(img: seq<byte>, scaled: seq<real>, after: seq<real>, out: seq<byte>, lo: byte, hi: byte)
    requires IsMin(img, lo) && IsMax(img, hi) && Scaled01(img, scaled, lo, hi)
    requires Mapped(scaled, after) && |after| == |out|
    requires forall k :: 0 <= k < |out| ==> out[k] == (255.0 * (1.0 - after[k])).Floor
    ensures MappedBytes(img, out, lo, hi)
  {
    ScaledMaximum(img, scaled, lo, hi);
    forall k | 0 <= k < |out|
      ensures 2 * (img[k] - lo) >= hi > 0 ==> out[k] >= 127
      ensures 2 * (img[k] - lo) <= hi ==> out[k] <= 127
      ensures out[k] == 255 <==> after[k] == 0.0
      ensures after[k] == 1.0 ==> out[k] == 0
    {
      assert after[k] < 0.5 <==> scaled[k] > 0.5;
      assert after[k] == 0.5 <==> scaled[k] == 0.5;
      assert scaled[k] > 0.5 <==> 2 * (img[k] - lo) > hi;
      assert scaled[k] == 0.5 <==> hi > 0 && 2 * (img[k] - lo) == hi;
    }
  }
}
