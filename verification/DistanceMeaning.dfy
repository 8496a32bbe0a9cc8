/** What the distances of external/freetype-gl/edtaa3func.c measure, said without its own metric:
    the length of the vector to the seed, corrected by where a straight edge across that vector
    crosses the seed pixel when it covers as much of it as its value says. */
module DistanceMeaning {
  import opened EdgeDistance
  import opened EdgeCoverage
  import opened DistanceSweep

  function AtMostOne(a: real): real { if a > 1.0 then 1.0 else a }

  /** d is the distance of an object pixel of value a, (dx, dy) away, along that vector. */
  ghost predicate Measures(d: real, a: real, dx: int, dy: int, e: real, f: real) {
    && a > 0.0 && e > 0.0 && e * e == (dx * dx + dy * dy) as real && d == e + f
    && (SquareSumIs(dx, dy);
        var n := Octant(dx as real, dy as real, e);
        CoversAt(n.0, n.1, f, AtMostOne(a)))
  }

  lemma SquareSumIs(dx: int, dy: int)
    ensures (dx * dx + dy * dy) as real == (dx as real) * (dx as real) + (dy as real) * (dy as real)
  {
    SquareReal(dx);
    SquareReal(dy);
  }

  lemma SquareReal(x: int)
    ensures (x * x) as real == (x as real) * (x as real)
  {
    if x >= 0 { ProductReal(x, x); } else { ProductReal(-x, -x); }
  }

  lemma {:induction false} ProductReal(x: nat, y: nat)
    ensures (x * y) as real == (x as real) * (y as real)
  {
    if x > 0 { ProductReal(x - 1, y); }
  }

  lemma SeedMeasures(sqrt: real -> real, a: real, gx: real, gy: real, dx: int, dy: int) returns (e: real, f: real)
    requires IsSqrt(sqrt) && a > 0.0 && (dx != 0 || dy != 0)
    ensures Measures(SeedDistance(sqrt, a, gx, gy, dx, dy), a, dx, dy, e, f)
  {
    hide IsSqrt, CoversAt, EdgeDf;
    SquareSumIs(dx, dy);
    LengthBounds(sqrt, dx, dy);
    e := LengthSquare(sqrt, dx as real, dy as real);
    f := EdgeDf(sqrt, dx as real, dy as real, AtMostOne(a));
    EdgeCovers(sqrt, dx as real, dy as real, e, AtMostOne(a));
  }

  /** The edge of a half covered pixel passes its centre, that of a full one its far corner. */
  lemma HalfAndFullEdge(nx: real, ny: real, f: real)
    requires nx >= ny >= 0.0 && nx > 0.0
    ensures CoversAt(nx, ny, f, 0.5) ==> f == 0.0
    ensures CoversAt(nx, ny, f, 1.0) ==> f == -0.5 * (nx + ny)
  {
    hide Covered;
    var reach := 0.5 * (nx + ny);
    CoveredMid(nx, ny, reach);
    QuotientIs(reach - 0.5 * ny, nx, 0.5);
    CoveredAll(nx, ny);
    if CoversAt(nx, ny, f, 0.5) { OneEdge(nx, ny, f, 0.0, 0.5); }
    if CoversAt(nx, ny, f, 1.0) { OneEdge(nx, ny, f, -reach, 1.0); }
  }

  lemma HalfSeed(d: real, dx: int, dy: int, e: real, f: real)
    requires Measures(d, 0.5, dx, dy, e, f)
    ensures d == e
  {
    hide CoversAt;
    SquareSumIs(dx, dy);
    var n := Octant(dx as real, dy as real, e);
    HalfAndFullEdge(n.0, n.1, f);
  }

  lemma FullSeed(d: real, a: real, dx: int, dy: int, e: real, f: real)
    requires Measures(d, a, dx, dy, e, f) && a >= 1.0
    ensures d == e - (Abs(dx as real) + Abs(dy as real)) / (2.0 * e)
  {
    hide CoversAt;
    SquareSumIs(dx, dy);
    var n := Octant(dx as real, dy as real, e);
    HalfAndFullEdge(n.0, n.1, f);
    var x, y := Abs(dx as real), Abs(dy as real);
    var p := QuotientTimes(x, e);
    var q := QuotientTimes(y, e);
    var reach := 0.5 * (p + q);
    assert n.0 + n.1 == p + q;
    assert reach * (2.0 * e) == p * e + q * e;
    QuotientIs(x + y, 2.0 * e, reach);
  }

  lemma CoveredAll(nx: real, ny: real)
    requires nx >= ny >= 0.0 && nx > 0.0
    ensures Covered(nx, ny, nx + ny) == 1.0
  {
    if ny == 0.0 {
      CoveredMid(nx, ny, nx);
      QuotientIs(nx, nx, 1.0);
    }
  }

  // ---- the arrays ----

  predicate ValueAt(m: Image, x: int, y: int, a: real) {
    var i := Index(m, x, y);
    0 <= i < |m.img| && m.img[i] == a
  }

  predicate GradientIs(m: Image, x: int, y: int, gx: real, gy: real) {
    var i := Index(m, x, y);
    0 <= i < |m.gx| && i < |m.gy| && m.gx[i] == gx && m.gy[i] == gy
  }

  /** Pixel (x, y) holds the vector (dx, dy) and the distance d. */
  predicate Holds(m: Image, s: Field, x: int, y: int, dx: int, dy: int, d: real) {
    var i := Index(m, x, y);
    0 <= i < |s.d| && i < |s.dx| && i < |s.dy| && s.dx[i] == dx && s.dy[i] == dy && s.d[i] == d
  }

  lemma SoundSizes(m: Image, s: Field)
    requires Sound(m, s)
    ensures m.Valid() && |s.dx| == |s.dy| == |s.d| == Pixels(m) == |m.img| == |m.gx| == |m.gy| && IsSqrt(m.sqrt)
  {
  }

  /** In every sound state the distance of a pixel whose vector is not zero is the distance of the
      object pixel that the vector leads to. */
  lemma DistanceMeans(m: Image, s: Field, x: int, y: int) returns (dx: int, dy: int, d: real, a: real, e: real, f: real)
    requires Sound(m, s) && Inside(m, x, y)
    ensures Holds(m, s, x, y, dx, dy, d) && Inside(m, x - dx, y - dy) && ValueAt(m, x - dx, y - dy, a)
    ensures dx != 0 || dy != 0 ==> Measures(d, a, dx, dy, e, f)
  {
    hide IsSqrt, Index, Pixels, Sound, SeedDistance, EdgeDf, Initial, Measures, Inside, RowStep;
    SoundSizes(m, s);
    IndexInside(m, x, y);
    var i := Index(m, x, y);
    dx, dy, d := s.dx[i], s.dy[i], s.d[i];
    SeedInside(m, s, x, y);
    PixelOfSound(m, s, x, y);
    IndexInside(m, x - dx, y - dy);
    var c := Index(m, x - dx, y - dy);
    a, e, f := m.img[c], 0.0, 0.0;
    if dx != 0 || dy != 0 {
      e, f := SeedMeasures(m.sqrt, a, m.gx[c], m.gy[c], dx, dy);
    }
  }

  /** A pixel that is its own seed: background is "not set"; a full pixel is at most at 0; a grey
      one is where the edge across its gradient covers its value. */
  lemma OwnDistance(m: Image, s: Field, x: int, y: int, d: real, a: real, gx: real, gy: real, g: real)
    requires Sound(m, s) && Inside(m, x, y) && Holds(m, s, x, y, 0, 0, d)
    requires ValueAt(m, x, y, a) && GradientIs(m, x, y, gx, gy)
    ensures a <= 0.0 ==> d == 1000000.0
    ensures a >= 1.0 ==> d <= 0.0
    ensures 0.0 < a < 1.0 && gx == gy == 0.0 ==> d == 0.5 - a
    ensures 0.0 < a < 1.0 && g > 0.0 && g * g == gx * gx + gy * gy ==>
      var n := Octant(gx, gy, g);
      CoversAt(n.0, n.1, d, a)
  {
    hide IsSqrt, Index, Pixels, Sound, CoversAt, Inside, RowStep;
    SoundSizes(m, s);
    PixelOfSound(m, s, x, y);
    RowStepZero(m);
    if a > 0.0 {
      OwnMetric(m.sqrt, a, gx, gy);
      if a < 1.0 && g > 0.0 && g * g == gx * gx + gy * gy { EdgeCovers(m.sqrt, gx, gy, g, a); }
    }
  }

  lemma OwnMetric(sqrt: real -> real, a: real, gx: real, gy: real)
    requires IsSqrt(sqrt) && a > 0.0
    ensures SeedDistance(sqrt, a, gx, gy, 0, 0) == EdgeDf(sqrt, gx, gy, AtMostOne(a))
  {
    SeedDistanceBounds(sqrt, a, gx, gy, 0, 0);
  }

  /** At the end no pixel gains more than a thousandth from the seed of any of its neighbours. */
  lemma NeighbourSeeds(m: Image, s: Field, x: int, y: int, ox: int, oy: int, d: real, dx: int, dy: int, d': real,
                       a: real) returns (offer: real, e: real, f: real)
    requires Sound(m, s) && FixedPoint(m, s) && Inside(m, x, y) && Inside(m, x + ox, y + oy) && Adjacent(ox, oy)
    requires (exists vx, vy :: Holds(m, s, x, y, vx, vy, d)) && d > 0.0
    requires Holds(m, s, x + ox, y + oy, dx, dy, d') && ValueAt(m, x + ox - dx, y + oy - dy, a)
    requires a > 0.0 && (dx != ox || dy != oy)
    ensures Measures(offer, a, dx - ox, dy - oy, e, f) && d <= offer + 0.001
  {
    hide IsSqrt, Index, Pixels, Sound, SeedDistance, FixedPoint, Measures, Inside, RowStep;
    SoundSizes(m, s);
    SeedInside(m, s, x + ox, y + oy);
    IndexStep(m, x, y, ox, oy);
    SettledAt(m, s, x, y, ox, oy);
    var seed := Index(m, x + ox - dx, y + oy - dy);
    offer := SeedDistance(m.sqrt, a, m.gx[seed], m.gy[seed], dx - ox, dy - oy);
    e, f := SeedMeasures(m.sqrt, a, m.gx[seed], m.gy[seed], dx - ox, dy - oy);
  }

  /** (x0, y0) is the only object pixel. */
  ghost predicate OnlyObject(m: Image, x0: int, y0: int, a: real) {
    && Inside(m, x0, y0) && ValueAt(m, x0, y0, a) && a > 0.0
    && forall x, y, b :: Inside(m, x, y) && ValueAt(m, x, y, b) && b > 0.0 ==> x == x0 && y == y0
  }

  /** With one object pixel the transform is exact: every other pixel ends with its own vector to
      that pixel and the distance along it. */
  lemma SingleSeed(m: Image, s: Field, x0: int, y0: int, a: real, x: int, y: int) returns (d: real, e: real, f: real)
    requires Sound(m, s) && FixedPoint(m, s) && OnlyObject(m, x0, y0, a)
    requires Inside(m, x, y) && (x != x0 || y != y0)
    ensures Holds(m, s, x, y, x - x0, y - y0, d) && Measures(d, a, x - x0, y - y0, e, f)
  {
    hide IsSqrt, Index, Pixels, Sound, FixedPoint, Measures, Inside, RowStep, Holds;
    var dx, dy, b;
    dx, dy, d, b, e, f := DistanceMeans(m, s, x, y);
    Completeness(m, s, x0, y0, x, y);
    SeedIsObject(m, s, x, y, dx, dy, d, b);
  }

  lemma SeedIsObject(m: Image, s: Field, x: int, y: int, dx: int, dy: int, d: real, b: real)
    requires Sound(m, s) && Inside(m, x, y) && Known(m, s, x, y) && Holds(m, s, x, y, dx, dy, d)
    requires ValueAt(m, x - dx, y - dy, b)
    ensures b > 0.0
  {
    hide Index, Sound, Inside, RowStep;
    SeedInside(m, s, x, y);
  }
}
