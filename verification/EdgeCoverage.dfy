/** What the edge estimate of external/freetype-gl/edtaa3func.c estimates: the distance from the
    centre of a pixel to a straight edge that covers as much of the pixel as its grey value says. */
module EdgeCoverage {
  import opened EdgeDistance

  /** How much of the unit pixel lies within t of its outermost corner, measured along a normal
      (nx, ny) of the first octant: first a triangle, then a trapezium of height 1, and at the end
      all but a triangle at the opposite corner. */
  function Covered(nx: real, ny: real, t: real): real
    requires nx >= ny >= 0.0 && nx > 0.0
  {
    if t <= 0.0 then 0.0
    else if t <= ny then 0.5 * (t / nx) * (t / ny)
    else if t <= nx then 0.5 * (t / nx + (t - ny) / nx)
    else if t < nx + ny then 1.0 - 0.5 * ((nx + ny - t) / nx) * ((nx + ny - t) / ny)
    else 1.0
  }

  /** An edge that passes the centre of the pixel at the signed distance f touches the pixel and
      covers the area a of it. */
  predicate CoversAt(nx: real, ny: real, f: real, a: real)
    requires nx >= ny >= 0.0 && nx > 0.0
  {
    var reach := 0.5 * (nx + ny);
    -reach <= f <= reach && Covered(nx, ny, reach - f) == a
  }

  // ---- quotients ----

  lemma QuotientTimes(x: real, n: real) returns (r: real)
    requires n > 0.0
    ensures r == x / n && r * n == x
  {
    r := x / n;
  }

  lemma QuotientIs(x: real, n: real, r: real)
    requires n > 0.0 && r * n == x
    ensures x / n == r
  {
    var q := QuotientTimes(x, n);
    if q > r { var p := PositiveProduct(q - r, n); }
    if q < r { var p := PositiveProduct(r - q, n); }
  }

  lemma QuotientGrows(x: real, y: real, n: real)
    requires n > 0.0 && x < y
    ensures x / n < y / n
  {
    var q := QuotientTimes(x, n);
    var r := QuotientTimes(y, n);
    if q >= r { Scaled(r, q, n); }
  }

  lemma ProductGrows(x: real, x': real, y: real, y': real)
    requires 0.0 <= x < x' && 0.0 <= y < y'
    ensures x * y < x' * y'
  {
    Scaled(x, x', y);
    var p := PositiveProduct(y' - y, x');
    assert x' * y' - x' * y == p;
  }

  /** The two legs of a corner triangle. */
  lemma Legs(nx: real, ny: real, t: real) returns (p: real, q: real)
    requires nx > 0.0 && ny > 0.0 && t >= 0.0
    ensures p == t / nx && q == t / ny && p >= 0.0 && q >= 0.0 && p * nx == t && q * ny == t
    ensures t == 0.0 ==> p == 0.0 && q == 0.0
  {
    p := QuotientTimes(t, nx);
    q := QuotientTimes(t, ny);
    if p < 0.0 { var r := PositiveProduct(-p, nx); }
    if q < 0.0 { var r := PositiveProduct(-q, ny); }
    QuotientIs(0.0, nx, 0.0);
    QuotientIs(0.0, ny, 0.0);
  }

  // ---- the area grows with the edge ----

  function Triangle(nx: real, ny: real, t: real): real
    requires nx > 0.0 && ny > 0.0
  {
    0.5 * (t / nx) * (t / ny)
  }

  lemma TriangleGrows(nx: real, ny: real, t: real, t': real)
    requires nx > 0.0 && ny > 0.0 && 0.0 <= t < t'
    ensures Triangle(nx, ny, t) < Triangle(nx, ny, t')
  {
    var p, q := Legs(nx, ny, t);
    var p', q' := Legs(nx, ny, t');
    QuotientGrows(t, t', nx);
    QuotientGrows(t, t', ny);
    ProductGrows(p, p', q, q');
    assert Triangle(nx, ny, t) == 0.5 * (p * q) && Triangle(nx, ny, t') == 0.5 * (p' * q');
  }

  /** The largest triangle reaches the next corner. */
  lemma TriangleFull(nx: real, ny: real)
    requires nx > 0.0 && ny > 0.0
    ensures Triangle(nx, ny, ny) == (0.5 * ny) / nx && Triangle(nx, ny, 0.0) == 0.0
  {
    var p, q := Legs(nx, ny, ny);
    QuotientIs(ny, ny, 1.0);
    assert q == 1.0;
    assert Triangle(nx, ny, ny) == 0.5 * (p * q) == 0.5 * p;
    QuotientIs(0.5 * ny, nx, 0.5 * p);
    var p0, q0 := Legs(nx, ny, 0.0);
    assert Triangle(nx, ny, 0.0) == 0.5 * (p0 * q0);
  }

  lemma CoveredLow(nx: real, ny: real, t: real)
    requires nx >= ny > 0.0 && 0.0 <= t <= ny
    ensures Covered(nx, ny, t) == Triangle(nx, ny, t)
  {
    TriangleFull(nx, ny);
  }

  lemma CoveredMid(nx: real, ny: real, t: real)
    requires nx >= ny >= 0.0 && nx > 0.0 && ny <= t <= nx
    ensures Covered(nx, ny, t) == (t - 0.5 * ny) / nx
  {
    var r := QuotientTimes(t, nx);
    var r' := QuotientTimes(t - ny, nx);
    assert 0.5 * (r + r') * nx == 0.5 * (r * nx + r' * nx);
    QuotientIs(t - 0.5 * ny, nx, 0.5 * (r + r'));
    if t == ny {
      if ny == 0.0 {
        QuotientIs(0.0, nx, 0.0);
      } else {
        TriangleFull(nx, ny);
      }
    }
  }

  lemma CoveredHigh(nx: real, ny: real, t: real)
    requires nx >= ny > 0.0 && nx <= t <= nx + ny
    ensures Covered(nx, ny, t) == 1.0 - Triangle(nx, ny, nx + ny - t)
  {
    TriangleFull(nx, ny);
    if t == nx {
      CoveredMid(nx, ny, t);
      var r := QuotientTimes(0.5 * ny, nx);
      assert (1.0 - r) * nx == nx - r * nx;
      QuotientIs(nx - 0.5 * ny, nx, 1.0 - r);
    }
  }

  lemma GrowsWithin(nx: real, ny: real, t: real, t': real)
    requires nx >= ny >= 0.0 && nx > 0.0 && 0.0 <= t < t' <= nx + ny
    requires t' <= ny || ny <= t < t' <= nx || nx <= t
    ensures Covered(nx, ny, t) < Covered(nx, ny, t')
  {
    hide Covered, Triangle;
    if t' <= ny {
      CoveredLow(nx, ny, t);
      CoveredLow(nx, ny, t');
      TriangleGrows(nx, ny, t, t');
    } else if ny <= t && t' <= nx {
      CoveredMid(nx, ny, t);
      CoveredMid(nx, ny, t');
      QuotientGrows(t - 0.5 * ny, t' - 0.5 * ny, nx);
    } else {
      CoveredHigh(nx, ny, t);
      CoveredHigh(nx, ny, t');
      TriangleGrows(nx, ny, nx + ny - t', nx + ny - t);
    }
  }

  /** The farther the edge, the more it covers. */
  lemma {:induction false} CoveredGrows(nx: real, ny: real, t: real, t': real)
    requires nx >= ny >= 0.0 && nx > 0.0 && 0.0 <= t < t' <= nx + ny
    ensures Covered(nx, ny, t) < Covered(nx, ny, t')
    decreases if t < ny then 2 else if t < nx then 1 else 0
  {
    hide Covered;
    if t < ny < t' {
      GrowsWithin(nx, ny, t, ny);
      CoveredGrows(nx, ny, ny, t');
    } else if t < nx < t' {
      GrowsWithin(nx, ny, t, nx);
      CoveredGrows(nx, ny, nx, t');
    } else {
      GrowsWithin(nx, ny, t, t');
    }
  }

  /** So the covered area determines the distance of the edge. */
  lemma OneEdge(nx: real, ny: real, f: real, f': real, a: real)
    requires nx >= ny >= 0.0 && nx > 0.0 && CoversAt(nx, ny, f, a) && CoversAt(nx, ny, f', a)
    ensures f == f'
  {
    hide Covered;
    var reach := 0.5 * (nx + ny);
    if f < f' { CoveredGrows(nx, ny, reach - f', reach - f); }
    if f' < f { CoveredGrows(nx, ny, reach - f, reach - f'); }
  }

  // ---- the estimate inverts the area ----

  lemma CornerTriangle(sqrt: real -> real, nx: real, ny: real, a: real, a1: real)
    requires IsSqrt(sqrt) && nx > 0.0 && ny > 0.0 && 0.0 <= a <= a1 && 2.0 * nx * ny * a1 == ny * ny
    ensures var t := CornerRoot(sqrt, nx, ny, a);
      0.0 <= t <= ny && Triangle(nx, ny, t) == a
  {
    hide IsSqrt;
    RootOfPart(sqrt, nx, ny, a1, a);
    var t := CornerRoot(sqrt, nx, ny, a);
    RootSquare(sqrt, nx, ny, a);
    var p, q := Legs(nx, ny, t);
    var k := PositiveProduct(nx, ny);
    assert (p * nx) * (q * ny) == (p * q) * k;
    assert t * t == 2.0 * a * k;
    assert (0.5 * (p * q)) * k == a * k;
    SameFactor(0.5 * (p * q), a, k);
    assert Triangle(nx, ny, t) == 0.5 * (p * q);
  }

  lemma RootSquare(sqrt: real -> real, nx: real, ny: real, a: real)
    requires IsSqrt(sqrt) && nx > 0.0 && ny > 0.0 && a >= 0.0
    ensures var t := CornerRoot(sqrt, nx, ny, a);
      t * t == 2.0 * nx * ny * a
  {
    var k := PositiveProduct(nx, ny);
    Scaled(0.0, a, 2.0 * k);
    assert 2.0 * nx * ny * a == a * (2.0 * k);
  }

  lemma SameFactor(x: real, y: real, k: real)
    requires k > 0.0 && x * k == y * k
    ensures x == y
  {
    if x < y { var p := PositiveProduct(y - x, k); }
    if y < x { var p := PositiveProduct(x - y, k); }
  }

  /** edgedf in the first octant finds the edge. */
  lemma OctantCovers(sqrt: real -> real, nx: real, ny: real, a: real)
    requires IsSqrt(sqrt) && nx >= ny > 0.0 && 0.0 <= a <= 1.0
    ensures CoversAt(nx, ny, OctantDf(sqrt, nx, ny, a), a)
  {
    hide IsSqrt, CornerRoot, Covered, Triangle;
    CornerArea(nx, ny);
    HalfQuotient(nx, ny);
    var reach, a1, f := 0.5 * (nx + ny), 0.5 * ny / nx, OctantDf(sqrt, nx, ny, a);
    if a < a1 {
      CornerTriangle(sqrt, nx, ny, a, a1);
      CoveredLow(nx, ny, reach - f);
    } else if a < 1.0 - a1 {
      var t := 0.5 * ny + a * nx;
      assert reach - f == t;
      MidRange(nx, ny, a, a1);
      CoveredMid(nx, ny, t);
      QuotientIs(t - 0.5 * ny, nx, a);
    } else {
      CornerTriangle(sqrt, nx, ny, 1.0 - a, a1);
      CoveredHigh(nx, ny, reach - f);
    }
  }

  lemma MidRange(nx: real, ny: real, a: real, a1: real)
    requires nx > 0.0 && a1 == 0.5 * ny / nx && a1 <= a <= 1.0 - a1
    ensures ny <= 0.5 * ny + a * nx <= nx
  {
    var r := QuotientTimes(0.5 * ny, nx);
    assert a1 == r;
    Scaled(a1, a, nx);
    Scaled(a, 1.0 - a1, nx);
    assert (1.0 - a1) * nx == nx - a1 * nx;
  }

  // ---- any direction ----

  /** The unit normal of an edge with the normal (gx, gy) of length e, mirrored and transposed into
      the first octant. */
  function Octant(gx: real, gy: real, e: real): (n: (real, real))
    requires e > 0.0 && e * e == gx * gx + gy * gy
    ensures n.0 >= n.1 >= 0.0 && n.0 > 0.0
  {
    OctantIsUnit(gx, gy, e);
    var ax, ay := Abs(gx) / e, Abs(gy) / e;
    if ax < ay then (ay, ax) else (ax, ay)
  }

  lemma OctantIsUnit(gx: real, gy: real, e: real)
    requires e > 0.0 && e * e == gx * gx + gy * gy
    ensures Abs(gx) / e >= 0.0 && Abs(gy) / e >= 0.0 && (Abs(gx) / e > 0.0 || Abs(gy) / e > 0.0)
    ensures gx == 0.0 ==> Abs(gx) / e == 0.0 && Abs(gy) / e == 1.0
    ensures gy == 0.0 ==> Abs(gy) / e == 0.0 && Abs(gx) / e == 1.0
  {
    AbsQuotient(gx, e);
    AbsQuotient(gy, e);
    var k := Square(e);
    var sx := Square(gx);
    var sy := Square(gy);
    if gx == 0.0 { SquareOrder(Abs(gy), e); SquareOrder(e, Abs(gy)); QuotientIs(e, e, 1.0); }
    if gy == 0.0 { SquareOrder(Abs(gx), e); SquareOrder(e, Abs(gx)); QuotientIs(e, e, 1.0); }
  }

  lemma AbsQuotient(g: real, e: real)
    requires e > 0.0
    ensures Abs(g) / e >= 0.0 && (g == 0.0 <==> Abs(g) / e == 0.0) && Abs(g) / e == Abs(g / e)
    ensures Abs(g) * Abs(g) == g * g
  {
    var q := QuotientTimes(Abs(g), e);
    var r := QuotientTimes(g, e);
    if q < 0.0 { var p := PositiveProduct(-q, e); }
    if q == 0.0 { assert q * e == 0.0; }
    QuotientIs(0.0, e, 0.0);
    if g < 0.0 {
      assert (-r) * e == -g;
      QuotientIs(-g, e, -r);
    }
  }

  /** edgedf for every gradient with a direction: the signed distance of the edge across it that
      covers the grey value of the pixel. */
  lemma EdgeCovers(sqrt: real -> real, gx: real, gy: real, e: real, a: real)
    requires IsSqrt(sqrt) && e > 0.0 && e * e == gx * gx + gy * gy && 0.0 <= a <= 1.0
    ensures var n := Octant(gx, gy, e);
      CoversAt(n.0, n.1, EdgeDf(sqrt, gx, gy, a), a)
  {
    hide IsSqrt, Covered, OctantDf;
    OctantIsUnit(gx, gy, e);
    if gx == 0.0 || gy == 0.0 {
      CoveredMid(1.0, 0.0, a);
      QuotientIs(a, 1.0, a);
    } else {
      LengthIs(sqrt, gx, gy, e);
      AbsQuotient(gx, e);
      AbsQuotient(gy, e);
      NonZeroQuotient(gx, gy, e);
      var n := Octant(gx, gy, e);
      OctantCovers(sqrt, n.0, n.1, a);
    }
  }

  lemma LengthIs(sqrt: real -> real, gx: real, gy: real, e: real)
    requires IsSqrt(sqrt) && e > 0.0 && e * e == gx * gx + gy * gy
    ensures Length(sqrt, gx, gy) == e
  {
    var g := LengthSquare(sqrt, gx, gy);
    SquareOrder(g, e);
    SquareOrder(e, g);
  }
}
