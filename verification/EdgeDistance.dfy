/** The two distance estimates of external/freetype-gl/edtaa3func.c, over the reals. The square
    root is a parameter: any function that is one. */
module EdgeDistance {

  ghost predicate IsSqrt(sqrt: real -> real) {
    forall x :: x >= 0.0 ==> sqrt(x) >= 0.0 && sqrt(x) * sqrt(x) == x
  }

  /** "not set yet" */
  const FAR: real := 1000000.0

  function Abs(x: real): real { if x < 0.0 then -x else x }

  /** The square root edgedf takes of a corner of the pixel with the given area. */
  function CornerRoot(sqrt: real -> real, gx: real, gy: real, area: real): real {
    sqrt(2.0 * gx * gy * area)
  }

  /** edgedf for a gradient in the first octant. */
  function OctantDf(sqrt: real -> real, gx: real, gy: real, a: real): real
    requires gx > 0.0
  {
    var a1 := 0.5 * gy / gx;
    if a < a1 then 0.5 * (gx + gy) - CornerRoot(sqrt, gx, gy, a)
    else if a < 1.0 - a1 then (0.5 - a) * gx
    else -0.5 * (gx + gy) + CornerRoot(sqrt, gx, gy, 1.0 - a)
  }

  /** The length of a gradient. */
  function Length(sqrt: real -> real, gx: real, gy: real): real {
    sqrt(gx * gx + gy * gy)
  }

  function EdgeDf(sqrt: real -> real, gx: real, gy: real, a: real): real {
    if gx == 0.0 || gy == 0.0 then 0.5 - a
    else
      var glength := Length(sqrt, gx, gy);
      var nx := if glength > 0.0 then gx / glength else gx;
      var ny := if glength > 0.0 then gy / glength else gy;
      NonZeroQuotient(gx, gy, glength);
      var ax, ay := Abs(nx), Abs(ny);
      if ax < ay then OctantDf(sqrt, ay, ax, a) else OctantDf(sqrt, ax, ay, a)
  }

  lemma NonZeroQuotient(gx: real, gy: real, glength: real)
    requires gx != 0.0 && gy != 0.0
    ensures glength > 0.0 ==> gx / glength != 0.0 && gy / glength != 0.0
  {
    if glength > 0.0 {
      assert gx / glength * glength == gx;
      assert gy / glength * glength == gy;
    }
  }

  /** distaa3 once the seed pixel is known: a is its value, (gx, gy) its gradient, and (xi, yi)
      the vector from it to the pixel. */
  function SeedDistance(sqrt: real -> real, a: real, gx: real, gy: real, xi: int, yi: int): real {
    var clipped := if a > 1.0 then 1.0 else if a < 0.0 then 0.0 else a;
    if clipped == 0.0 then FAR
    else
      var dx, dy := xi as real, yi as real;
      var di := Length(sqrt, dx, dy);
      var df := if di == 0.0 then EdgeDf(sqrt, gx, gy, clipped) else EdgeDf(sqrt, dx, dy, clipped);
      di + df
  }

  // ---- bounds ----

  lemma PositiveProduct(a: real, b: real) returns (p: real)
    requires a > 0.0 && b > 0.0
    ensures p == a * b && p > 0.0
  {
    p := a * b;
  }

  /** The square as a number of its own: comparisons with it stay linear. */
  lemma Square(x: real) returns (s: real)
    ensures s == x * x && s >= 0.0 && (x != 0.0 ==> s > 0.0)
  {
    if x > 0.0 {
      s := PositiveProduct(x, x);
    } else if x < 0.0 {
      s := PositiveProduct(-x, -x);
    } else {
      s := 0.0;
    }
  }

  lemma ZeroSquare(x: real)
    ensures x == 0.0 ==> x * x == 0.0
  {
  }

  lemma PositiveRoot(x: real, square: real)
    requires x >= 0.0 && x * x == square && square > 0.0
    ensures x > 0.0
  {
    ZeroSquare(x);
  }

  lemma SquareDifference(s: real, t: real)
    ensures (s - t) * (s + t) == s * s - t * t
  {
  }

  lemma SquareOrder(s: real, t: real)
    requires 0.0 <= s && 0.0 <= t && s * s <= t * t
    ensures s <= t
  {
    if s > t {
      var p := PositiveProduct(s - t, s + t);
      SquareDifference(s, t);
    }
  }

  lemma RootAtMost(sqrt: real -> real, x: real, t: real)
    requires IsSqrt(sqrt) && 0.0 <= x <= t * t && 0.0 <= t
    ensures 0.0 <= sqrt(x) <= t
  {
    SquareOrder(sqrt(x), t);
  }

  lemma HalfSum(gx: real, gy: real)
    requires gx >= 0.0 && gy >= 0.0 && gx * gx + gy * gy == 1.0
    ensures 0.5 * (gx + gy) <= 0.75
  {
    var d := Square(gx - gy);
    assert d == 1.0 - 2.0 * (gx * gy);
    var s := 0.5 * (gx + gy);
    assert s * s == 0.25 * (1.0 + 2.0 * (gx * gy));
    SquareOrder(s, 0.75);
  }

  lemma Cancel(a: real, b: real, k: real, x: real, y: real)
    requires k > 0.0 && a * k == x && b * k == y && k == x + y
    ensures a + b == 1.0
  {
    assert (a + b - 1.0) * k == a * k + b * k - k;
  }

  lemma Scaled(a: real, b: real, k: real)
    requires a <= b && 0.0 <= k
    ensures a * k <= b * k
  {
    assert (b - a) * k >= 0.0;
  }

  /** The area a1 at which the edge leaves the corner of the pixel. */
  lemma CornerArea(gx: real, gy: real)
    requires gx > 0.0
    ensures var a1 := 0.5 * gy / gx;
      2.0 * gx * gy * a1 == gy * gy
  {
    var a1 := 0.5 * gy / gx;
    assert a1 * gx == 0.5 * gy;
    assert 2.0 * gx * gy * a1 == 2.0 * gy * (a1 * gx);
  }

  lemma OctantBounds(sqrt: real -> real, gx: real, gy: real, a: real)
    requires IsSqrt(sqrt) && gx >= gy > 0.0 && gx * gx + gy * gy == 1.0 && 0.0 <= a <= 1.0
    ensures -0.75 <= OctantDf(sqrt, gx, gy, a) <= 0.75
  {
    hide IsSqrt, CornerRoot;
    HalfSum(gx, gy);
    CornerArea(gx, gy);
    var a1 := 0.5 * gy / gx;
    if a < a1 {
      RootOfPart(sqrt, gx, gy, a1, a);
    } else if a < 1.0 - a1 {
      HalfTimes(gx, gy, a);
    } else {
      RootOfPart(sqrt, gx, gy, a1, 1.0 - a);
    }
  }

  lemma RootOfPart(sqrt: real -> real, gx: real, gy: real, a1: real, a: real)
    requires IsSqrt(sqrt) && gx > 0.0 && gy > 0.0 && 0.0 <= a <= a1 && 2.0 * gx * gy * a1 == gy * gy
    ensures 0.0 <= CornerRoot(sqrt, gx, gy, a) <= gy
  {
    var k := 2.0 * gx * gy;
    assert k > 0.0;
    assert 0.0 <= k * a <= k * a1;
    RootAtMost(sqrt, k * a, gy);
  }

  lemma HalfTimes(gx: real, gy: real, a: real)
    requires 0.0 < gy <= gx && gx * gx + gy * gy == 1.0 && 0.0 <= a <= 1.0
    ensures -0.5 <= (0.5 - a) * gx <= 0.5
  {
    var sy := Square(gy);
    SquareOrder(gx, 1.0);
    var h := 0.5 - a;
    Scaled(-0.5, h, gx);
    Scaled(h, 0.5, gx);
    assert -0.5 <= -0.5 * gx <= h * gx <= 0.5 * gx <= 0.5;
  }

  /** The estimate inside a pixel is off by less than its diagonal. */
  lemma EdgeBounds(sqrt: real -> real, gx: real, gy: real, a: real)
    requires IsSqrt(sqrt) && 0.0 <= a <= 1.0
    ensures -0.75 <= EdgeDf(sqrt, gx, gy, a) <= 0.75
  {
    if gx != 0.0 && gy != 0.0 {
      hide OctantDf, IsSqrt, Length;
      Normalised(sqrt, gx, gy);
      var g := Length(sqrt, gx, gy);
      NonZeroQuotient(gx, gy, g);
      var nx, ny := gx / g, gy / g;
      var ax, ay := Abs(nx), Abs(ny);
      UnitAbs(nx, ny);
      if ax < ay {
        OctantBounds(sqrt, ay, ax, a);
      } else {
        OctantBounds(sqrt, ax, ay, a);
      }
    }
  }

  lemma UnitAbs(nx: real, ny: real)
    requires nx != 0.0 && ny != 0.0 && nx * nx + ny * ny == 1.0
    ensures var ax, ay := Abs(nx), Abs(ny);
      ax > 0.0 && ay > 0.0 && ax * ax + ay * ay == 1.0
  {
  }

  lemma LengthSquare(sqrt: real -> real, gx: real, gy: real) returns (g: real)
    requires IsSqrt(sqrt)
    ensures g == Length(sqrt, gx, gy)
    ensures g >= 0.0 && g * g == gx * gx + gy * gy
  {
    var sx := Square(gx);
    var sy := Square(gy);
    g := Length(sqrt, gx, gy);
  }

  lemma Normalised(sqrt: real -> real, gx: real, gy: real)
    requires IsSqrt(sqrt) && gx != 0.0
    ensures var g := Length(sqrt, gx, gy);
      g > 0.0 && (gx / g) * (gx / g) + (gy / g) * (gy / g) == 1.0
  {
    hide IsSqrt, Length;
    var sx := Square(gx);
    var sy := Square(gy);
    var g := LengthSquare(sqrt, gx, gy);
    PositiveRoot(g, sx + sy);
    var k := Square(g);
    var a := QuotientSquare(gx, g, k, sx);
    var b := QuotientSquare(gy, g, k, sy);
    Cancel(a, b, k, sx, sy);
  }

  lemma QuotientSquare(x: real, g: real, k: real, square: real) returns (s: real)
    requires g > 0.0 && k == g * g && square == x * x
    ensures s == (x / g) * (x / g) && s * k == square
  {
    var n := x / g;
    s := n * n;
    assert n * g == x;
    assert s * k == (n * g) * (n * g);
  }

  // ---- signs ----

  /** d is positive, zero or negative as a is below, at or above one half. */
  predicate SignOfHalf(d: real, a: real) {
    (d > 0.0 <==> a < 0.5) && (d == 0.0 <==> a == 0.5)
  }

  lemma RootBelow(sqrt: real -> real, x: real, t: real)
    requires IsSqrt(sqrt) && 0.0 <= x < t * t && 0.0 <= t
    ensures sqrt(x) < t
  {
    var s := sqrt(x);
    if s >= t {
      SquareDifference(s, t);
      Scaled(0.0, s - t, s + t);
    }
  }

  lemma RootIs(sqrt: real -> real, x: real, t: real)
    requires IsSqrt(sqrt) && x == t * t && x >= 0.0 && t >= 0.0
    ensures sqrt(x) == t
  {
    SquareOrder(sqrt(x), t);
    SquareOrder(t, sqrt(x));
  }

  lemma CornerRadicand(gx: real, gy: real, a1: real, a: real) returns (x: real)
    requires gx > 0.0 && gy > 0.0 && 0.0 <= a <= a1 && 2.0 * gx * gy * a1 == gy * gy
    ensures x == 2.0 * gx * gy * a && x >= 0.0 && if a < a1 then x < gy * gy else x == gy * gy
  {
    var k := 2.0 * gx * gy;
    var p := PositiveProduct(gx, gy);
    assert k == 2.0 * p;
    x := k * a;
    Scaled(0.0, a, k);
    if a < a1 {
      var q := PositiveProduct(a1 - a, k);
      assert q == k * a1 - k * a;
    }
  }

  /** The root of a corner area below a1 stays below gy, and reaches it at a1. */
  lemma CornerRootSign(sqrt: real -> real, gx: real, gy: real, a1: real, a: real)
    requires IsSqrt(sqrt) && gx > 0.0 && gy > 0.0 && 0.0 <= a <= a1 && 2.0 * gx * gy * a1 == gy * gy
    ensures if a < a1 then CornerRoot(sqrt, gx, gy, a) < gy else CornerRoot(sqrt, gx, gy, a) == gy
  {
    hide IsSqrt;
    var x := CornerRadicand(gx, gy, a1, a);
    if a < a1 {
      RootBelow(sqrt, x, gy);
    } else {
      RootIs(sqrt, x, gy);
    }
  }

  lemma HalfQuotient(gx: real, gy: real)
    requires gx >= gy > 0.0
    ensures var a1 := 0.5 * gy / gx;
      0.0 < a1 <= 0.5 && (a1 == 0.5 <==> gx == gy)
  {
    var a1 := 0.5 * gy / gx;
    assert a1 * gx == 0.5 * gy;
    if a1 > 0.5 { var p := PositiveProduct(a1 - 0.5, gx); }
    if a1 < 0.5 { var p := PositiveProduct(0.5 - a1, gx); }
    if a1 <= 0.0 { Scaled(a1, 0.0, gx); }
  }

  lemma OctantSign(sqrt: real -> real, gx: real, gy: real, a: real)
    requires IsSqrt(sqrt) && gx >= gy > 0.0 && 0.0 <= a <= 1.0
    ensures SignOfHalf(OctantDf(sqrt, gx, gy, a), a)
  {
    hide IsSqrt, CornerRoot;
    CornerArea(gx, gy);
    HalfQuotient(gx, gy);
    var a1 := 0.5 * gy / gx;
    if a < a1 {
      CornerRootSign(sqrt, gx, gy, a1, a);
    } else if a < 1.0 - a1 {
      if a < 0.5 { var p := PositiveProduct(0.5 - a, gx); }
      if a > 0.5 { var p := PositiveProduct(a - 0.5, gx); }
    } else {
      CornerRootSign(sqrt, gx, gy, a1, 1.0 - a);
    }
  }

  /** For every gradient the estimate has the sign of one half minus the value of the pixel. */
  lemma EdgeSign(sqrt: real -> real, gx: real, gy: real, a: real)
    requires IsSqrt(sqrt) && 0.0 <= a <= 1.0
    ensures SignOfHalf(EdgeDf(sqrt, gx, gy, a), a)
  {
    if gx != 0.0 && gy != 0.0 {
      hide OctantDf, IsSqrt, Length;
      Normalised(sqrt, gx, gy);
      var g := Length(sqrt, gx, gy);
      NonZeroQuotient(gx, gy, g);
      var ax, ay := Abs(gx / g), Abs(gy / g);
      if ax < ay {
        OctantSign(sqrt, ay, ax, a);
      } else {
        OctantSign(sqrt, ax, ay, a);
      }
    }
  }

  /** Known seeds: near 0 at the seed itself, clearly positive everywhere else, and never as far
      as an unset pixel. */
  lemma SeedDistanceBounds(sqrt: real -> real, a: real, gx: real, gy: real, xi: int, yi: int)
    requires IsSqrt(sqrt)
    ensures a <= 0.0 ==> SeedDistance(sqrt, a, gx, gy, xi, yi) == FAR
    ensures a > 0.0 ==>
      var d := SeedDistance(sqrt, a, gx, gy, xi, yi);
      && -0.75 <= d <= Abs(xi as real) + Abs(yi as real) + 0.75
      && ((xi != 0 || yi != 0) ==> d >= 0.25)
      && (xi == 0 && yi == 0 ==> d == EdgeDf(sqrt, gx, gy, if a > 1.0 then 1.0 else a))
  {
    if a > 0.0 {
      var clipped := if a > 1.0 then 1.0 else a;
      var dx, dy := xi as real, yi as real;
      LengthBounds(sqrt, xi, yi);
      EdgeBounds(sqrt, gx, gy, clipped);
      EdgeBounds(sqrt, dx, dy, clipped);
    }
  }

  lemma LengthBounds(sqrt: real -> real, xi: int, yi: int)
    requires IsSqrt(sqrt)
    ensures var dx, dy := xi as real, yi as real;
      var di := Length(sqrt, dx, dy);
      && 0.0 <= di <= Abs(dx) + Abs(dy)
      && (if xi == 0 && yi == 0 then di == 0.0 else di >= 1.0)
  {
    var dx, dy := xi as real, yi as real;
    var ax, ay := Abs(dx), Abs(dy);
    assert ax * ax == dx * dx && ay * ay == dy * dy && ax * ay >= 0.0;
    assert (ax + ay) * (ax + ay) == dx * dx + dy * dy + 2.0 * (ax * ay);
    var di := LengthSquare(sqrt, dx, dy);
    SquareOrder(di, ax + ay);
    SquareAtLeastOne(xi);
    SquareAtLeastOne(yi);
    if xi != 0 || yi != 0 {
      SquareOrder(1.0, di);
    } else {
      SquareOrder(di, 0.0);
    }
  }

  lemma SquareAtLeastOne(x: int)
    ensures (x as real) * (x as real) >= 0.0
    ensures x != 0 ==> (x as real) * (x as real) >= 1.0
  {
    var r := x as real;
    if x >= 1 {
      assert r * r >= r * 1.0;
    } else if x <= -1 {
      assert (-r) * (-r) >= (-r) * 1.0;
      assert (-r) * (-r) == r * r;
    }
  }
}
