/** edtaa3 of external/freetype-gl/edtaa3func.c: the in-place sweeps, their termination and the
    fixed point they end in. */
module DistanceSweep {
  import opened EdgeDistance

  const EPSILON: real := 1e-3
  const MAX_SIDE := 32768

  /** The inputs, which the sweeps only read. */
  datatype Image = Image(w: int, h: int, img: seq<real>, gx: seq<real>, gy: seq<real>, sqrt: real -> real) {
    ghost predicate Valid() {
      && 2 <= w <= MAX_SIDE && 2 <= h <= MAX_SIDE
      && |img| == |gx| == |gy| == Pixels(this) && IsSqrt(sqrt)
    }
  }

  /** The contents of distx, disty and dist. */
  datatype Field = Field(dx: seq<int>, dy: seq<int>, d: seq<real>)

  // ---- pixels ----

  predicate Inside(m: Image, x: int, y: int) {
    0 <= x < m.w && 0 <= y < m.h
  }

  function Pixels(m: Image): int { m.w * m.h }

  /** The distance in the arrays of two pixels k rows apart. */
  function RowStep(m: Image, k: int): int { k * m.w }

  function Index(m: Image, x: int, y: int): int {
    RowStep(m, y) + x
  }

  lemma Rows(a: int, b: int, w: nat)
    requires a < b
    ensures a * w + w <= b * w
  {
    assert b * w == a * w + w + (b - a - 1) * w;
    assert (b - a - 1) * w >= 0;
  }

  lemma IndexInside(m: Image, x: int, y: int)
    requires Inside(m, x, y)
    ensures 0 <= Index(m, x, y) < Pixels(m)
  {
    Rows(y, m.h, m.w);
    assert y * m.w >= 0;
  }

  lemma IndexInjective(m: Image, x: int, y: int, x': int, y': int)
    requires Inside(m, x, y) && Inside(m, x', y') && Index(m, x, y) == Index(m, x', y')
    ensures x == x' && y == y'
  {
    if y < y' {
      Rows(y, y', m.w);
    } else if y' < y {
      Rows(y', y, m.w);
    }
  }

  /** Every index is the index of a pixel. */
  lemma PixelOf(m: Image, i: int) returns (x: int, y: int)
    requires m.w >= 1 && m.h >= 0 && 0 <= i < Pixels(m)
    ensures Inside(m, x, y) && Index(m, x, y) == i
  {
    x, y := i % m.w, i / m.w;
    assert i == m.w * y + x;
    if y > m.h - 1 { Rows(m.h - 1, y, m.w); }
  }

  /** Stepping by (ox, oy) in the image is stepping by oy * w + ox in the arrays. */
  lemma IndexStep(m: Image, x: int, y: int, ox: int, oy: int)
    ensures Index(m, x + ox, y + oy) == Index(m, x, y) + (RowStep(m, oy) + ox)
  {
    assert (y + oy) * m.w == y * m.w + RowStep(m, oy);
  }

  // ---- what the arrays mean ----

  /** distaa3: the distance of the seed of pixel number c, seen along (xi, yi). */
  function DistAA(m: Image, c: int, xc: int, yc: int, xi: int, yi: int): real
    requires 0 <= c - xc - RowStep(m, yc) < |m.img| == |m.gx| == |m.gy|
  {
    var closest := c - xc - RowStep(m, yc);
    SeedDistance(m.sqrt, m.img[closest], m.gx[closest], m.gy[closest], xi, yi)
  }

  /** The value the first loop gives pixel number i. */
  function Initial(m: Image, i: int): real
    requires 0 <= i < |m.img| == |m.gx| == |m.gy|
  {
    if m.img[i] <= 0.0 then FAR
    else if m.img[i] < 1.0 then EdgeDf(m.sqrt, m.gx[i], m.gy[i], m.img[i])
    else 0.0
  }

  /** A pixel is as initialised, or its vector leads to an object pixel inside the image and its
      distance is the distance of that seed. */
  ghost predicate PixelSound(m: Image, s: Field, x: int, y: int)
    requires m.Valid() && Inside(m, x, y) && |s.dx| == |s.dy| == |s.d| == Pixels(m)
  {
    IndexInside(m, x, y);
    var i := Index(m, x, y);
    var dx, dy := s.dx[i], s.dy[i];
    && Inside(m, x - dx, y - dy) && s.d[i] <= Initial(m, i)
    && (|| (dx == 0 && dy == 0 && s.d[i] == Initial(m, i))
        || SeededAt(m, i, dx, dy, s.d[i]))
  }

  ghost predicate SeededAt(m: Image, i: int, dx: int, dy: int, d: real)
    requires |m.img| == |m.gx| == |m.gy|
  {
    && 0 <= i - dx - RowStep(m, dy) < |m.img| && m.img[i - dx - RowStep(m, dy)] > 0.0
    && d == DistAA(m, i, dx, dy, dx, dy)
  }

  ghost predicate Sound(m: Image, s: Field)
    ensures Sound(m, s) ==> m.Valid() && |s.dx| == |s.dy| == |s.d| == Pixels(m)
  {
    && m.Valid() && |s.dx| == |s.dy| == |s.d| == Pixels(m)
    && forall x, y :: Inside(m, x, y) ==> PixelSound(m, s, x, y)
  }

  /** The vector of pixel number c leads to a pixel number of the image. */
  predicate SeedInRange(m: Image, s: Field, c: int) {
    && |m.img| == |m.gx| == |m.gy| && 0 <= c < |s.dx| == |s.dy|
    && 0 <= c - s.dx[c] - RowStep(m, s.dy[c]) < |m.img|
  }

  /** What adopting the seed of pixel number c would make of its neighbour at distance (-ox, -oy). */
  function Candidate(m: Image, s: Field, c: int, ox: int, oy: int): real
    requires SeedInRange(m, s, c)
  {
    DistAA(m, c, s.dx[c], s.dy[c], s.dx[c] - ox, s.dy[c] - oy)
  }

  lemma SeedInside(m: Image, s: Field, x: int, y: int)
    requires Sound(m, s) && Inside(m, x, y)
    ensures var c := Index(m, x, y);
      && SeedInRange(m, s, c) && Inside(m, x - s.dx[c], y - s.dy[c])
      && -m.w < s.dx[c] < m.w && -m.h < s.dy[c] < m.h
      && c - s.dx[c] - RowStep(m, s.dy[c]) == Index(m, x - s.dx[c], y - s.dy[c])
  {
    hide Sound, Index, RowStep, Pixels, DistAA, Initial;
    IndexInside(m, x, y);
    var c := Index(m, x, y);
    PixelOfSound(m, s, x, y);
    IndexInside(m, x - s.dx[c], y - s.dy[c]);
    IndexStep(m, x, y, -s.dx[c], -s.dy[c]);
    RowStepNegative(m, s.dy[c]);
  }

  lemma RowStepNegative(m: Image, k: int)
    ensures RowStep(m, -k) == -RowStep(m, k)
  {
  }

  lemma PixelOfSound(m: Image, s: Field, x: int, y: int)
    requires Sound(m, s) && Inside(m, x, y)
    ensures PixelSound(m, s, x, y)
  {
  }

  /** The test of pixel number i against the neighbour at (ox, oy) would change nothing. */
  ghost predicate Settled(m: Image, s: Field, i: int, ox: int, oy: int) {
    var c := i + RowStep(m, oy) + ox;
    && 0 <= i < |s.d| && SeedInRange(m, s, c)
    && (s.d[i] > 0.0 ==> !(Candidate(m, s, c, ox, oy) < s.d[i] - EPSILON))
  }

  predicate Adjacent(ox: int, oy: int) {
    -1 <= ox <= 1 && -1 <= oy <= 1 && (ox != 0 || oy != 0)
  }

  /** No pixel can profit from any of its neighbours in the image, borders and corners included. */
  ghost predicate FixedPoint(m: Image, s: Field) {
    forall x, y, ox, oy :: Inside(m, x, y) && Adjacent(ox, oy) && Inside(m, x + ox, y + oy) ==>
      Settled(m, s, Index(m, x, y), ox, oy)
  }

  // ---- termination ----

  /** Counts the epsilons between -1 and d. */
  function Rank(d: real): nat {
    if d < -1.0 then 0 else ((d + 1.0) * 1000.0).Floor
  }

  function Energy(d: seq<real>): nat {
    if d == [] then 0 else Rank(d[0]) + Energy(d[1..])
  }

  lemma RankDrops(old': real, new': real)
    requires -1.0 <= new' < old' - EPSILON
    ensures Rank(new') < Rank(old')
  {
    assert (old' + 1.0) * 1000.0 - (new' + 1.0) * 1000.0 > 1.0;
  }

  lemma {:induction false} EnergyDrops(d: seq<real>, i: int, v: real)
    requires 0 <= i < |d| && -1.0 <= v < d[i] - EPSILON
    ensures Energy(d[i := v]) < Energy(d)
  {
    if i == 0 {
      assert d[0 := v][1..] == d[1..];
      RankDrops(d[0], v);
    } else {
      assert d[i := v][1..] == d[1..][i - 1 := v];
      EnergyDrops(d[1..], i - 1, v);
    }
  }

  // ---- one accepted test ----

  lemma InitialBounds(m: Image, i: int)
    requires m.Valid() && 0 <= i < |m.img|
    ensures -0.75 <= Initial(m, i) <= FAR
    ensures Initial(m, i) == FAR <==> m.img[i] <= 0.0
  {
    if 0.0 < m.img[i] < 1.0 { EdgeBounds(m.sqrt, m.gx[i], m.gy[i], m.img[i]); }
  }

  lemma SeededBounds(m: Image, i: int, dx: int, dy: int)
    requires m.Valid() && 0 <= i - dx - RowStep(m, dy) < |m.img| && -m.w < dx < m.w && -m.h < dy < m.h
    ensures var d := DistAA(m, i, dx, dy, dx, dy);
      && -0.75 <= d <= FAR
      && (m.img[i - dx - RowStep(m, dy)] > 0.0 ==> d <= 70000.0)
  {
    hide SeedDistance, IsSqrt, RowStep;
    var c := i - dx - RowStep(m, dy);
    SeedDistanceBounds(m.sqrt, m.img[c], m.gx[c], m.gy[c], dx, dy);
  }

  lemma DistBounds(m: Image, s: Field, x: int, y: int)
    requires Sound(m, s) && Inside(m, x, y)
    ensures 0 <= Index(m, x, y) < |s.d| && -0.75 <= s.d[Index(m, x, y)] <= FAR
  {
    hide DistAA, Initial, IsSqrt, Index, Pixels, RowStep, Sound;
    var i := Index(m, x, y);
    SeedInside(m, s, x, y);
    PixelOfSound(m, s, x, y);
    InitialBounds(m, i);
    SeededBounds(m, i, s.dx[i], s.dy[i]);
  }

  /** The seed of a neighbour, in the coordinates of the pixel itself. */
  lemma SameSeed(m: Image, i: int, dx: int, dy: int, ox: int, oy: int)
    ensures (i + RowStep(m, oy) + ox) - dx - RowStep(m, dy) == i - (dx - ox) - RowStep(m, dy - oy)
  {
    assert RowStep(m, dy - oy) == RowStep(m, dy) - RowStep(m, oy);
  }

  function Adopted(s: Field, i: int, dx: int, dy: int, d: real): Field
    requires 0 <= i < |s.dx| == |s.dy| == |s.d|
  {
    Field(s.dx[i := dx], s.dy[i := dy], s.d[i := d])
  }

  /** Pixel number c is the neighbour of (x, y) at (ox, oy), and its seed is known. */
  ghost predicate NeighbourAt(m: Image, s: Field, x: int, y: int, ox: int, oy: int, i: int, c: int)
    ensures NeighbourAt(m, s, x, y, ox, oy, i, c) ==>
      0 <= i < |s.d| == |s.dx| == |s.dy| && 0 <= c < |s.d| && SeedInRange(m, s, c)
  {
    && i == Index(m, x, y) && c == i + RowStep(m, oy) + ox && 0 <= i < |s.d| == |s.dx| == |s.dy|
    && SeedInRange(m, s, c) && -m.w <= s.dx[c] - ox <= m.w && -m.h <= s.dy[c] - oy <= m.h
  }

  lemma NeighbourIs(m: Image, s: Field, x: int, y: int, ox: int, oy: int) returns (i: int, c: int)
    requires Sound(m, s) && Inside(m, x, y) && Inside(m, x + ox, y + oy)
    ensures i == Index(m, x, y) && c == i + RowStep(m, oy) + ox
    ensures NeighbourAt(m, s, x, y, ox, oy, i, c) && -0.75 <= s.d[i] <= FAR
  {
    hide Index, Sound, DistAA, RowStep, IsSqrt, Initial, Pixels;
    IndexStep(m, x, y, ox, oy);
    i := Index(m, x, y);
    c := i + RowStep(m, oy) + ox;
    SeedInside(m, s, x + ox, y + oy);
    DistBounds(m, s, x, y);
  }

  /** An accepted test keeps the arrays sound and uses up energy. */
  lemma Adopt(m: Image, s: Field, x: int, y: int, ox: int, oy: int, i: int, c: int)
    requires Sound(m, s) && Inside(m, x, y) && Inside(m, x + ox, y + oy)
    requires NeighbourAt(m, s, x, y, ox, oy, i, c) && s.d[i] <= FAR
    requires Candidate(m, s, c, ox, oy) < s.d[i] - EPSILON
    ensures var s' := Adopted(s, i, s.dx[c] - ox, s.dy[c] - oy, Candidate(m, s, c, ox, oy));
      Sound(m, s') && Energy(s'.d) < Energy(s.d)
  {
    hide Index, Sound, Energy, SeedDistance, IsSqrt, RowStep;
    var d := Candidate(m, s, c, ox, oy);
    AdoptedSound(m, s, x, y, ox, oy, i, c, d);
    var seed := c - s.dx[c] - RowStep(m, s.dy[c]);
    SeedDistanceBounds(m.sqrt, m.img[seed], m.gx[seed], m.gy[seed], s.dx[c] - ox, s.dy[c] - oy);
    EnergyDrops(s.d, i, d);
  }

  lemma AdoptedSound(m: Image, s: Field, x: int, y: int, ox: int, oy: int, i: int, c: int, d: real)
    requires Sound(m, s) && Inside(m, x, y) && Inside(m, x + ox, y + oy)
    requires NeighbourAt(m, s, x, y, ox, oy, i, c) && s.d[i] <= FAR
    requires d == Candidate(m, s, c, ox, oy) < s.d[i] - EPSILON
    ensures Sound(m, Adopted(s, i, s.dx[c] - ox, s.dy[c] - oy, d))
  {
    hide PixelSound, DistAA, SeedInRange, Candidate, NeighbourAt, Index, Pixels;
    AdoptedSeed(m, s, x, y, ox, oy, i, c, d);
    NeighbourIndex(m, s, x, y, ox, oy, i, c);
    var dx, dy := s.dx[c] - ox, s.dy[c] - oy;
    forall x', y' | Inside(m, x', y') ensures PixelSound(m, Adopted(s, i, dx, dy, d), x', y') {
      PixelAdopted(m, s, i, dx, dy, d, x, y, x', y');
    }
  }

  lemma NeighbourIndex(m: Image, s: Field, x: int, y: int, ox: int, oy: int, i: int, c: int)
    requires NeighbourAt(m, s, x, y, ox, oy, i, c)
    ensures i == Index(m, x, y)
  {
  }

  lemma PixelAdopted(m: Image, s: Field, i: int, dx: int, dy: int, d: real, x: int, y: int, x': int, y': int)
    requires Sound(m, s) && Inside(m, x, y) && Inside(m, x', y') && i == Index(m, x, y) && 0 <= i < |s.d|
    requires d <= s.d[i]
    requires Inside(m, x - dx, y - dy) && SeededAt(m, i, dx, dy, d)
    ensures PixelSound(m, Adopted(s, i, dx, dy, d), x', y')
  {
    hide DistAA, SeededAt, Index, Pixels, Initial;
    IndexInside(m, x', y');
    assert PixelSound(m, s, x', y');
    if Index(m, x', y') == i { IndexInjective(m, x', y', x, y); }
  }

  lemma AdoptedSeed(m: Image, s: Field, x: int, y: int, ox: int, oy: int, i: int, c: int, d: real)
    requires Sound(m, s) && Inside(m, x, y) && Inside(m, x + ox, y + oy)
    requires NeighbourAt(m, s, x, y, ox, oy, i, c) && s.d[i] <= FAR
    requires d == Candidate(m, s, c, ox, oy) < s.d[i] - EPSILON
    ensures var dx, dy := s.dx[c] - ox, s.dy[c] - oy;
      Inside(m, x - dx, y - dy) && SeededAt(m, i, dx, dy, d)
  {
    hide SeedDistance, EdgeDf, IsSqrt, Index, RowStep, Sound, Pixels;
    var dx, dy := s.dx[c] - ox, s.dy[c] - oy;
    IndexStep(m, x, y, ox, oy);
    SeedInside(m, s, x + ox, y + oy);
    SameSeed(m, i, s.dx[c], s.dy[c], ox, oy);
    var seed := i - dx - RowStep(m, dy);
    SeedDistanceBounds(m.sqrt, m.img[seed], m.gx[seed], m.gy[seed], dx, dy);
  }

  // ---- the sweeps ----

  ghost function Snap(distx: array<int>, disty: array<int>, dist: array<real>): (s: Field)
    reads distx, disty, dist
    ensures s.dx == distx[..] && s.dy == disty[..] && s.d == dist[..]
  {
    Field(distx[..], disty[..], dist[..])
  }

  /** Some tests took the arrays from a to b: nothing changed, or energy was used up. */
  ghost predicate Moved(a: Field, b: Field, changed: bool) {
    if changed then Energy(b.d) < Energy(a.d) else a == b
  }

  lemma MovedOn(a: Field, b: Field, c: Field, first: bool, second: bool)
    requires Moved(a, b, first) && Moved(b, c, second)
    ensures Moved(a, c, first || second)
    ensures !first ==> a == b
    ensures !second ==> b == c
  {
  }

  /** All tests of pixel number i against the neighbours in the list fail. */
  ghost predicate SettledAll(m: Image, s: Field, i: int, around: seq<(int, int)>) {
    forall k :: 0 <= k < |around| ==> Settled(m, s, i, around[k].0, around[k].1)
  }

  predicate NeighboursInside(m: Image, x: int, y: int, around: seq<(int, int)>) {
    forall k :: 0 <= k < |around| ==> Inside(m, x + around[k].0, y + around[k].1)
  }

  lemma SettledMore(m: Image, s: Field, i: int, around: seq<(int, int)>, k: nat)
    requires k < |around|
    ensures SettledAll(m, s, i, around[..k + 1])
       <==> SettledAll(m, s, i, around[..k]) && Settled(m, s, i, around[k].0, around[k].1)
  {
    assert around[..k + 1] == around[..k] + [around[k]];
    if SettledAll(m, s, i, around[..k + 1]) {
      assert around[..k + 1][k] == around[k];
      forall j | 0 <= j < k ensures Settled(m, s, i, around[j].0, around[j].1) {
        assert around[..k + 1][j] == around[j];
      }
    }
  }

  /** One test of the source: pixel number i = (x, y) against its neighbour at (ox, oy). */
  method Test(m: Image, distx: array<int>, disty: array<int>, dist: array<real>,
              i: int, ox: int, oy: int, olddist: real, ghost x: int, ghost y: int)
    returns (newOld: real, changed: bool)
    requires distx != disty && Sound(m, Snap(distx, disty, dist))
    requires Inside(m, x, y) && Inside(m, x + ox, y + oy) && i == Index(m, x, y)
    requires 0 <= i < dist.Length && olddist == dist[i]
    modifies distx, disty, dist
    ensures Sound(m, Snap(distx, disty, dist)) && i < dist.Length && newOld == dist[i]
    ensures Moved(old(Snap(distx, disty, dist)), Snap(distx, disty, dist), changed)
    ensures !changed ==> Settled(m, Snap(distx, disty, dist), i, ox, oy)
  {
    hide Sound, Index, RowStep, NeighbourAt, DistAA, Energy;
    ghost var s := Snap(distx, disty, dist);
    var c := i + RowStep(m, oy) + ox;
    ghost var i', c' := NeighbourIs(m, s, x, y, ox, oy);
    var cdistx, cdisty := distx[c], disty[c];
    var newdistx, newdisty := cdistx - ox, cdisty - oy;
    var newdist := DistAA(m, c, cdistx, cdisty, newdistx, newdisty);
    newOld, changed := olddist, false;
    if newdist < olddist - EPSILON {
      Adopt(m, s, x, y, ox, oy, i, c);
      distx[i] := newdistx;
      disty[i] := newdisty;
      dist[i] := newdist;
      newOld := newdist;
      changed := true;
      assert Snap(distx, disty, dist) == Adopted(s, i, newdistx, newdisty, newdist);
    }
  }

  /** The tests of one pixel in the order of the list, unless its distance is not positive. */
  method Visit(m: Image, distx: array<int>, disty: array<int>, dist: array<real>,
               x: int, y: int, around: seq<(int, int)>) returns (changed: bool)
    requires distx != disty && Sound(m, Snap(distx, disty, dist))
    requires Inside(m, x, y) && NeighboursInside(m, x, y, around)
    modifies distx, disty, dist
    ensures Sound(m, Snap(distx, disty, dist))
    ensures Moved(old(Snap(distx, disty, dist)), Snap(distx, disty, dist), changed)
    ensures !changed ==> SettledAll(m, Snap(distx, disty, dist), Index(m, x, y), around)
  {
    hide Sound, Index, Settled, Moved, SettledAll, Energy;
    IndexInside(m, x, y);
    var i := Index(m, x, y);
    ghost var start := Snap(distx, disty, dist);
    StandStill(start);
    var olddist := dist[i];
    changed := false;
    if olddist <= 0.0 {
      NothingToGain(m, start, x, y, around);
      return;
    }
    SettledNone(m, start, i, around);
    for k := 0 to |around|
      invariant Sound(m, Snap(distx, disty, dist)) && i < dist.Length && olddist == dist[i]
      invariant Moved(start, Snap(distx, disty, dist), changed)
      invariant !changed ==> SettledAll(m, Snap(distx, disty, dist), i, around[..k])
    {
      var (ox, oy) := around[k];
      ghost var before := Snap(distx, disty, dist);
      var updated;
      olddist, updated := Test(m, distx, disty, dist, i, ox, oy, olddist, x, y);
      MovedOn(start, before, Snap(distx, disty, dist), changed, updated);
      SettledMore(m, before, i, around, k);
      if updated { changed := true; }
    }
    assert around[..|around|] == around;
  }

  lemma StandStill(s: Field)
    ensures Moved(s, s, false)
  {
  }

  lemma SettledNone(m: Image, s: Field, i: int, around: seq<(int, int)>)
    ensures SettledAll(m, s, i, around[..0])
  {
  }

  lemma NothingToGain(m: Image, s: Field, x: int, y: int, around: seq<(int, int)>)
    requires Sound(m, s) && Inside(m, x, y) && NeighboursInside(m, x, y, around)
    requires 0 <= Index(m, x, y) < |s.d| && s.d[Index(m, x, y)] <= 0.0
    ensures SettledAll(m, s, Index(m, x, y), around)
  {
    hide Sound, Index, RowStep, Candidate;
    forall k | 0 <= k < |around| ensures Settled(m, s, Index(m, x, y), around[k].0, around[k].1) {
      var i, c := NeighbourIs(m, s, x, y, around[k].0, around[k].1);
    }
  }

  // ---- rows ----

  /** The tests in the list fail for columns from..to-1 of row y. */
  ghost predicate SettledSpan(m: Image, s: Field, y: int, from: int, to: int, around: seq<(int, int)>) {
    forall x :: from <= x < to ==> SettledAll(m, s, Index(m, x, y), around)
  }

  ghost predicate SpanInside(m: Image, y: int, from: int, to: int, around: seq<(int, int)>) {
    forall x :: from <= x < to ==> Inside(m, x, y) && NeighboursInside(m, x, y, around)
  }

  lemma SpanMore(m: Image, s: Field, y: int, from: int, to: int, around: seq<(int, int)>, x: int)
    requires SettledSpan(m, s, y, from, to, around) && SettledAll(m, s, Index(m, x, y), around)
    ensures x == to ==> SettledSpan(m, s, y, from, to + 1, around)
    ensures x == from - 1 ==> SettledSpan(m, s, y, from - 1, to, around)
  {
  }

  lemma EmptySpan(m: Image, s: Field, y: int, x: int, around: seq<(int, int)>)
    ensures SettledSpan(m, s, y, x, x, around)
  {
  }

  /** A loop over x from left to right with one list of tests. */
  method WalkRight(m: Image, distx: array<int>, disty: array<int>, dist: array<real>,
                   y: int, from: int, to: int, around: seq<(int, int)>) returns (changed: bool)
    requires distx != disty && Sound(m, Snap(distx, disty, dist))
    requires from <= to && SpanInside(m, y, from, to, around)
    modifies distx, disty, dist
    ensures Sound(m, Snap(distx, disty, dist))
    ensures Moved(old(Snap(distx, disty, dist)), Snap(distx, disty, dist), changed)
    ensures !changed ==> SettledSpan(m, Snap(distx, disty, dist), y, from, to, around)
  {
    hide Sound, Index, Moved, SettledAll, SettledSpan;
    ghost var start := Snap(distx, disty, dist);
    StandStill(start);
    EmptySpan(m, start, y, from, around);
    changed := false;
    for x := from to to
      invariant Sound(m, Snap(distx, disty, dist))
      invariant Moved(start, Snap(distx, disty, dist), changed)
      invariant !changed ==> SettledSpan(m, Snap(distx, disty, dist), y, from, x, around)
    {
      ghost var before := Snap(distx, disty, dist);
      var updated := Visit(m, distx, disty, dist, x, y, around);
      MovedOn(start, before, Snap(distx, disty, dist), changed, updated);
      if updated { changed := true; }
      if !changed { SpanMore(m, before, y, from, x, around, x); }
    }
  }

  /** A loop over x from right to left with one list of tests. */
  method WalkLeft(m: Image, distx: array<int>, disty: array<int>, dist: array<real>,
                  y: int, from: int, to: int, around: seq<(int, int)>) returns (changed: bool)
    requires distx != disty && Sound(m, Snap(distx, disty, dist))
    requires from <= to && SpanInside(m, y, from, to, around)
    modifies distx, disty, dist
    ensures Sound(m, Snap(distx, disty, dist))
    ensures Moved(old(Snap(distx, disty, dist)), Snap(distx, disty, dist), changed)
    ensures !changed ==> SettledSpan(m, Snap(distx, disty, dist), y, from, to, around)
  {
    hide Sound, Index, Moved, SettledAll, SettledSpan;
    ghost var start := Snap(distx, disty, dist);
    StandStill(start);
    EmptySpan(m, start, y, to, around);
    changed := false;
    for x := to downto from
      invariant Sound(m, Snap(distx, disty, dist))
      invariant Moved(start, Snap(distx, disty, dist), changed)
      invariant !changed ==> SettledSpan(m, Snap(distx, disty, dist), y, x, to, around)
    {
      ghost var before := Snap(distx, disty, dist);
      var updated := Visit(m, distx, disty, dist, x, y, around);
      MovedOn(start, before, Snap(distx, disty, dist), changed, updated);
      if updated { changed := true; }
      if !changed { SpanMore(m, before, y, x + 1, to, around, x); }
    }
  }

  /** No pixel of row y can profit from a neighbour in its own row or in row y + dir. */
  ghost predicate RowSettled(m: Image, s: Field, y: int, dir: int) {
    forall x, ox, oy :: Inside(m, x, y) && Adjacent(ox, oy) && (oy == 0 || oy == dir) && Inside(m, x + ox, y + oy) ==>
      Settled(m, s, Index(m, x, y), ox, oy)
  }

  /** The four spans of a row that is swept with tests towards row y + dir. */
  ghost predicate RowTests(m: Image, s: Field, y: int, dir: int) {
    && (dir == -1 ==>
          && SettledSpan(m, s, y, 0, 1, [(0, dir), (1, dir)])
          && SettledSpan(m, s, y, 1, m.w - 1, [(-1, 0), (-1, dir), (0, dir), (1, dir)])
          && SettledSpan(m, s, y, m.w - 1, m.w, [(-1, 0), (-1, dir), (0, dir)])
          && SettledSpan(m, s, y, 0, m.w - 1, [(1, 0)]))
    && (dir == 1 ==>
          && SettledSpan(m, s, y, m.w - 1, m.w, [(0, dir), (-1, dir)])
          && SettledSpan(m, s, y, 1, m.w - 1, [(1, 0), (1, dir), (0, dir), (-1, dir)])
          && SettledSpan(m, s, y, 0, 1, [(1, 0), (1, dir), (0, dir)])
          && SettledSpan(m, s, y, 1, m.w, [(-1, 0)]))
  }

  /** The tests of a sweep over one row reach every neighbour on that side. */
  lemma RowTestsSuffice(m: Image, s: Field, y: int, dir: int)
    requires m.w >= 2 && (dir == -1 || dir == 1) && RowTests(m, s, y, dir)
    ensures RowSettled(m, s, y, dir)
  {
    hide Settled, Index;
    forall x, ox, oy | Inside(m, x, y) && Adjacent(ox, oy) && (oy == 0 || oy == dir) && Inside(m, x + ox, y + oy)
      ensures Settled(m, s, Index(m, x, y), ox, oy)
    {
      var i := Index(m, x, y);
      if dir == -1 {
        if x < m.w - 1 { InSpan(m, s, y, 0, m.w - 1, [(1, 0)], x, 0); }
        if x == 0 {
          InSpan(m, s, y, 0, 1, [(0, dir), (1, dir)], x, 0);
          InSpan(m, s, y, 0, 1, [(0, dir), (1, dir)], x, 1);
        } else if x < m.w - 1 {
          InMiddle(m, s, y, [(-1, 0), (-1, dir), (0, dir), (1, dir)], x);
        } else {
          InSpan(m, s, y, m.w - 1, m.w, [(-1, 0), (-1, dir), (0, dir)], x, 0);
          InSpan(m, s, y, m.w - 1, m.w, [(-1, 0), (-1, dir), (0, dir)], x, 1);
          InSpan(m, s, y, m.w - 1, m.w, [(-1, 0), (-1, dir), (0, dir)], x, 2);
        }
      } else {
        if x >= 1 { InSpan(m, s, y, 1, m.w, [(-1, 0)], x, 0); }
        if x == m.w - 1 {
          InSpan(m, s, y, m.w - 1, m.w, [(0, dir), (-1, dir)], x, 0);
          InSpan(m, s, y, m.w - 1, m.w, [(0, dir), (-1, dir)], x, 1);
        } else if x >= 1 {
          InMiddle(m, s, y, [(1, 0), (1, dir), (0, dir), (-1, dir)], x);
        } else {
          InSpan(m, s, y, 0, 1, [(1, 0), (1, dir), (0, dir)], x, 0);
          InSpan(m, s, y, 0, 1, [(1, 0), (1, dir), (0, dir)], x, 1);
          InSpan(m, s, y, 0, 1, [(1, 0), (1, dir), (0, dir)], x, 2);
        }
      }
    }
  }

  lemma InSpan(m: Image, s: Field, y: int, from: int, to: int, around: seq<(int, int)>, x: int, k: nat)
    requires SettledSpan(m, s, y, from, to, around) && from <= x < to && k < |around|
    ensures Settled(m, s, Index(m, x, y), around[k].0, around[k].1)
  {
    assert SettledAll(m, s, Index(m, x, y), around);
  }

  lemma InMiddle(m: Image, s: Field, y: int, around: seq<(int, int)>, x: int)
    requires SettledSpan(m, s, y, 1, m.w - 1, around) && 1 <= x < m.w - 1 && |around| == 4
    ensures Settled(m, s, Index(m, x, y), around[0].0, around[0].1)
    ensures Settled(m, s, Index(m, x, y), around[1].0, around[1].1)
    ensures Settled(m, s, Index(m, x, y), around[2].0, around[2].1)
    ensures Settled(m, s, Index(m, x, y), around[3].0, around[3].1)
  {
    InSpan(m, s, y, 1, m.w - 1, around, x, 0);
    InSpan(m, s, y, 1, m.w - 1, around, x, 1);
    InSpan(m, s, y, 1, m.w - 1, around, x, 2);
    InSpan(m, s, y, 1, m.w - 1, around, x, 3);
  }

  /** The first inner loop: row y from the row above, then from its right neighbours. */
  method SweepDown(m: Image, distx: array<int>, disty: array<int>, dist: array<real>, y: int) returns (changed: bool)
    requires distx != disty && Sound(m, Snap(distx, disty, dist)) && 1 <= y < m.h
    modifies distx, disty, dist
    ensures Sound(m, Snap(distx, disty, dist))
    ensures Moved(old(Snap(distx, disty, dist)), Snap(distx, disty, dist), changed)
    ensures !changed ==> RowSettled(m, Snap(distx, disty, dist), y, -1)
  {
    hide Sound, Index, Moved, SettledAll, SettledSpan, RowSettled;
    ghost var s0 := Snap(distx, disty, dist);
    // leftmost pixel: up, up-right
    var c1 := WalkRight(m, distx, disty, dist, y, 0, 1, [(0, -1), (1, -1)]);
    ghost var s1 := Snap(distx, disty, dist);
    // middle pixels: left, left-up, up, up-right
    var c2 := WalkRight(m, distx, disty, dist, y, 1, m.w - 1, [(-1, 0), (-1, -1), (0, -1), (1, -1)]);
    ghost var s2 := Snap(distx, disty, dist);
    MovedOn(s0, s1, s2, c1, c2);
    // rightmost pixel: left, left-up, up
    var c3 := WalkRight(m, distx, disty, dist, y, m.w - 1, m.w, [(-1, 0), (-1, -1), (0, -1)]);
    ghost var s3 := Snap(distx, disty, dist);
    MovedOn(s0, s2, s3, c1 || c2, c3);
    // scan left: right
    var c4 := WalkLeft(m, distx, disty, dist, y, 0, m.w - 1, [(1, 0)]);
    MovedOn(s0, s3, Snap(distx, disty, dist), c1 || c2 || c3, c4);
    changed := c1 || c2 || c3 || c4;
    if !changed { RowTestsSuffice(m, s0, y, -1); }
  }

  /** The second inner loop: row y from the row below, then from its left neighbours. */
  method SweepUp(m: Image, distx: array<int>, disty: array<int>, dist: array<real>, y: int) returns (changed: bool)
    requires distx != disty && Sound(m, Snap(distx, disty, dist)) && 0 <= y < m.h - 1
    modifies distx, disty, dist
    ensures Sound(m, Snap(distx, disty, dist))
    ensures Moved(old(Snap(distx, disty, dist)), Snap(distx, disty, dist), changed)
    ensures !changed ==> RowSettled(m, Snap(distx, disty, dist), y, 1)
  {
    hide Sound, Index, Moved, SettledAll, SettledSpan, RowSettled;
    ghost var s0 := Snap(distx, disty, dist);
    // rightmost pixel: down, down-left
    var c1 := WalkLeft(m, distx, disty, dist, y, m.w - 1, m.w, [(0, 1), (-1, 1)]);
    ghost var s1 := Snap(distx, disty, dist);
    // middle pixels: right, right-down, down, down-left
    var c2 := WalkLeft(m, distx, disty, dist, y, 1, m.w - 1, [(1, 0), (1, 1), (0, 1), (-1, 1)]);
    ghost var s2 := Snap(distx, disty, dist);
    MovedOn(s0, s1, s2, c1, c2);
    // leftmost pixel: right, right-down, down
    var c3 := WalkLeft(m, distx, disty, dist, y, 0, 1, [(1, 0), (1, 1), (0, 1)]);
    ghost var s3 := Snap(distx, disty, dist);
    MovedOn(s0, s2, s3, c1 || c2, c3);
    // scan right: left
    var c4 := WalkRight(m, distx, disty, dist, y, 1, m.w, [(-1, 0)]);
    MovedOn(s0, s3, Snap(distx, disty, dist), c1 || c2 || c3, c4);
    changed := c1 || c2 || c3 || c4;
    if !changed { RowTestsSuffice(m, s0, y, 1); }
  }

  // ---- the whole transform ----

  lemma RowsSuffice(m: Image, s: Field)
    requires m.Valid()
    requires forall y :: 1 <= y < m.h ==> RowSettled(m, s, y, -1)
    requires forall y :: 0 <= y < m.h - 1 ==> RowSettled(m, s, y, 1)
    ensures FixedPoint(m, s)
  {
    hide Settled, Index;
    forall x, y, ox, oy | Inside(m, x, y) && Adjacent(ox, oy) && Inside(m, x + ox, y + oy)
      ensures Settled(m, s, Index(m, x, y), ox, oy)
    {
      assert y >= 1 ==> RowSettled(m, s, y, -1);
      assert y < m.h - 1 ==> RowSettled(m, s, y, 1);
    }
  }

  /** One pass of the do-while loop. */
  method Pass(m: Image, distx: array<int>, disty: array<int>, dist: array<real>) returns (changed: bool)
    requires distx != disty && Sound(m, Snap(distx, disty, dist))
    modifies distx, disty, dist
    ensures Sound(m, Snap(distx, disty, dist))
    ensures Moved(old(Snap(distx, disty, dist)), Snap(distx, disty, dist), changed)
    ensures !changed ==> FixedPoint(m, Snap(distx, disty, dist))
  {
    hide Sound, Moved, RowSettled, FixedPoint;
    ghost var start := Snap(distx, disty, dist);
    StandStill(start);
    changed := false;
    for y := 1 to m.h
      invariant Sound(m, Snap(distx, disty, dist))
      invariant Moved(start, Snap(distx, disty, dist), changed)
      invariant !changed ==> forall k :: 1 <= k < y ==> RowSettled(m, Snap(distx, disty, dist), k, -1)
    {
      ghost var before := Snap(distx, disty, dist);
      var updated := SweepDown(m, distx, disty, dist, y);
      MovedOn(start, before, Snap(distx, disty, dist), changed, updated);
      if updated { changed := true; }
    }
    for y := m.h - 1 downto 0
      invariant Sound(m, Snap(distx, disty, dist))
      invariant Moved(start, Snap(distx, disty, dist), changed)
      invariant !changed ==> forall k :: 1 <= k < m.h ==> RowSettled(m, Snap(distx, disty, dist), k, -1)
      invariant !changed ==> forall k :: y <= k < m.h - 1 ==> RowSettled(m, Snap(distx, disty, dist), k, 1)
    {
      ghost var before := Snap(distx, disty, dist);
      var updated := SweepUp(m, distx, disty, dist, y);
      MovedOn(start, before, Snap(distx, disty, dist), changed, updated);
      if updated { changed := true; }
    }
    if !changed { RowsSuffice(m, Snap(distx, disty, dist)); }
  }

  /** edtaa3. The previous contents of the three result arrays do not matter. */
  method Edtaa3(m: Image, distx: array<int>, disty: array<int>, dist: array<real>)
    requires m.Valid() && distx != disty && distx.Length == disty.Length == dist.Length == Pixels(m)
    modifies distx, disty, dist
    ensures Sound(m, Snap(distx, disty, dist)) && FixedPoint(m, Snap(distx, disty, dist))
  {
    hide Moved, FixedPoint, Energy, Pixels;
    for i := 0 to Pixels(m)
      invariant forall k :: 0 <= k < i ==> distx[k] == 0 && disty[k] == 0 && dist[k] == Initial(m, k)
    {
      distx[i] := 0;
      disty[i] := 0;
      if m.img[i] <= 0.0 {
        dist[i] := FAR;
      } else if m.img[i] < 1.0 {
        dist[i] := EdgeDf(m.sqrt, m.gx[i], m.gy[i], m.img[i]);
      } else {
        dist[i] := 0.0;
      }
    }
    FreshSound(m, Snap(distx, disty, dist));
    hide Sound;
    var changed := true;
    while changed
      invariant Sound(m, Snap(distx, disty, dist))
      invariant !changed ==> FixedPoint(m, Snap(distx, disty, dist))
      decreases Energy(dist[..]), if changed then 1 else 0
    {
      ghost var before := Snap(distx, disty, dist);
      changed := Pass(m, distx, disty, dist);
      UsedUp(before, Snap(distx, disty, dist), changed);
    }
  }

  lemma UsedUp(a: Field, b: Field, changed: bool)
    requires Moved(a, b, changed)
    ensures if changed then Energy(b.d) < Energy(a.d) else Energy(b.d) == Energy(a.d)
  {
  }

  lemma FreshSound(m: Image, s: Field)
    requires m.Valid() && |s.dx| == |s.dy| == |s.d| == Pixels(m)
    requires forall k :: 0 <= k < Pixels(m) ==> s.dx[k] == 0 && s.dy[k] == 0 && s.d[k] == Initial(m, k)
    ensures Sound(m, s)
  {
    hide Initial, Pixels, Index;
    forall x, y | Inside(m, x, y) ensures PixelSound(m, s, x, y) {
      IndexInside(m, x, y);
    }
  }

  // ---- completeness ----

  /** The seed of pixel (x, y) is an object pixel. */
  ghost predicate Known(m: Image, s: Field, x: int, y: int) {
    var i := Index(m, x, y);
    SeedInRange(m, s, i) && m.img[i - s.dx[i] - RowStep(m, s.dy[i])] > 0.0
  }

  /** A pixel without an object seed still has the initial "not set" value; all others are far
      below it. */
  lemma KnownOrFar(m: Image, s: Field, x: int, y: int)
    requires Sound(m, s) && Inside(m, x, y)
    ensures var i := Index(m, x, y);
      && 0 <= i < |s.d| == |m.img|
      && (if Known(m, s, x, y) then s.d[i] <= 70000.0 else m.img[i] <= 0.0 && s.d[i] == FAR)
  {
    hide DistAA, IsSqrt, Index, Pixels, Sound;
    var i := Index(m, x, y);
    SeedInside(m, s, x, y);
    PixelOfSound(m, s, x, y);
    RowStepZero(m);
    SeededBounds(m, i, s.dx[i], s.dy[i]);
    if 0.0 < m.img[i] < 1.0 { EdgeBounds(m.sqrt, m.gx[i], m.gy[i], m.img[i]); }
  }

  lemma RowStepZero(m: Image)
    ensures RowStep(m, 0) == 0
  {
  }

  lemma SettledAt(m: Image, s: Field, x: int, y: int, ox: int, oy: int)
    requires FixedPoint(m, s) && Inside(m, x, y) && Inside(m, x + ox, y + oy) && Adjacent(ox, oy)
    ensures Settled(m, s, Index(m, x, y), ox, oy)
  {
  }

  /** A neighbour with an object seed offers a distance far below "not set". */
  lemma CandidateBounds(m: Image, s: Field, c: int, ox: int, oy: int)
    requires m.Valid() && SeedInRange(m, s, c) && m.img[c - s.dx[c] - RowStep(m, s.dy[c])] > 0.0
    requires -MAX_SIDE <= s.dx[c] - ox <= MAX_SIDE && -MAX_SIDE <= s.dy[c] - oy <= MAX_SIDE
    ensures Candidate(m, s, c, ox, oy) <= 70000.0
  {
    hide SeedDistance, IsSqrt, RowStep;
    var seed := c - s.dx[c] - RowStep(m, s.dy[c]);
    SeedDistanceBounds(m.sqrt, m.img[seed], m.gx[seed], m.gy[seed], s.dx[c] - ox, s.dy[c] - oy);
  }

  /** In a fixed point a pixel next to one with an object seed has an object seed. */
  lemma KnownSpreads(m: Image, s: Field, x: int, y: int, ox: int, oy: int)
    requires Sound(m, s) && FixedPoint(m, s) && Inside(m, x, y) && Inside(m, x + ox, y + oy)
    requires Adjacent(ox, oy) && Known(m, s, x + ox, y + oy)
    ensures Known(m, s, x, y)
  {
    hide Index, Sound, RowStep, IsSqrt, DistAA, FixedPoint;
    IndexStep(m, x, y, ox, oy);
    SeedInside(m, s, x + ox, y + oy);
    KnownOrFar(m, s, x, y);
    var i, c := NeighbourIs(m, s, x, y, ox, oy);
    SettledAt(m, s, x, y, ox, oy);
    CandidateBounds(m, s, c, ox, oy);
  }

  /** The image is connected, so one object pixel is enough for all. */
  lemma {:induction false} KnownEverywhere(m: Image, s: Field, x0: int, y0: int, x: int, y: int)
    requires Sound(m, s) && FixedPoint(m, s) && Inside(m, x0, y0) && Inside(m, x, y) && Known(m, s, x0, y0)
    ensures Known(m, s, x, y)
    decreases (if x < x0 then x0 - x else x - x0) + (if y < y0 then y0 - y else y - y0)
  {
    hide Known, Sound, FixedPoint;
    if x != x0 {
      var ox := if x < x0 then 1 else -1;
      KnownEverywhere(m, s, x0, y0, x + ox, y);
      KnownSpreads(m, s, x, y, ox, 0);
    } else if y != y0 {
      var oy := if y < y0 then 1 else -1;
      KnownEverywhere(m, s, x0, y0, x, y + oy);
      KnownSpreads(m, s, x, y, 0, oy);
    }
  }

  /** What the transform leaves at a pixel when the image has an object pixel at all: a seed with
      a positive value, 0 on full object pixels, and a clearly positive distance on background. */
  lemma Completeness(m: Image, s: Field, x0: int, y0: int, x: int, y: int)
    requires Sound(m, s) && FixedPoint(m, s) && Inside(m, x0, y0) && Inside(m, x, y)
    requires 0 <= Index(m, x0, y0) < |m.img| && m.img[Index(m, x0, y0)] > 0.0
    ensures var i := Index(m, x, y);
      && Known(m, s, x, y) && 0 <= i < |s.d| == |m.img| && s.d[i] <= 70000.0 < FAR
      && (m.img[i] <= 0.0 ==> s.d[i] >= 0.25)
  {
    hide Index, Sound, FixedPoint;
    KnownOrFar(m, s, x0, y0);
    KnownEverywhere(m, s, x0, y0, x, y);
    KnownOrFar(m, s, x, y);
    AwayFromSeed(m, s, x, y);
  }

  /** Background is at a clearly positive distance, whether or not it was reached; a full object
      pixel is at distance at most 0. */
  lemma AwayFromSeed(m: Image, s: Field, x: int, y: int)
    requires Sound(m, s) && Inside(m, x, y)
    ensures var i := Index(m, x, y);
      && 0 <= i < |s.d| == |m.img|
      && (m.img[i] <= 0.0 ==> s.d[i] >= 0.25)
      && (m.img[i] >= 1.0 ==> s.d[i] <= 0.0)
  {
    hide IsSqrt, Index, Pixels, Sound, SeedDistance, EdgeDf;
    var i := Index(m, x, y);
    SeedInside(m, s, x, y);
    PixelOfSound(m, s, x, y);
    RowStepZero(m);
    var c := i - s.dx[i] - RowStep(m, s.dy[i]);
    SeedDistanceBounds(m.sqrt, m.img[c], m.gx[c], m.gy[c], s.dx[i], s.dy[i]);
  }

  lemma InitialSign(m: Image, i: int)
    requires m.Valid() && 0 <= i < |m.img|
    ensures var a, d := m.img[i], Initial(m, i);
      (d > 0.0 <==> a < 0.5) && (a == 0.5 ==> d == 0.0)
  {
    if 0.0 < m.img[i] < 1.0 { EdgeSign(m.sqrt, m.gx[i], m.gy[i], m.img[i]); }
  }

  /** The distance of a pixel that is its own seed. */
  lemma OwnSeedSign(m: Image, i: int)
    requires m.Valid() && 0 <= i < |m.img| && m.img[i] > 0.0
    ensures SignOfHalf(SeedDistance(m.sqrt, m.img[i], m.gx[i], m.gy[i], 0, 0),
                       if m.img[i] > 1.0 then 1.0 else m.img[i])
  {
    hide IsSqrt, EdgeDf, SeedDistance;
    var a := if m.img[i] > 1.0 then 1.0 else m.img[i];
    SeedDistanceBounds(m.sqrt, m.img[i], m.gx[i], m.gy[i], 0, 0);
    EdgeSign(m.sqrt, m.gx[i], m.gy[i], a);
  }

  /** In every sound state, whatever the gradients: a distance is positive exactly below one half,
      and zero at one half. */
  lemma PixelSign(m: Image, s: Field, x: int, y: int)
    requires Sound(m, s) && Inside(m, x, y)
    ensures var i := Index(m, x, y);
      && 0 <= i < |s.d| == |m.img|
      && (s.d[i] > 0.0 <==> m.img[i] < 0.5) && (m.img[i] == 0.5 ==> s.d[i] == 0.0)
  {
    hide IsSqrt, Index, Pixels, Sound, SeedDistance, EdgeDf, Initial;
    var i := Index(m, x, y);
    SeedInside(m, s, x, y);
    PixelOfSound(m, s, x, y);
    RowStepZero(m);
    InitialSign(m, i);
    var c := i - s.dx[i] - RowStep(m, s.dy[i]);
    SeedDistanceBounds(m.sqrt, m.img[c], m.gx[c], m.gy[c], s.dx[i], s.dy[i]);
    if c == i && m.img[i] > 0.0 { OwnSeedSign(m, i); }
  }
}
