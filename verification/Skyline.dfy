/** What the node list of a texture atlas (external/freetype-gl/texture-atlas.c) denotes: the
    height of every column between the left and the right border pixel. */
module Skyline {

  /** An ivec3: the first column, the first free row, and the number of columns. */
  datatype Node = Node(x: int, y: int, z: int)

  datatype Region = Region(x: int, y: int, width: int, height: int)

  function Repeat(y: int, n: int): (s: seq<int>)
    ensures |s| == if n > 0 then n else 0
    ensures forall i :: 0 <= i < |s| ==> s[i] == y
  {
    seq(if n > 0 then n else 0, _ => y)
  }

  /** The heights of columns 1, 2, ... in order. */
  function Heights(ns: seq<Node>): seq<int> {
    if ns == [] then [] else Repeat(ns[0].y, ns[0].z) + Heights(ns[1..])
  }

  /** Every node is positive in width and starts where the one before it ends. */
  ghost predicate Contiguous(ns: seq<Node>, start: int) {
    ns == [] || (ns[0].x == start && ns[0].z > 0 && Contiguous(ns[1..], start + ns[0].z))
  }

  ghost predicate NoRepeats(ns: seq<Node>) {
    forall i :: 0 <= i < |ns| - 1 ==> ns[i].y != ns[i + 1].y
  }

  /** Heights stay within rows 1..limit. */
  ghost predicate Within(hs: seq<int>, limit: int) {
    forall i :: 0 <= i < |hs| ==> 1 <= hs[i] <= limit
  }

  /** The node list of an atlas of the given size. */
  ghost predicate ValidNodes(ns: seq<Node>, width: int, height: int)
    ensures ValidNodes(ns, width, height) ==>
      ns != [] && Contiguous(ns, 1) && |Heights(ns)| == width - 2 && Within(Heights(ns), height - 1)
  {
    && ns != [] && Contiguous(ns, 1) && NoRepeats(ns)
    && |Heights(ns)| == width - 2 && Within(Heights(ns), height - 1)
  }

  // ---- lists and heights ----

  lemma {:induction false} HeightsAppend(a: seq<Node>, b: seq<Node>)
    ensures Heights(a + b) == Heights(a) + Heights(b)
  {
    if a == [] {
      assert a + b == b;
    } else {
      assert (a + b)[1..] == a[1..] + b;
      HeightsAppend(a[1..], b);
      assert Repeat(a[0].y, a[0].z) + (Heights(a[1..]) + Heights(b))
          == Repeat(a[0].y, a[0].z) + Heights(a[1..]) + Heights(b);
    }
  }

  lemma {:induction false} ContiguousAppend(a: seq<Node>, b: seq<Node>, start: int)
    ensures Contiguous(a + b, start) <==> Contiguous(a, start) && Contiguous(b, start + |Heights(a)|)
  {
    if a == [] {
      assert a + b == b;
    } else {
      assert (a + b)[1..] == a[1..] + b;
      if a[0].z > 0 { ContiguousAppend(a[1..], b, start + a[0].z); }
    }
  }

  lemma HeightsOne(n: Node)
    ensures Heights([n]) == Repeat(n.y, n.z)
  {
    assert [n][1..] == [];
    assert Heights([n]) == Repeat(n.y, n.z) + [];
  }

  /** Node i starts at its column and gives its height to all its columns. */
  lemma NodeColumns(ns: seq<Node>, i: nat, start: int)
    requires Contiguous(ns, start) && i < |ns|
    ensures ns[i].z > 0 && ns[i].x == start + |Heights(ns[..i])|
    ensures ns[i].x - start + ns[i].z == |Heights(ns[..i + 1])| <= |Heights(ns)|
    ensures Heights(ns)[ns[i].x - start..ns[i].x - start + ns[i].z] == Repeat(ns[i].y, ns[i].z)
    ensures ns[i].x - start + ns[i].z == |Heights(ns)| <==> i + 1 == |ns|
    ensures i + 1 < |ns| ==> ns[i + 1].x == ns[i].x + ns[i].z
  {
    var a, b := ns[..i], ns[i + 1..];
    assert ns == a + [ns[i]] + b;
    assert ns[..i + 1] == a + [ns[i]];
    HeightsAppend(a, [ns[i]]);
    HeightsAppend(a + [ns[i]], b);
    HeightsOne(ns[i]);
    ContiguousAppend(a + [ns[i]], b, start);
    ContiguousAppend(a, [ns[i]], start);
    if b != [] {
      assert b[0] == ns[i + 1];
    }
  }

  // ---- the highest column of a window ----

  function Peak(hs: seq<int>, from: int, n: int): int
    requires 0 <= from && 0 < n && from + n <= |hs|
    decreases n
  {
    if n == 1 then hs[from]
    else
      var rest := Peak(hs, from + 1, n - 1);
      if hs[from] > rest then hs[from] else rest
  }

  lemma {:induction false} PeakBounds(hs: seq<int>, from: int, n: int) returns (at: int)
    requires 0 <= from && 0 < n && from + n <= |hs|
    ensures forall c :: from <= c < from + n ==> hs[c] <= Peak(hs, from, n)
    ensures from <= at < from + n && hs[at] == Peak(hs, from, n)
    decreases n
  {
    at := from;
    if n > 1 {
      var rest := PeakBounds(hs, from + 1, n - 1);
      if hs[from] <= hs[rest] { at := rest; }
    }
  }

  lemma PeakIs(hs: seq<int>, from: int, n: int, y: int, at: int)
    requires 0 <= from && 0 < n && from + n <= |hs|
    requires forall c :: from <= c < from + n ==> hs[c] <= y
    requires from <= at < from + n && hs[at] == y
    ensures Peak(hs, from, n) == y
  {
    var other := PeakBounds(hs, from, n);
  }

  /** The row for a region whose left edge is column x, or -1 when it does not fit there. */
  function FitRow(hs: seq<int>, x: int, w: int, h: int, width: int, height: int): int
    requires 0 < w && |hs| == width - 2
  {
    if x < 1 || x + w > width - 1 then -1
    else
      var y := Peak(hs, x - 1, w);
      if y + h > height - 1 then -1 else y
  }

  /** A region of w columns and h rows at (x, y) lies inside the border pixels, and no column under
      it is higher than y. hs[0] is the height of column 1. */
  ghost predicate Room(hs: seq<int>, x: int, y: int, w: int, h: int, width: int, height: int)
    requires |hs| == width - 2
  {
    && 1 <= x && x + w <= width - 1 && 1 <= y && y + h <= height - 1
    && forall c :: x - 1 <= c < x - 1 + w ==> hs[c] <= y
  }

  ghost predicate NoRoom(hs: seq<int>, w: int, h: int, width: int, height: int)
    requires |hs| == width - 2
  {
    forall x, y :: !Room(hs, x, y, w, h, width, height)
  }

  lemma NowhereRoom(hs: seq<int>, w: int, h: int, width: int, height: int)
    requires |hs| == width - 2 && forall x, y :: !Room(hs, x, y, w, h, width, height)
    ensures NoRoom(hs, w, h, width, height)
  {
  }

  /** There is room at (x, y), and nowhere in a lower row. */
  ghost predicate LowestRoom(hs: seq<int>, x: int, y: int, w: int, h: int, width: int, height: int)
    requires |hs| == width - 2
  {
    && Room(hs, x, y, w, h, width, height)
    && forall x', y' :: Room(hs, x', y', w, h, width, height) ==> y <= y'
  }

  /** FitRow is the least row with room at that column. */
  lemma RoomIff(hs: seq<int>, x: int, y: int, w: int, h: int, width: int, height: int)
    requires 0 < w && |hs| == width - 2 && Within(hs, height - 1)
    ensures var row := FitRow(hs, x, w, h, width, height);
      Room(hs, x, y, w, h, width, height) <==> 0 <= row <= y && y + h <= height - 1
  {
    if 1 <= x && x + w <= width - 1 {
      var at := PeakBounds(hs, x - 1, w);
    }
  }

  // ---- level runs ----

  /** The columns x..x+n-1 have the same height, and their neighbours another one. */
  ghost predicate LevelRun(hs: seq<int>, x: int, n: int) {
    && 1 <= x && 0 < n && x - 1 + n <= |hs|
    && (forall c :: x - 1 <= c < x - 1 + n ==> hs[c] == hs[x - 1])
    && (x > 1 ==> hs[x - 2] != hs[x - 1])
    && (x - 1 + n < |hs| ==> hs[x - 1 + n] != hs[x - 1])
  }

  /** Column x starts the narrowest level run that has room in row y, the first of several. */
  ghost predicate FirstNarrowest(hs: seq<int>, x: int, y: int, w: int, h: int, width: int, height: int)
    requires |hs| == width - 2
  {
    exists n :: LevelRun(hs, x, n) && forall x', n' ::
      LevelRun(hs, x', n') && Room(hs, x', y, w, h, width, height) ==> n < n' || (n == n' && x <= x')
  }

  // ---- node starts are enough ----

  lemma {:induction false} NodeAt(ns: seq<Node>, start: int, x: int) returns (i: nat)
    requires Contiguous(ns, start) && start <= x < start + |Heights(ns)|
    ensures i < |ns| && ns[i].x <= x < ns[i].x + ns[i].z
  {
    if x < start + ns[0].z {
      i := 0;
    } else {
      var j := NodeAt(ns[1..], start + ns[0].z, x);
      i := j + 1;
    }
  }

  /** Sliding a window left to the start of the node below its left edge does not raise its peak. */
  lemma SlideLeft(ns: seq<Node>, x: int, w: int, h: int, width: int, height: int) returns (i: nat)
    requires ValidNodes(ns, width, height) && 0 < w
    requires FitRow(Heights(ns), x, w, h, width, height) >= 0
    ensures i < |ns| && ns[i].x >= 1
    ensures 0 <= FitRow(Heights(ns), ns[i].x, w, h, width, height) <= FitRow(Heights(ns), x, w, h, width, height)
  {
    hide Heights, Contiguous, NoRepeats, Peak;
    var hs := Heights(ns);
    i := NodeAt(ns, 1, x);
    NodeColumns(ns, i, 1);
    LevelColumns(hs, ns[i].x - 1, ns[i].z, ns[i].y);
    PeakSlides(hs, ns[i].x - 1, x - 1, w);
  }

  lemma LevelColumns(hs: seq<int>, from: int, n: int, y: int)
    requires 0 <= from && 0 <= n && from + n <= |hs| && hs[from..from + n] == Repeat(y, n)
    ensures forall c :: from <= c < from + n ==> hs[c] == y
  {
    forall c | from <= c < from + n ensures hs[c] == y { assert hs[c] == hs[from..from + n][c - from]; }
  }

  /** A window that is moved left over level ground has no higher peak. */
  lemma PeakSlides(hs: seq<int>, a: int, b: int, w: int)
    requires 0 <= a <= b && 0 < w && b + w <= |hs| && forall c :: a <= c < b ==> hs[c] == hs[b]
    requires forall c :: 0 <= c < |hs| ==> hs[c] >= 1
    ensures 1 <= Peak(hs, a, w) <= Peak(hs, b, w)
  {
    var at := PeakBounds(hs, a, w);
    var other := PeakBounds(hs, b, w);
  }

  // ---- a region on top of the skyline ----

  /** The heights after columns x..x+w-1 were raised to top. */
  function Raise(hs: seq<int>, x: int, w: int, top: int): seq<int>
    requires 1 <= x && 0 <= w && x - 1 + w <= |hs|
  {
    hs[..x - 1] + Repeat(top, w) + hs[x - 1 + w..]
  }

  predicate InBorder(r: Region, width: int, height: int) {
    && r.width > 0 && r.height > 0
    && 1 <= r.x && r.x + r.width <= width - 1 && 1 <= r.y && r.y + r.height <= height - 1
  }

  predicate Disjoint(a: Region, b: Region) {
    || a.x + a.width <= b.x || b.x + b.width <= a.x
    || a.y + a.height <= b.y || b.y + b.height <= a.y
  }

  ghost predicate Below(r: Region, hs: seq<int>) {
    forall k :: 0 <= k < |hs| && r.x - 1 <= k < r.x - 1 + r.width ==> r.y + r.height <= hs[k]
  }

  /** Regions inside the border pixels, pairwise disjoint, and all below the skyline. */
  ghost predicate Packed(hs: seq<int>, regions: seq<Region>, width: int, height: int) {
    && |hs| == width - 2 && Within(hs, height - 1)
    && (forall i :: 0 <= i < |regions| ==> InBorder(regions[i], width, height) && Below(regions[i], hs))
    && (forall i, j :: 0 <= i < j < |regions| ==> Disjoint(regions[i], regions[j]))
  }

  /** Columns in the window end at the top, all others stay. */
  lemma Raised(hs: seq<int>, r: Region)
    requires 1 <= r.x && 0 < r.width && r.x - 1 + r.width <= |hs| && r.height > 0
    requires r.y == Peak(hs, r.x - 1, r.width)
    ensures var hs' := Raise(hs, r.x, r.width, r.y + r.height);
      && |hs'| == |hs|
      && (forall c :: 0 <= c < |hs| ==> hs[c] <= hs'[c])
      && (forall c :: r.x - 1 <= c < r.x - 1 + r.width ==> hs[c] <= r.y && hs'[c] == r.y + r.height)
      && (forall c :: 0 <= c < |hs| && !(r.x - 1 <= c < r.x - 1 + r.width) ==> hs'[c] == hs[c])
  {
    var at := PeakBounds(hs, r.x - 1, r.width);
  }

  lemma BelowStays(o: Region, hs: seq<int>, hs': seq<int>)
    requires Below(o, hs) && |hs| == |hs'| && forall c :: 0 <= c < |hs| ==> hs[c] <= hs'[c]
    ensures Below(o, hs')
  {
  }

  /** What lies below the skyline is disjoint from what is put on top of it. */
  lemma DisjointFromTop(o: Region, r: Region, hs: seq<int>, width: int, height: int)
    requires Below(o, hs) && InBorder(o, width, height) && InBorder(r, width, height) && |hs| == width - 2
    requires forall c :: r.x - 1 <= c < r.x - 1 + r.width ==> hs[c] <= r.y
    ensures Disjoint(o, r)
  {
    if !(o.x + o.width <= r.x || r.x + r.width <= o.x) {
      var c := if o.x > r.x then o.x else r.x;
      assert o.y + o.height <= hs[c - 1] <= r.y;
    }
  }

  lemma PackedRaise(hs: seq<int>, regions: seq<Region>, width: int, height: int, r: Region)
    requires Packed(hs, regions, width, height) && InBorder(r, width, height)
    requires r.y == Peak(hs, r.x - 1, r.width)
    ensures Packed(Raise(hs, r.x, r.width, r.y + r.height), regions + [r], width, height)
  {
    hide Raise, Peak, Below, Disjoint;
    Raised(hs, r);
    var hs' := Raise(hs, r.x, r.width, r.y + r.height);
    forall i | 0 <= i < |regions|
      ensures Below(regions[i], hs') && Disjoint(regions[i], r)
    {
      BelowStays(regions[i], hs, hs');
      DisjointFromTop(regions[i], r, hs, width, height);
    }
    TopIsBelow(r, hs');
  }

  lemma TopIsBelow(r: Region, hs: seq<int>)
    requires 1 <= r.x && 0 < r.width && r.x - 1 + r.width <= |hs|
    requires forall c :: r.x - 1 <= c < r.x - 1 + r.width ==> hs[c] == r.y + r.height
    ensures Below(r, hs)
  {
  }

  // ---- areas ----

  function Area(regions: seq<Region>): int {
    if regions == [] then 0
    else
      var r := regions[|regions| - 1];
      Area(regions[..|regions| - 1]) + r.width * r.height
  }

  /** The number of pixels between the top border row and the skyline. */
  function Filled(hs: seq<int>): int {
    if hs == [] then 0 else hs[0] - 1 + Filled(hs[1..])
  }

  lemma {:induction false} FilledAppend(a: seq<int>, b: seq<int>)
    ensures Filled(a + b) == Filled(a) + Filled(b)
  {
    if a == [] {
      assert a + b == b;
    } else {
      assert (a + b)[1..] == a[1..] + b;
      FilledAppend(a[1..], b);
    }
  }

  lemma {:induction false} FilledAtMost(hs: seq<int>, y: int)
    requires forall i :: 0 <= i < |hs| ==> hs[i] <= y
    ensures Filled(hs) <= |hs| * (y - 1)
  {
    if hs != [] { FilledAtMost(hs[1..], y); }
  }

  lemma {:induction false} FilledRepeat(y: int, n: nat)
    ensures Filled(Repeat(y, n)) == n * (y - 1)
  {
    if n > 0 {
      assert Repeat(y, n)[1..] == Repeat(y, n - 1);
      FilledRepeat(y, n - 1);
    }
  }

  /** Raising a window above its peak covers at least the area of the region put there. */
  lemma FilledRaise(hs: seq<int>, x: int, w: nat, y: int, h: nat)
    requires 1 <= x && x - 1 + w <= |hs|
    requires forall c :: x - 1 <= c < x - 1 + w ==> hs[c] <= y
    ensures Filled(Raise(hs, x, w, y + h)) >= Filled(hs) + w * h
  {
    var a, b, c := hs[..x - 1], hs[x - 1..x - 1 + w], hs[x - 1 + w..];
    assert hs == a + b + c;
    FilledAppend(a + b, c);
    FilledAppend(a, b);
    FilledAppend(a + Repeat(y + h, w), c);
    FilledAppend(a, Repeat(y + h, w));
    FilledRepeat(y + h, w);
    FilledAtMost(b, y);
    assert w * (y + h - 1) == w * (y - 1) + w * h;
  }

  /** A packing never holds more pixels than lie below its skyline, and those fit the atlas. */
  lemma FilledFits(hs: seq<int>, width: int, height: int)
    requires |hs| == width - 2 && Within(hs, height - 1)
    ensures 0 <= Filled(hs) <= (width - 2) * (height - 2)
  {
    FilledAtMost(hs, height - 1);
    FilledNonNegative(hs);
  }

  lemma {:induction false} FilledNonNegative(hs: seq<int>)
    requires forall i :: 0 <= i < |hs| ==> hs[i] >= 1
    ensures Filled(hs) >= 0
  {
    if hs != [] { FilledNonNegative(hs[1..]); }
  }
}
