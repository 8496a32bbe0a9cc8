/** The rectangle allocator of external/freetype-gl/texture-atlas.c. */
module TextureAtlas {
  import opened Bytes
  import opened Vectors
  import opened Skyline

  const INT_MAX := 0x7fff_ffff
  const UINT_MAX := 0xffff_ffff
  const SIZE_MODULUS := 0x1_0000_0000_0000_0000

  /** ++i and --i on size_t. */
  function Succ(i: int): int { (i + 1) % SIZE_MODULUS }
  function Pred(i: int): int { (i + SIZE_MODULUS - 1) % SIZE_MODULUS }

  lemma BackAndForth(i: nat)
    requires i < SIZE_MODULUS
    ensures Succ(Pred(i)) == i
    ensures i + 1 < SIZE_MODULUS ==> Succ(i) == i + 1
  {
  }

  // ---- two steps on node lists ----

  /** Joining two neighbours of equal height keeps the skyline. */
  lemma JoinNodes(ns: seq<Node>, i: nat, start: int)
    requires i + 1 < |ns| && Contiguous(ns, start) && ns[i].y == ns[i + 1].y
    ensures var ns' := ns[..i] + [ns[i].(z := ns[i].z + ns[i + 1].z)] + ns[i + 2..];
      Contiguous(ns', start) && Heights(ns') == Heights(ns)
  {
    var a, n, m, b := ns[..i], ns[i], ns[i + 1], ns[i + 2..];
    var j := n.(z := n.z + m.z);
    assert ns == a + ([n, m] + b) && [n, m] == [n] + [m];
    ContiguousAppend(a, [n, m] + b, start);
    ContiguousAppend([n, m], b, start + |Heights(a)|);
    ContiguousAppend([n], [m], start + |Heights(a)|);
    HeightsAppend(a, [n, m] + b);
    HeightsAppend([n, m], b);
    HeightsAppend([n], [m]);
    HeightsOne(n);
    HeightsOne(m);
    HeightsOne(j);
    assert Repeat(n.y, n.z) + Repeat(m.y, m.z) == Repeat(j.y, j.z);
    assert a + [j] + b == a + ([j] + b);
    ContiguousAppend(a, [j] + b, start);
    ContiguousAppend([j], b, start + |Heights(a)|);
    HeightsAppend(a, [j] + b);
    HeightsAppend([j], b);
  }

  /** rest continues the list behind column x - 1 and denotes the heights from there on. */
  ghost predicate Rest(rest: seq<Node>, hs: seq<int>, x: int) {
    1 <= x <= |hs| + 1 && Contiguous(rest, x) && Heights(rest) == hs[x - 1..]
  }

  lemma SplitRest(ns: seq<Node>, i: nat)
    requires Contiguous(ns, 1) && i < |ns|
    ensures Rest(ns[i..], Heights(ns), ns[i].x) && Heights(ns[..i]) == Heights(ns)[..ns[i].x - 1]
    ensures Contiguous(ns[..i], 1)
  {
    NodeColumns(ns, i, 1);
    assert ns == ns[..i] + ns[i..];
    HeightsAppend(ns[..i], ns[i..]);
    ContiguousAppend(ns[..i], ns[i..], 1);
  }

  lemma DropNode(rest: seq<Node>, hs: seq<int>, x: int)
    requires Rest(rest, hs, x) && rest != []
    ensures Rest(rest[1..], hs, x + rest[0].z)
  {
    assert Heights(rest)[rest[0].z..] == Heights(rest[1..]);
  }

  /** Cutting k columns off the first node. */
  lemma CutNode(rest: seq<Node>, hs: seq<int>, x: int, k: nat, cut: Node)
    requires Rest(rest, hs, x) && rest != [] && k < rest[0].z
    requires cut.x == x + k && cut.y == rest[0].y && cut.z == rest[0].z - k
    ensures Rest([cut] + rest[1..], hs, x + k)
  {
    var n := rest[0];
    assert ([cut] + rest[1..])[1..] == rest[1..];
    assert Repeat(n.y, n.z) == Repeat(n.y, k) + Repeat(n.y, n.z - k);
    assert Heights(rest)[k..] == Repeat(cut.y, cut.z) + Heights(rest[1..]);
  }

  lemma Replaced(head: seq<Node>, n: Node, rest: seq<Node>, hs: seq<int>)
    requires Contiguous(head, 1) && 1 <= n.x && 0 < n.z && n.x - 1 + n.z <= |hs|
    requires Heights(head) == hs[..n.x - 1] && Rest(rest, hs, n.x + n.z)
    ensures Contiguous(head + [n] + rest, 1) && Heights(head + [n] + rest) == Raise(hs, n.x, n.z, n.y)
  {
    HeightsOne(n);
    HeightsAppend(head, [n]);
    HeightsAppend(head + [n], rest);
    ContiguousAppend(head + [n], rest, 1);
    ContiguousAppend(head, [n], 1);
  }

  // ---- the choice of a node ----

  /** Node b is the first of the fitting nodes with the least row, and of those the narrowest. */
  ghost predicate Chosen(ns: seq<Node>, upTo: nat, b: nat, w: int, h: int, width: int, height: int)
    requires |Heights(ns)| == width - 2 && 0 < w && upTo <= |ns|
  {
    && b < upTo && FitRow(Heights(ns), ns[b].x, w, h, width, height) >= 0
    && forall i :: 0 <= i < upTo ==>
         var y := FitRow(Heights(ns), ns[i].x, w, h, width, height);
         var best := FitRow(Heights(ns), ns[b].x, w, h, width, height);
         || y < 0 || y > best
         || (y == best && (ns[i].z > ns[b].z || (ns[i].z == ns[b].z && i >= b)))
  }

  /** All columns of node i have its height, and the next node starts behind them. */
  lemma NodeLevel(ns: seq<Node>, i: nat)
    requires Contiguous(ns, 1) && i < |ns|
    ensures ns[i].x >= 1 && ns[i].z > 0 && ns[i].x - 1 + ns[i].z <= |Heights(ns)|
    ensures forall c :: ns[i].x - 1 <= c < ns[i].x - 1 + ns[i].z ==> Heights(ns)[c] == ns[i].y
    ensures if i + 1 < |ns| then ns[i + 1].x == ns[i].x + ns[i].z else ns[i].x - 1 + ns[i].z == |Heights(ns)|
  {
    hide Heights, Contiguous;
    NodeColumns(ns, i, 1);
    var from := ns[i].x - 1;
    var level := Heights(ns)[from..from + ns[i].z];
    forall c | from <= c < from + ns[i].z ensures Heights(ns)[c] == ns[i].y {
      assert Heights(ns)[c] == level[c - from];
      assert level[c - from] == Repeat(ns[i].y, ns[i].z)[c - from] == ns[i].y;
    }
  }

  /** The nodes of an atlas are the level runs of its heights. */
  lemma NodeIsRun(ns: seq<Node>, i: nat)
    requires Contiguous(ns, 1) && NoRepeats(ns) && i < |ns|
    ensures LevelRun(Heights(ns), ns[i].x, ns[i].z)
  {
    hide Heights, Contiguous;
    NodeLevel(ns, i);
    if i + 1 < |ns| { NodeLevel(ns, i + 1); }
    if i > 0 { NodeLevel(ns, i - 1); }
    if i == 0 { FirstNode(ns); }
  }

  lemma FirstNode(ns: seq<Node>)
    requires Contiguous(ns, 1) && ns != []
    ensures ns[0].x == 1
  {
  }

  lemma RunIsNode(ns: seq<Node>, x: int, n: int) returns (i: nat)
    requires Contiguous(ns, 1) && NoRepeats(ns) && LevelRun(Heights(ns), x, n)
    ensures i < |ns| && ns[i].x == x && ns[i].z == n
  {
    hide Heights, Contiguous;
    i := NodeAt(ns, 1, x);
    NodeLevel(ns, i);
    NodeIsRun(ns, i);
  }

  lemma {:induction false} NodeOrder(ns: seq<Node>, i: nat, j: nat)
    requires Contiguous(ns, 1) && i <= j < |ns|
    ensures ns[i].x <= ns[j].x
  {
    hide Heights, Contiguous;
    if i < j {
      NodeOrder(ns, i, j - 1);
      NodeLevel(ns, j - 1);
    }
  }

  /** So the choice among the nodes is a choice among the level runs. */
  lemma ChosenRun(ns: seq<Node>, b: nat, w: int, h: int, width: int, height: int)
    requires ValidNodes(ns, width, height) && 0 < w && b < |ns| && Chosen(ns, |ns|, b, w, h, width, height)
    ensures FirstNarrowest(Heights(ns), ns[b].x, FitRow(Heights(ns), ns[b].x, w, h, width, height), w, h, width, height)
  {
    hide Heights, Contiguous, FitRow, Room, LevelRun, Within;
    var hs := Heights(ns);
    var y := FitRow(hs, ns[b].x, w, h, width, height);
    NodeIsRun(ns, b);
    forall x, n | LevelRun(hs, x, n) && Room(hs, x, y, w, h, width, height)
      ensures ns[b].z < n || (ns[b].z == n && ns[b].x <= x)
    {
      var i := RunIsNode(ns, x, n);
      RoomIff(hs, x, y, w, h, width, height);
      if i >= b { NodeOrder(ns, b, i); }
    }
  }

  lemma {:induction false} NodeCount(ns: seq<Node>, start: int)
    requires Contiguous(ns, start)
    ensures |ns| <= |Heights(ns)|
  {
    if ns != [] { NodeCount(ns[1..], start + ns[0].z); }
  }

  lemma DataSize(width: nat, height: nat, depth: nat)
    ensures width * height * depth >= 0
  {
  }

  /** The list with one node on the ground is a packing of nothing. */
  lemma Ground(node: Node, width: int, height: int)
    requires 3 <= width && 3 <= height && node == Node(1, 1, width - 2)
    ensures ValidNodes([node], width, height) && Heights([node]) == Repeat(1, width - 2)
    ensures Packed(Heights([node]), [], width, height)
    ensures Filled(Heights([node])) == 0
  {
    HeightsOne(node);
    FilledRepeat(1, width - 2);
  }

  // ---- the flat image ----

  /** The index of byte q of row r in an image with rowBytes bytes a row. */
  function At(rowBytes: nat, r: nat, q: nat): nat { r * rowBytes + q }

  lemma Scale(a: int, b: int, c: nat)
    requires a <= b
    ensures a * c <= b * c
    ensures b * c == a * c + (b - a) * c
  {
    assert b * c == a * c + (b - a) * c;
  }

  lemma AtInside(rowBytes: nat, rows: nat, r: nat, q: nat)
    requires r < rows && q < rowBytes
    ensures At(rowBytes, r, q) < rows * rowBytes
  {
    Scale(r + 1, rows, rowBytes);
    Scale(r, r + 1, rowBytes);
  }

  lemma AtInjective(rowBytes: nat, r: nat, q: nat, r': nat, q': nat)
    requires q < rowBytes && q' < rowBytes && At(rowBytes, r, q) == At(rowBytes, r', q')
    ensures r == r' && q == q'
  {
    if r < r' {
      Scale(r + 1, r', rowBytes);
      Scale(r, r + 1, rowBytes);
    } else if r' < r {
      Scale(r' + 1, r, rowBytes);
      Scale(r', r' + 1, rowBytes);
    }
  }

  /** A bitmap put at a pixel position: h rows of w * depth bytes, stride bytes apart. */
  datatype Upload = Upload(x: int, y: int, w: nat, h: nat, bytes: seq<byte>, stride: nat) {
    /** The bitmap holds all its rows. */
    ghost predicate Complete(depth: int) {
      depth in {1, 3, 4} && 0 < x && 0 < y && (h > 0 ==> |bytes| >= (h - 1) * stride + w * depth)
    }

    predicate Covers(depth: int, r: nat, q: nat) {
      y <= r < y + h && x * depth <= q < (x + w) * depth
    }

    lemma ByteInside(depth: int, r: nat, q: nat)
      requires Complete(depth) && Covers(depth, r, q)
      ensures 0 <= (r - y) * stride + (q - x * depth) < |bytes|
    {
      Scale(x, x + w, depth);
      Scale(r - y, h - 1, stride);
      Scale(0, r - y, stride);
    }

    function Byte(depth: int, r: nat, q: nat): byte
      requires Complete(depth) && Covers(depth, r, q)
    {
      ByteInside(depth, r, q);
      bytes[(r - y) * stride + (q - x * depth)]
    }
  }

  lemma RowStart(r: nat, x: nat, width: nat, depth: nat)
    ensures (r * width + x) * depth == At(width * depth, r, x * depth)
  {
    assert (r * width + x) * depth == (r * width) * depth + x * depth;
    assert (r * width) * depth == r * (width * depth);
  }

  lemma DataLength(width: nat, height: nat, depth: nat)
    ensures width * height * depth == height * (width * depth)
  {
    assert width * height == height * width;
    assert (height * width) * depth == height * (width * depth);
  }

  lemma RowBytes(x: nat, w: nat, width: nat, depth: nat)
    requires x + w <= width
    ensures 0 <= x * depth && x * depth + w * depth <= width * depth
    ensures (x + w) * depth == x * depth + w * depth
  {
    Scale(0, x, depth);
    Scale(x, x + w, depth);
    Scale(x + w, width, depth);
  }

  /** Row i of a bitmap: where it goes, and that it is there in the source. */
  lemma RowTarget(u: Upload, i: nat, width: nat, height: nat, depth: nat)
    requires i < u.h && u.Complete(depth) && u.x + u.w <= width && u.y + u.h <= height
    ensures var target, source, count := ((u.y + i) * width + u.x) * depth, i * u.stride, u.w * depth;
      && target == At(width * depth, u.y + i, u.x * depth) && 0 <= target
      && target + count <= width * height * depth
      && 0 <= source && source + count <= |u.bytes|
  {
    var r := u.y + i;
    RowStart(r, u.x, width, depth);
    DataLength(width, height, depth);
    RowBytes(u.x, u.w, width, depth);
    Scale(i, u.h - 1, u.stride);
    Scale(0, i, u.stride);
    InImage(width * depth, height, r, u.x * depth, u.w * depth);
  }

  lemma InImage(rowBytes: nat, rows: nat, r: nat, q: nat, count: nat)
    requires r < rows && q + count <= rowBytes
    ensures 0 <= At(rowBytes, r, q) && At(rowBytes, r, q) + count <= rows * rowBytes
  {
    Scale(r + 1, rows, rowBytes);
    Scale(r, r + 1, rowBytes);
    Scale(0, r, rowBytes);
  }

  /** Byte q of row r lies in the target of row i exactly when the bitmap covers it there. */
  lemma RowTargetIs(u: Upload, i: nat, width: nat, height: nat, depth: nat, r: nat, q: nat)
    requires i < u.h && u.Complete(depth) && u.x + u.w <= width && u.y + u.h <= height
    requires r < height && q < width * depth
    ensures var target, count, at := ((u.y + i) * width + u.x) * depth, u.w * depth, At(width * depth, r, q);
      && 0 <= at < width * height * depth
      && (target <= at < target + count <==> u.Covers(depth, r, q) && r == u.y + i)
      && (target <= at < target + count ==>
            0 <= i * u.stride + (at - target) < |u.bytes|
            && u.Byte(depth, r, q) == u.bytes[i * u.stride + (at - target)])
  {
    RowTarget(u, i, width, height, depth);
    AtInside(width * depth, height, r, q);
    DataLength(width, height, depth);
    RowBytes(u.x, u.w, width, depth);
    SameRow(width * depth, u.y + i, u.x * depth, u.w * depth, r, q);
  }

  lemma SameRow(rowBytes: nat, r: nat, q: nat, count: nat, r': nat, q': nat)
    requires q + count <= rowBytes && q' < rowBytes
    ensures var from, at := At(rowBytes, r, q), At(rowBytes, r', q');
      && (from <= at < from + count <==> r == r' && q <= q' < q + count)
      && (r == r' ==> at - from == q' - q)
  {
    var from, at := At(rowBytes, r, q), At(rowBytes, r', q');
    if from <= at < from + count {
      AtInjective(rowBytes, r', q', r, q + (at - from));
    }
  }

  class Atlas {
    const width: int
    const height: int
    const depth: int
    const nodes: Vector<Node>
    const data: array<byte>
    var used: int
    /** The regions handed out since the last clear. */
    ghost var regions: seq<Region>

    ghost predicate Shape() {
      && 3 <= width <= INT_MAX && 3 <= height <= INT_MAX && depth in {1, 3, 4}
      && data.Length == width * height * depth
    }

    /** The heights of columns 1..width-2. */
    ghost function Outline(): (hs: seq<int>)
      reads nodes, nodes.items
      requires nodes.Valid()
      ensures hs == Heights(nodes.Contents())
    {
      Heights(nodes.Contents())
    }

    ghost predicate Valid()
      reads this, nodes, nodes.items
    {
      && Shape() && nodes.Valid()
      && ValidNodes(nodes.Contents(), width, height)
      && Packed(Outline(), regions, width, height)
      && used == Area(regions) <= Filled(Outline())
    }

    /** texture_atlas_new. */
    constructor (width: int, height: int, depth: int)
      requires 3 <= width <= INT_MAX && 3 <= height <= INT_MAX && depth in {1, 3, 4}
      ensures Valid() && fresh(nodes) && fresh(nodes.items) && fresh(data)
      ensures this.width == width && this.height == height && this.depth == depth
      ensures used == 0 && regions == [] && Outline() == Repeat(1, width - 2)
      ensures forall i :: 0 <= i < data.Length ==> data[i] == 0
    {
      hide Heights, Contiguous, Filled, Within, NoRepeats, ValidNodes, Packed;
      this.width, this.height, this.depth := width, height, depth;
      nodes := new Vector<Node>();
      DataSize(width, height, depth);
      data := new byte[width * height * depth](_ => 0);
      used, regions := 0, [];
      new;
      var node := Node(1, 1, width - 2);
      nodes.PushBack(node);
      assert nodes.Contents() == [node];
      Ground(node, width, height);
    }

    /** texture_atlas_fit. */
    method Fit(index: nat, w: int, h: int) returns (r: int)
      requires Shape() && nodes.Valid() && ValidNodes(nodes.Contents(), width, height)
      requires index < nodes.size && 0 < w && 0 < h
      ensures nodes.Contents()[index].x >= 1
      ensures r == FitRow(Outline(), nodes.Contents()[index].x, w, h, width, height)
    {
      hide Heights, Contiguous, Peak, NoRepeats, Within, ValidNodes;
      ghost var ns, hs := nodes.Contents(), Outline();
      NodeLevel(ns, index);
      var node := nodes.Get(index);
      var x, y := node.x, node.y;
      var widthLeft, i := w, index;
      if x + w > width - 1 { return -1; }
      ghost var at, end := x - 1, x;
      while widthLeft > 0
        invariant index <= i <= |ns| && widthLeft == w - (end - x) && end >= x
        invariant if i < |ns| then end == ns[i].x else end == width - 1
        invariant x - 1 <= at < x - 1 + w && hs[at] == y
        invariant widthLeft < w ==> y + h <= height - 1
        invariant forall c :: x - 1 <= c < x - 1 + w && c < end - 1 ==> hs[c] <= y
        decreases widthLeft
      {
        NodeLevel(ns, i);
        node := nodes.Get(i);
        if node.y > y {
          y := node.y;
          at := end - 1;
        }
        if y + h > height - 1 {
          ghost var top := PeakBounds(hs, x - 1, w);
          assert y == hs[at] <= Peak(hs, x - 1, w);
          return -1;
        }
        widthLeft := widthLeft - node.z;
        i := i + 1;
        end := end + node.z;
      }
      PeakIs(hs, x - 1, w, y, at);
      r := y;
    }

    /** texture_atlas_merge. */
    method Merge()
      requires nodes.Valid() && nodes.size > 0 && Contiguous(nodes.Contents(), 1)
      requires nodes.size < SIZE_MODULUS
      modifies nodes, nodes.items
      ensures nodes.Valid() && nodes.items == old(nodes.items) && nodes.size > 0
      ensures Contiguous(nodes.Contents(), 1) && NoRepeats(nodes.Contents())
      ensures Outline() == old(Outline())
    {
      hide Heights, Contiguous;
      var i := 0;
      while i < nodes.size - 1
        invariant nodes.Valid() && nodes.items == old(nodes.items)
        invariant 0 <= i < nodes.size <= old(nodes.size)
        invariant Contiguous(nodes.Contents(), 1) && Outline() == old(Outline())
        invariant forall j :: 0 <= j < i ==> nodes.Contents()[j].y != nodes.Contents()[j + 1].y
        decreases nodes.size - i
      {
        ghost var ns := nodes.Contents();
        var node := nodes.Get(i);
        var next := nodes.Get(i + 1);
        BackAndForth(i);
        if node.y == next.y {
          JoinNodes(ns, i, 1);
          nodes.Set(i, node.(z := node.z + next.z));
          nodes.Erase(i + 1);
          Joined(ns, i, node.(z := node.z + next.z));
          i := Pred(i);
        }
        i := Succ(i);
      }
    }

    /** One turn of the shrink loop: the node at i starts left of column limit, so it is cut there,
        or erased when nothing of it is left. */
    method ShrinkAt(i: nat, limit: int, ghost hs: seq<int>, ghost start: int) returns (erased: bool)
      requires nodes.Valid() && i < nodes.size && start < limit <= |hs| + 1
      requires Rest(nodes.Contents()[i..], hs, start)
      modifies nodes, nodes.items
      ensures nodes.Valid() && nodes.items == old(nodes.items) && i <= nodes.size
      ensures nodes.size == if erased then old(nodes.size) - 1 else old(nodes.size)
      ensures nodes.Contents()[..i] == old(nodes.Contents()[..i])
      ensures if erased
        then start + old(nodes.Contents()[i].z) <= limit
             && Rest(nodes.Contents()[i..], hs, start + old(nodes.Contents()[i].z))
        else Rest(nodes.Contents()[i..], hs, limit)
    {
      hide Rest, Heights, Contiguous;
      ghost var ns := nodes.Contents();
      RestStart(ns[i..], hs, start);
      var node := nodes.Get(i);
      var shrink := limit - node.x;
      node := node.(x := node.x + shrink, z := node.z - shrink);
      nodes.Set(i, node);
      erased := node.z <= 0;
      if erased {
        DropNode(ns[i..], hs, start);
        nodes.Erase(i);
        assert nodes.Contents()[i..] == ns[i..][1..];
      } else {
        CutNode(ns[i..], hs, start, shrink, node);
        assert nodes.Contents()[i..] == [node] + ns[i..][1..];
      }
    }

    /** The shrink loop of texture_atlas_get_region, behind the node at first - 1. */
    method ShrinkFrom(first: nat, ghost hs: seq<int>, ghost from: int) returns (ghost start: int)
      requires nodes.Valid() && 0 < first < nodes.size < SIZE_MODULUS
      requires Rest(nodes.Contents()[first..], hs, from)
      requires var prev := nodes.Contents()[first - 1];
        from <= prev.x + prev.z <= |hs| + 1
      modifies nodes, nodes.items
      ensures nodes.Valid() && nodes.items == old(nodes.items) && first <= nodes.size <= old(nodes.size)
      ensures nodes.Contents()[..first] == old(nodes.Contents()[..first])
      ensures Rest(nodes.Contents()[first..], hs, start)
      ensures var prev := old(nodes.Contents()[first - 1]);
        start <= prev.x + prev.z && (first < nodes.size ==> nodes.Contents()[first].x >= prev.x + prev.z)
    {
      hide Heights, Contiguous, Rest, Succ, Pred;
      start := from;
      ghost var limit := nodes.Contents()[first - 1].x + nodes.Contents()[first - 1].z;
      ghost var front := nodes.Contents()[..first];
      var i := first;
      while i < nodes.size
        invariant nodes.Valid() && nodes.items == old(nodes.items)
        invariant i == first <= nodes.size <= old(nodes.size)
        invariant nodes.Contents()[..first] == front
        invariant Rest(nodes.Contents()[first..], hs, start) && start <= limit
        decreases nodes.size
      {
        var node := nodes.Get(i);
        var prev := nodes.Get(i - 1);
        assert prev == front[i - 1];
        RestStart(nodes.Contents()[first..], hs, start);
        if node.x < prev.x + prev.z {
          var erased := ShrinkAt(i, prev.x + prev.z, hs, start);
          start := if erased then start + node.z else limit;
          if erased {
            BackAndForth(i);
            i := Pred(i);
          } else {
            RestStart(nodes.Contents()[first..], hs, start);
            break;
          }
        } else {
          break;
        }
        i := Succ(i);
      }
    }

    /** The middle of texture_atlas_get_region: a new node in front of node best, and the nodes
        under it shrunk or erased. */
    method InsertAndShrink(best: nat, node: Node)
      requires nodes.Valid() && best < nodes.size < SIZE_MODULUS - 1 && Contiguous(nodes.Contents(), 1)
      requires node.x == nodes.Contents()[best].x && 0 < node.z && node.x - 1 + node.z <= |Outline()|
      modifies nodes, nodes.items
      ensures nodes.Valid() && (nodes.items == old(nodes.items) || fresh(nodes.items))
      ensures 0 < nodes.size <= old(nodes.size) + 1 && Contiguous(nodes.Contents(), 1)
      ensures node.x >= 1 && Outline() == Raise(old(Outline()), node.x, node.z, node.y)
    {
      hide Heights, Contiguous, Raise, Rest;
      ghost var ns, hs := nodes.Contents(), Outline();
      SplitRest(ns, best);
      RestStart(ns[best..], hs, node.x);
      nodes.Insert(best, node);
      Inserted(ns, best, node, nodes.Contents());
      ghost var start := ShrinkFrom(best + 1, hs, node.x);
      ReplacedIn(nodes.Contents(), best + 1, ns[..best], node, hs, start);
    }

    /** The search of texture_atlas_get_region. */
    method FindNode(w: int, h: int) returns (bestIndex: int, region: Region)
      requires Valid() && 0 < w && 0 < h
      ensures -1 <= bestIndex < nodes.size
      ensures bestIndex == -1 ==> NoRoom(Outline(), w, h, width, height)
      ensures bestIndex >= 0 ==>
        && Chosen(nodes.Contents(), nodes.size, bestIndex, w, h, width, height)
        && LowestRoom(Outline(), region.x, region.y, w, h, width, height)
        && region.x == nodes.Contents()[bestIndex].x
        && region == Region(region.x, FitRow(Outline(), region.x, w, h, width, height), w, h)
    {
      hide Heights, FitRow, Contiguous, NoRepeats, Peak, Within, Chosen, LowestRoom, NoRoom;
      ghost var ns := nodes.Contents();
      region := Region(0, 0, w, h);
      var bestHeight, bestWidth := UINT_MAX, UINT_MAX;
      bestIndex := -1;
      for i := 0 to nodes.size
        invariant -1 <= bestIndex < i
        invariant bestIndex == -1 ==> bestHeight == UINT_MAX && NoneOf(ns, i, w, h, width, height)
        invariant bestIndex >= 0 ==>
          && Chosen(ns, i, bestIndex, w, h, width, height)
          && region == Region(ns[bestIndex].x, FitRow(Heights(ns), ns[bestIndex].x, w, h, width, height), w, h)
          && bestHeight == region.y + h && bestWidth == ns[bestIndex].z
      {
        var y := Fit(i, w, h);
        NodeLevel(ns, i);
        ChosenNext(ns, i, bestIndex, w, h, width, height);
        if y >= 0 {
          FitRowInside(Heights(ns), ns[i].x, w, h, width, height);
          var node := nodes.Get(i);
          if y + h < bestHeight || (y + h == bestHeight && node.z > 0 && node.z < bestWidth) {
            bestHeight := y + h;
            bestIndex := i;
            bestWidth := node.z;
            region := Region(node.x, y, w, h);
          }
        }
      }
      EveryColumn(ns, w, h, width, height, bestIndex);
    }

    /** texture_atlas_get_region. */
    method GetRegion(w: int, h: int) returns (region: Region)
      requires Valid() && 0 < w && 0 < h
      modifies this, nodes, nodes.items
      ensures Valid() && (nodes.items == old(nodes.items) || fresh(nodes.items))
      // failure: there is no room anywhere, and nothing changes
      ensures region.x < 0 <==> forall x, y :: !Room(old(Outline()), x, y, w, h, width, height)
      ensures region.x < 0 ==> region == Region(-1, -1, 0, 0) && nodes.items == old(nodes.items)
                               && nodes.Contents() == old(nodes.Contents())
                               && regions == old(regions) && used == old(used)
      // success: the lowest row that has room, and exactly the columns below are raised
      ensures region.x >= 0 ==>
        && region == Region(region.x, region.y, w, h) && InBorder(region, width, height)
        && Room(old(Outline()), region.x, region.y, w, h, width, height)
        && (forall x, y :: Room(old(Outline()), x, y, w, h, width, height) ==> region.y <= y)
        && Outline() == Raise(old(Outline()), region.x, w, region.y + h)
        && regions == old(regions) + [region] && used == old(used) + w * h
      // of the level runs of columns that have room in this row the first of the narrowest is taken
      ensures region.x >= 0 ==>
        FirstNarrowest(old(Outline()), region.x, region.y, w, h, width, height)
    {
      hide Contiguous, NoRepeats, Heights, FitRow, Raise, Filled, Area, Chosen, Room, FirstNarrowest;
      ghost var ns, hs := nodes.Contents(), Outline();
      NodeCount(ns, 1);
      var bestIndex;
      bestIndex, region := FindNode(w, h);
      if bestIndex == -1 {
        region := Region(-1, -1, 0, 0);
        return;
      }
      ChosenRun(ns, bestIndex, w, h, width, height);
      LowestFits(hs, region.x, region.y, w, h, width, height);
      var node := Node(region.x, region.y + h, w);
      InsertAndShrink(bestIndex, node);
      Merge();
      used := used + w * h;
      regions := regions + [region];
      RegionPlaced(nodes.Contents(), hs, old(regions), region, width, height);
    }

    /** texture_atlas_set_region: one memcpy a row. */
    method SetRegion(x: int, y: int, w: nat, h: nat, src: seq<byte>, stride: nat)
      requires Shape()
      requires 0 < x < width - 1 && x + w <= width - 1 && 0 < y < height - 1 && y + h <= height - 1
      requires h == 0 || w > 0
      requires Upload(x, y, w, h, src, stride).Complete(depth)
      modifies data
      ensures var u := Upload(x, y, w, h, src, stride);
        forall r, q :: 0 <= r < height && 0 <= q < width * depth ==>
          && At(width * depth, r, q) < data.Length
          && data[At(width * depth, r, q)]
             == if u.Covers(depth, r, q) then u.Byte(depth, r, q) else old(data[At(width * depth, r, q)])
    {
      var u := Upload(x, y, w, h, src, stride);
      ghost var rowBytes := width * depth;
      assert data.Length == height * rowBytes;
      forall r, q | 0 <= r < height && 0 <= q < rowBytes ensures At(rowBytes, r, q) < data.Length {
        AtInside(rowBytes, height, r, q);
      }
      hide At;
      for i := 0 to h
        invariant forall r, q :: 0 <= r < height && 0 <= q < rowBytes ==>
          data[At(rowBytes, r, q)]
          == if u.Covers(depth, r, q) && r < y + i then u.Byte(depth, r, q) else old(data[At(rowBytes, r, q)])
      {
        CopyRow(u, i);
      }
    }

    /** memcpy of row i of a bitmap. */
    method CopyRow(u: Upload, i: nat)
      requires Shape() && i < u.h && u.Complete(depth)
      requires 0 < u.x && u.x + u.w <= width - 1 && 0 < u.y && u.y + u.h <= height - 1
      modifies data
      ensures forall r, q :: 0 <= r < height && 0 <= q < width * depth ==>
        && At(width * depth, r, q) < data.Length
        && data[At(width * depth, r, q)]
           == if u.Covers(depth, r, q) && r == u.y + i then u.Byte(depth, r, q)
              else old(data[At(width * depth, r, q)])
    {
      ghost var rowBytes := width * depth;
      ghost var was := data[..];
      var target, source, count := ((u.y + i) * width + u.x) * depth, i * u.stride, u.w * depth;
      RowTarget(u, i, width, height, depth);
      forall k | 0 <= k < count { data[target + k] := u.bytes[source + k]; }
      forall r, q | 0 <= r < height && 0 <= q < rowBytes
        ensures At(rowBytes, r, q) < data.Length
        ensures data[At(rowBytes, r, q)]
             == if u.Covers(depth, r, q) && r == u.y + i then u.Byte(depth, r, q) else was[At(rowBytes, r, q)]
      {
        RowTargetIs(u, i, width, height, depth, r, q);
      }
    }

    /** texture_atlas_clear. */
    method Clear()
      requires Valid()
      modifies this, nodes, nodes.items, data
      ensures Valid() && (nodes.items == old(nodes.items) || fresh(nodes.items))
      ensures used == 0 && regions == [] && Outline() == Repeat(1, width - 2)
      ensures forall i :: 0 <= i < data.Length ==> data[i] == 0
    {
      hide Heights, Contiguous, Filled, Within, NoRepeats, ValidNodes, Packed;
      var node := Node(1, 1, 1);
      nodes.Clear();
      used, regions := 0, [];
      node := node.(z := width - 2);
      nodes.PushBack(node);
      assert nodes.Contents() == [node];
      forall i | 0 <= i < data.Length { data[i] := 0; }
      Ground(node, width, height);
    }
  }

  lemma FitRowInside(hs: seq<int>, x: int, w: int, h: int, width: int, height: int)
    requires 0 < w && 0 < h && |hs| == width - 2 && Within(hs, height - 1)
    requires FitRow(hs, x, w, h, width, height) >= 0
    ensures InBorder(Region(x, FitRow(hs, x, w, h, width, height), w, h), width, height)
    ensures FitRow(hs, x, w, h, width, height) == Peak(hs, x - 1, w)
  {
    var at := PeakBounds(hs, x - 1, w);
  }

  ghost predicate NoneOf(ns: seq<Node>, upTo: nat, w: int, h: int, width: int, height: int)
    requires |Heights(ns)| == width - 2 && 0 < w && upTo <= |ns|
  {
    forall j :: 0 <= j < upTo ==> FitRow(Heights(ns), ns[j].x, w, h, width, height) < 0
  }

  /** What node i does to the choice b among the nodes before it. */
  lemma ChosenNext(ns: seq<Node>, i: nat, b: int, w: int, h: int, width: int, height: int)
    requires |Heights(ns)| == width - 2 && 0 < w && -1 <= b < i < |ns|
    requires if b == -1 then NoneOf(ns, i, w, h, width, height) else Chosen(ns, i, b, w, h, width, height)
    ensures var hs := Heights(ns);
      var y := FitRow(hs, ns[i].x, w, h, width, height);
      if b == -1 then
        if y < 0 then NoneOf(ns, i + 1, w, h, width, height) else Chosen(ns, i + 1, i, w, h, width, height)
      else
        var best := FitRow(hs, ns[b].x, w, h, width, height);
        if 0 <= y && (y < best || (y == best && ns[i].z < ns[b].z)) then
          Chosen(ns, i + 1, i, w, h, width, height)
        else Chosen(ns, i + 1, b, w, h, width, height)
  {
    hide FitRow, Heights;
  }

  lemma LowestFits(hs: seq<int>, x: int, y: int, w: int, h: int, width: int, height: int)
    requires 0 < w && 0 < h && |hs| == width - 2 && Within(hs, height - 1)
    requires LowestRoom(hs, x, y, w, h, width, height) && y == FitRow(hs, x, w, h, width, height)
    ensures !NoRoom(hs, w, h, width, height) && x >= 1
    ensures InBorder(Region(x, y, w, h), width, height) && y == Peak(hs, x - 1, w)
  {
    hide Room;
    RoomIff(hs, x, y, w, h, width, height);
    FitRowInside(hs, x, w, h, width, height);
  }

  /** What the search over node starts found holds for every column and row. */
  lemma EveryColumn(ns: seq<Node>, w: int, h: int, width: int, height: int, b: int)
    requires ValidNodes(ns, width, height) && 0 < w && -1 <= b < |ns|
    requires b == -1 ==> NoneOf(ns, |ns|, w, h, width, height)
    requires b >= 0 ==> Chosen(ns, |ns|, b, w, h, width, height)
    ensures b == -1 ==> NoRoom(Heights(ns), w, h, width, height)
    ensures b >= 0 ==>
      LowestRoom(Heights(ns), ns[b].x, FitRow(Heights(ns), ns[b].x, w, h, width, height), w, h, width, height)
  {
    hide FitRow, Heights, ValidNodes, Room;
    var hs := Heights(ns);
    forall x, y | Room(hs, x, y, w, h, width, height)
      ensures b >= 0 && FitRow(hs, ns[b].x, w, h, width, height) <= y
    {
      RoomIff(hs, x, y, w, h, width, height);
      var i := SlideLeft(ns, x, w, h, width, height);
    }
    if b >= 0 {
      var row := FitRow(hs, ns[b].x, w, h, width, height);
      FitRowFits(hs, ns[b].x, w, h, width, height);
      RoomIff(hs, ns[b].x, row, w, h, width, height);
    }
  }

  lemma FitRowFits(hs: seq<int>, x: int, w: int, h: int, width: int, height: int)
    requires 0 < w && |hs| == width - 2
    ensures FitRow(hs, x, w, h, width, height) >= 0 ==> FitRow(hs, x, w, h, width, height) + h <= height - 1
  {
  }

  lemma RegionPlaced(ns: seq<Node>, hs: seq<int>, regions: seq<Region>, r: Region, width: int, height: int)
    requires Packed(hs, regions, width, height) && InBorder(r, width, height)
    requires r.y == Peak(hs, r.x - 1, r.width) && Area(regions) <= Filled(hs)
    requires ns != [] && Contiguous(ns, 1) && NoRepeats(ns)
    requires Heights(ns) == Raise(hs, r.x, r.width, r.y + r.height)
    ensures ValidNodes(ns, width, height) && Packed(Heights(ns), regions + [r], width, height)
    ensures Area(regions + [r]) == Area(regions) + r.width * r.height <= Filled(Heights(ns))
  {
    hide Contiguous, NoRepeats, Heights, Raise, Peak, Filled, Area, Below, Disjoint;
    PackedRaise(hs, regions, width, height, r);
    var at := PeakBounds(hs, r.x - 1, r.width);
    FilledRaise(hs, r.x, r.width, r.y, r.height);
    AreaMore(regions, r);
  }

  lemma AreaMore(regions: seq<Region>, r: Region)
    ensures Area(regions + [r]) == Area(regions) + r.width * r.height
  {
    assert (regions + [r])[..|regions|] == regions;
  }

  lemma Joined(ns: seq<Node>, i: nat, node: Node)
    requires i + 1 < |ns|
    ensures var set' := ns[i := node];
      set'[..i + 1] + set'[i + 2..] == ns[..i] + [node] + ns[i + 2..]
  {
  }

  lemma Inserted(ns: seq<Node>, best: nat, node: Node, all: seq<Node>)
    requires best <= |ns| && all == ns[..best] + [node] + ns[best..]
    ensures all[best + 1..] == ns[best..] && all[..best + 1] == ns[..best] + [node] && all[best] == node
  {
  }

  lemma ReplacedIn(all: seq<Node>, i: nat, head: seq<Node>, node: Node, hs: seq<int>, start: int)
    requires i <= |all| && all[..i] == head + [node] && Contiguous(head, 1) && 1 <= node.x && 0 < node.z
    requires node.x - 1 + node.z <= |hs| && Heights(head) == hs[..node.x - 1]
    requires Rest(all[i..], hs, start) && start <= node.x + node.z
    requires i < |all| ==> all[i].x >= node.x + node.z
    ensures Contiguous(all, 1) && Heights(all) == Raise(hs, node.x, node.z, node.y)
  {
    RestStart(all[i..], hs, start);
    assert all == head + [node] + all[i..];
    Replaced(head, node, all[i..], hs);
  }

  lemma RestStart(rest: seq<Node>, hs: seq<int>, x: int)
    requires Rest(rest, hs, x)
    ensures x >= 1
    ensures if rest == [] then x == |hs| + 1 else rest[0].x == x && rest[0].z > 0
  {
  }
}
