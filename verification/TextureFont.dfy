/** Glyph lookup and the allocation and upload part of external/freetype-gl/texture-font.c. */
module TextureFont {
  import opened Bytes
  import opened Vectors
  import opened Skyline
  import opened TextureAtlas

  /** (uint32_t) -1, the codepoint whose outline attributes do not matter. */
  const NO_CODEPOINT := 0xffff_ffff

  datatype RenderMode = Normal | OutlineEdge | OutlinePositive | OutlineNegative | SignedDistanceField

  datatype Glyph = Glyph(codepoint: nat, width: nat, height: nat, rendermode: RenderMode, thickness: real,
                         offsetX: int, offsetY: int, s0: real, t0: real, s1: real, t1: real)

  /** What FreeType returns for a codepoint: an error while loading it, an error while stroking
      it, or a bitmap whose width counts bytes. */
  datatype Loaded =
    | LoadError
    | StrokeError
    | Bitmap(width: nat, rows: nat, pitch: nat, buffer: seq<byte>, left: int, top: int)

  datatype Request = Request(codepoint: nat, loaded: Loaded)

  // ---- what is visible in the atlas ----

  /** The byte the uploads leave at byte q of row r in an image of zeros: the last upload that
      covers it wins. */
  ghost function Painted(uploads: seq<Upload>, depth: int, r: nat, q: nat): byte
    requires forall u <- uploads :: u.Complete(depth)
  {
    if uploads == [] then 0
    else
      var last := uploads[|uploads| - 1];
      if last.Covers(depth, r, q) then last.Byte(depth, r, q)
      else Painted(uploads[..|uploads| - 1], depth, r, q)
  }

  /** The allocated region of an upload has one more column and one more row. */
  function Padded(u: Upload): Region {
    Region(u.x, u.y, u.w + 1, u.h + 1)
  }

  ghost predicate Apart(uploads: seq<Upload>) {
    forall i, j :: 0 <= i < j < |uploads| ==> Disjoint(Padded(uploads[i]), Padded(uploads[j]))
  }

  /** Byte q of row r belongs to the padded region. */
  predicate InPadded(u: Upload, depth: int, r: nat, q: nat) {
    u.y <= r < u.y + u.h + 1 && u.x * depth <= q < (u.x + u.w + 1) * depth
  }

  lemma OthersAway(u: Upload, v: Upload, depth: int, r: nat, q: nat)
    requires depth in {1, 3, 4} && Disjoint(Padded(u), Padded(v)) && InPadded(u, depth, r, q)
    ensures !v.Covers(depth, r, q)
  {
  }

  /** Isolation: after any sequence of uploads with disjoint padded regions, each bitmap is still
      there, and its extra column and row are still zero. */
  lemma {:induction false} Isolated(uploads: seq<Upload>, depth: int, i: nat, r: nat, q: nat)
    requires forall u <- uploads :: u.Complete(depth)
    requires depth in {1, 3, 4} && Apart(uploads) && i < |uploads| && InPadded(uploads[i], depth, r, q)
    ensures Painted(uploads, depth, r, q)
         == if uploads[i].Covers(depth, r, q) then uploads[i].Byte(depth, r, q) else 0
  {
    var n := |uploads| - 1;
    var before, last := uploads[..n], uploads[n];
    if i < n {
      OthersAway(uploads[i], last, depth, r, q);
      Isolated(before, depth, i, r, q);
    } else if !last.Covers(depth, r, q) {
      NothingThere(before, last, depth, r, q);
    }
  }

  lemma {:induction false} NothingThere(uploads: seq<Upload>, u: Upload, depth: int, r: nat, q: nat)
    requires forall v <- uploads :: v.Complete(depth) && Disjoint(Padded(v), Padded(u))
    requires depth in {1, 3, 4} && InPadded(u, depth, r, q)
    ensures Painted(uploads, depth, r, q) == 0
  {
    if uploads != [] {
      OthersAway(u, uploads[|uploads| - 1], depth, r, q);
      NothingThere(uploads[..|uploads| - 1], u, depth, r, q);
    }
  }

  /** Two bitmaps are separated by at least one column or one row. */
  lemma Separated(uploads: seq<Upload>, i: nat, j: nat)
    requires Apart(uploads) && i < j < |uploads|
    ensures var u, v := uploads[i], uploads[j];
      || u.x + u.w < v.x || v.x + v.w < u.x || u.y + u.h < v.y || v.y + v.h < u.y
  {
  }

  /** The size and the texture coordinates of a glyph are those of its upload. */
  predicate Describes(g: Glyph, u: Upload, width: int, height: int)
    requires width > 0 && height > 0
  {
    && g.width == u.w && g.height == u.h
    && g.s0 == u.x as real / width as real && g.t0 == u.y as real / height as real
    && g.s1 == (u.x + u.w) as real / width as real && g.t1 == (u.y + u.h) as real / height as real
  }

  /** The image is what the uploads paint. */
  ghost predicate Shows(data: seq<byte>, uploads: seq<Upload>, width: int, height: int, depth: int)
    requires width >= 0 && depth >= 0 && forall u <- uploads :: u.Complete(depth)
  {
    forall r, q :: 0 <= r < height && 0 <= q < width * depth ==>
      At(width * depth, r, q) < |data| && data[At(width * depth, r, q)] == Painted(uploads, depth, r, q)
  }

  /** The regions of the atlas are the padded uploads, the image shows them. */
  ghost predicate Hosts(regions: seq<Region>, data: seq<byte>, uploads: seq<Upload>,
                        width: int, height: int, depth: int)
  {
    && width >= 0 && depth >= 0 && (forall u <- uploads :: u.Complete(depth))
    && |regions| == |uploads| && (forall i :: 0 <= i < |uploads| ==> regions[i] == Padded(uploads[i]))
    && Shows(data, uploads, width, height, depth)
  }

  lemma HostsNothing(data: seq<byte>, width: nat, height: nat, depth: nat)
    requires |data| == width * height * depth && forall i :: 0 <= i < |data| ==> data[i] == 0
    ensures Hosts([], data, [], width, height, depth)
  {
    DataLength(width, height, depth);
    forall r, q | 0 <= r < height && 0 <= q < width * depth ensures At(width * depth, r, q) < |data| {
      AtInside(width * depth, height, r, q);
    }
  }

  lemma HostsOneMore(regions: seq<Region>, data: seq<byte>, data': seq<byte>, uploads: seq<Upload>, u: Upload,
                     width: nat, height: nat, depth: nat)
    requires Hosts(regions, data, uploads, width, height, depth) && u.Complete(depth)
    requires forall r, q :: 0 <= r < height && 0 <= q < width * depth ==>
      At(width * depth, r, q) < |data'| && At(width * depth, r, q) < |data|
      && data'[At(width * depth, r, q)]
         == if u.Covers(depth, r, q) then u.Byte(depth, r, q) else data[At(width * depth, r, q)]
    ensures Hosts(regions + [Padded(u)], data', uploads + [u], width, height, depth)
  {
    hide At;
    assert (uploads + [u])[..|uploads|] == uploads;
  }

  // ---- lookup ----

  predicate Matches(g: Glyph, codepoint: nat, mode: RenderMode, thickness: real) {
    g.codepoint == codepoint
    && (codepoint == NO_CODEPOINT || (g.rendermode == mode && g.thickness == thickness))
  }

  /** No glyph is hidden by an earlier one with the same key. */
  ghost predicate Distinct(glyphs: seq<Glyph>) {
    forall i, j :: 0 <= i < j < |glyphs| ==>
      !Matches(glyphs[i], glyphs[j].codepoint, glyphs[j].rendermode, glyphs[j].thickness)
  }

  ghost predicate Found(glyphs: seq<Glyph>, codepoint: nat, mode: RenderMode, thickness: real) {
    exists g <- glyphs :: Matches(g, codepoint, mode, thickness)
  }

  /** The bitmap fields satisfy what texture_atlas_set_region asserts and reads. */
  ghost predicate Usable(loaded: Loaded, depth: int) {
    loaded.Bitmap? ==>
      && depth > 0 && (loaded.rows > 0 ==> loaded.width / depth > 0)
      && Upload(1, 1, loaded.width / depth, loaded.rows, loaded.buffer, loaded.pitch).Complete(depth)
  }

  // ---- fonts that share an atlas ----

  /** Upload number places[i] is that of glyph i, and glyphs come in the order of their uploads. */
  ghost predicate Placed(glyphs: seq<Glyph>, places: seq<nat>, uploads: seq<Upload>, width: int, height: int) {
    && width > 0 && height > 0 && |glyphs| == |places|
    && (forall i :: 0 <= i < |places| ==>
          places[i] < |uploads| && Describes(glyphs[i], uploads[places[i]], width, height))
    && (forall i, j :: 0 <= i < j < |places| ==> places[i] < places[j])
  }

  lemma NothingPlaced(uploads: seq<Upload>, width: int, height: int)
    requires width > 0 && height > 0
    ensures Placed([], [], uploads, width, height)
  {
  }

  lemma PlacedStays(glyphs: seq<Glyph>, places: seq<nat>, uploads: seq<Upload>, more: seq<Upload>,
                    width: int, height: int)
    requires Placed(glyphs, places, uploads, width, height) && uploads <= more
    ensures Placed(glyphs, places, more, width, height) && |uploads| !in places
  {
    hide Describes;
  }

  lemma PlacedMore(glyphs: seq<Glyph>, places: seq<nat>, uploads: seq<Upload>, g: Glyph, last: nat,
                   width: int, height: int)
    requires Placed(glyphs, places, uploads, width, height) && last < |uploads|
    requires Describes(g, uploads[last], width, height) && forall p :: p in places ==> p < last
    ensures Placed(glyphs + [g], places + [last], uploads, width, height)
  {
    hide Describes;
    forall i | 0 <= i < |places| ensures places[i] < last { assert places[i] in places; }
  }

  lemma PlacesBelow(glyphs: seq<Glyph>, places: seq<nat>, uploads: seq<Upload>, width: int, height: int)
    requires Placed(glyphs, places, uploads, width, height) && uploads != [] && |uploads| - 1 !in places
    ensures forall p :: p in places ==> p < |uploads| - 1
  {
    hide Describes;
  }

  /** An atlas, with what was uploaded into it and the fonts that load their glyphs there, such as
      the sizes of one face. */
  class SharedAtlas {
    const atlas: Atlas
    ghost var uploads: seq<Upload>
    ghost var fonts: set<Font>

    /** The atlas holds the uploads and nothing else. */
    ghost predicate Hosted()
      reads this`uploads, atlas, atlas.nodes, atlas.nodes.items, atlas.data
      ensures Hosted() ==> atlas.Valid()
    {
      && atlas.Valid()
      && Hosts(atlas.regions, atlas.data[..], uploads, atlas.width, atlas.height, atlas.depth)
    }

    /** Two fonts share neither storage nor uploads. */
    ghost predicate Separate(f: Font, g: Font)
      reads f, g, f.glyphs, g.glyphs
    {
      && f.glyphs != g.glyphs && f.glyphs.items != g.glyphs.items
      && forall p :: p in f.places ==> p !in g.places
    }

    /** Every glyph of every font is in the atlas. */
    ghost predicate Valid()
      reads this, atlas, atlas.nodes, atlas.nodes.items, atlas.data
      reads fonts, set f | f in fonts :: f.glyphs, set f | f in fonts :: f.glyphs.items
    {
      && Hosted()
      && (forall f :: f in fonts ==> f.shared == this && f.Kept(uploads))
      && (forall f, g :: f in fonts && g in fonts && f != g ==> Separate(f, g))
    }

    constructor (atlas: Atlas)
      requires atlas.Valid() && atlas.regions == []
      requires forall i :: 0 <= i < atlas.data.Length ==> atlas.data[i] == 0
      ensures Valid() && this.atlas == atlas && uploads == [] && fonts == {}
    {
      hide Hosts;
      HostsNothing(atlas.data[..], atlas.width, atlas.height, atlas.depth);
      this.atlas := atlas;
      uploads, fonts := [], {};
    }

    /** Allocation and upload of one bitmap; x < 0 when the atlas is full. No font notices. */
    method Place(w: nat, h: nat, buffer: seq<byte>, pitch: nat) returns (x: int, y: int)
      requires Valid() && (h > 0 ==> w > 0) && Upload(1, 1, w, h, buffer, pitch).Complete(atlas.depth)
      modifies this`uploads, atlas, atlas.nodes, atlas.nodes.items, atlas.data
      ensures Valid() && (atlas.nodes.items == old(atlas.nodes.items) || fresh(atlas.nodes.items))
      ensures x < 0 ==>
        uploads == old(uploads) && NoRoom(old(atlas.Outline()), w + 1, h + 1, atlas.width, atlas.height)
      ensures x >= 0 ==>
        && uploads == old(uploads) + [Upload(x, y, w, h, buffer, pitch)]
        && forall f :: f in fonts ==> |old(uploads)| !in f.places
    {
      hide Hosts, NoRoom, Room, Raise, Heights, FirstNarrowest, Packed, ValidNodes, FitRow, Area, Filled, Placed,
           Distinct, Separate, Font.Kept;
      ghost var was, before := atlas.data[..], uploads;
      ghost var outline := atlas.Outline();
      OutlineLength(atlas);
      var region := atlas.GetRegion(w + 1, h + 1);
      x, y := region.x, region.y;
      assert atlas.data[..] == was;
      if x < 0 {
        NowhereRoom(outline, w + 1, h + 1, atlas.width, atlas.height);
      } else {
        atlas.SetRegion(x, y, w, h, buffer, pitch);
        ghost var u := Upload(x, y, w, h, buffer, pitch);
        HostsOneMore(old(atlas.regions), was, atlas.data[..], uploads, u, atlas.width, atlas.height, atlas.depth);
        uploads := before + [u];
        forall f | f in fonts ensures f.Kept(uploads) && |before| !in f.places {
          assert old(f.Kept(before));
          KeptParts(f, before);
          PlacedStays(f.glyphs.Contents(), f.places, before, uploads, atlas.width, atlas.height);
          KeptWhole(f, uploads);
        }
      }
    }

    /** texture_atlas_clear while fonts use the atlas: of them only those without glyphs are still
        right about it. */
    method Clear()
      requires Valid()
      modifies this`uploads, this`fonts, atlas, atlas.nodes, atlas.nodes.items, atlas.data
      ensures Valid() && uploads == [] && atlas.regions == [] && atlas.used == 0
      ensures forall f :: f in old(fonts) ==> (f.Kept(uploads) <==> f.glyphs.size == 0)
      ensures fonts == set f | f in old(fonts) && f.glyphs.size == 0
    {
      hide Hosts, Packed, ValidNodes, Heights, Area, Filled, Separate, Placed, Distinct;
      forall f | f in fonts ensures f.Kept([]) <==> f.glyphs.size == 0 { KeptByNothing(f, uploads); }
      atlas.Clear();
      HostsNothing(atlas.data[..], atlas.width, atlas.height, atlas.depth);
      uploads := [];
      fonts := set f | f in fonts && f.glyphs.size == 0;
    }
  }

  /** What became of a request: the glyph was there, was added, or found no room in an atlas with
      the given outline. */
  datatype Step = Present | Added | Full(outline: seq<int>)

  function Fulls(steps: seq<Step>): nat {
    if steps == [] then 0 else Fulls(steps[..|steps| - 1]) + if steps[|steps| - 1].Full? then 1 else 0
  }

  function Addeds(steps: seq<Step>): nat {
    if steps == [] then 0 else Addeds(steps[..|steps| - 1]) + if steps[|steps| - 1].Added? then 1 else 0
  }

  lemma OneStep(steps: seq<Step>, step: Step)
    ensures Fulls(steps + [step]) == Fulls(steps) + if step.Full? then 1 else 0
    ensures Addeds(steps + [step]) == Addeds(steps) + if step.Added? then 1 else 0
  {
    assert (steps + [step])[..|steps|] == steps;
  }

  /** The step is what happened to the request. */
  ghost predicate Explains(step: Step, q: Request, glyphs: seq<Glyph>, mode: RenderMode, thickness: real,
                           width: int, height: int, depth: int)
  {
    if step.Full? then
      && q.loaded.Bitmap? && depth > 0 && |step.outline| == width - 2
      && NoRoom(step.outline, q.loaded.width / depth + 1, q.loaded.rows + 1, width, height)
    else Found(glyphs, q.codepoint, mode, thickness)
  }

  class Font {
    const shared: SharedAtlas
    const glyphs: Vector<Glyph>
    var rendermode: RenderMode
    var thickness: real
    ghost var places: seq<nat>

    /** Each glyph has its upload, and no glyph is hidden by an earlier one. */
    ghost predicate Kept(uploads: seq<Upload>)
      reads this, glyphs, glyphs.items
      ensures Kept(uploads) ==> glyphs.Valid()
    {
      && glyphs.Valid() && Distinct(glyphs.Contents())
      && Placed(glyphs.Contents(), places, uploads, shared.atlas.width, shared.atlas.height)
    }

    /** One more font for the atlas, whatever other fonts have loaded there. */
    constructor (shared: SharedAtlas, rendermode: RenderMode, thickness: real)
      requires shared.Valid()
      modifies shared`fonts
      ensures shared.Valid() && shared.fonts == old(shared.fonts) + {this}
      ensures this.shared == shared && glyphs.size == 0 && fresh(glyphs) && fresh(glyphs.items)
      ensures this.rendermode == rendermode && this.thickness == thickness
    {
      this.shared, this.rendermode, this.thickness := shared, rendermode, thickness;
      glyphs := new Vector<Glyph>();
      places := [];
      new;
      hide Placed, SharedAtlas.Hosted, SharedAtlas.Separate, Kept;
      NothingPlaced(shared.uploads, shared.atlas.width, shared.atlas.height);
      KeptWhole(this, shared.uploads);
      forall f | f in shared.fonts ensures shared.Separate(this, f) && shared.Separate(f, this) {
        SeparateWhole(shared, this, f);
      }
      shared.fonts := shared.fonts + {this};
    }

    /** texture_font_find_glyph: the first match. */
    method FindGlyph(codepoint: nat) returns (index: int)
      requires glyphs.Valid()
      ensures -1 <= index < glyphs.size
      ensures index >= 0 ==>
        var g := glyphs.Contents()[index];
        && g.codepoint == codepoint
        && (codepoint == 0xffff_ffff || (g.rendermode == rendermode && g.thickness == thickness))
      ensures forall i :: 0 <= i < (if index < 0 then glyphs.size else index) ==>
        var g := glyphs.Contents()[i];
        || g.codepoint != codepoint
        || (codepoint != 0xffff_ffff && (g.rendermode != rendermode || g.thickness != thickness))
      ensures index >= 0 <==> Found(glyphs.Contents(), codepoint, rendermode, thickness)
    {
      for i := 0 to glyphs.size
        invariant forall k :: 0 <= k < i ==> !Matches(glyphs.Contents()[k], codepoint, rendermode, thickness)
      {
        var glyph := glyphs.Get(i);
        if glyph.codepoint == codepoint
           && (codepoint == NO_CODEPOINT || (glyph.rendermode == rendermode && glyph.thickness == thickness)) {
          assert glyph in glyphs.Contents();
          return i;
        }
      }
      index := -1;
    }

    /** vector_push_back of a glyph for the last upload. */
    method Append(glyph: Glyph)
      requires shared.Valid() && this in shared.fonts && shared.uploads != []
      requires forall f :: f in shared.fonts ==> |shared.uploads| - 1 !in f.places
      requires glyph.rendermode == rendermode && glyph.thickness == thickness
      requires !Found(glyphs.Contents(), glyph.codepoint, rendermode, thickness)
      requires shared.atlas.width > 0 && shared.atlas.height > 0
      requires Describes(glyph, shared.uploads[|shared.uploads| - 1], shared.atlas.width, shared.atlas.height)
      modifies this`places, glyphs, glyphs.items
      ensures shared.Valid() && (glyphs.items == old(glyphs.items) || fresh(glyphs.items))
      ensures glyphs.Contents() == old(glyphs.Contents()) + [glyph]
      ensures places == old(places) + [|shared.uploads| - 1]
    {
      hide Placed, Distinct, Found, Describes, SharedAtlas.Hosted, SharedAtlas.Separate, Kept;
      ghost var last, before := |shared.uploads| - 1, glyphs.Contents();
      assert Kept(shared.uploads);
      KeptParts(this, shared.uploads);
      forall f | f in shared.fonts && f != this { SeparateParts(shared, this, f); }
      PlacesBelow(before, places, shared.uploads, shared.atlas.width, shared.atlas.height);
      PlacedMore(before, places, shared.uploads, glyph, last, shared.atlas.width, shared.atlas.height);
      DistinctMore(before, glyph, glyph.codepoint, rendermode, thickness);
      glyphs.PushBack(glyph);
      places := places + [last];
      KeptWhole(this, shared.uploads);
      forall f | f in shared.fonts && f != this ensures shared.Separate(this, f) && shared.Separate(f, this) {
        SeparateWhole(shared, this, f);
      }
    }

    /** A glyph for one bitmap; false when the atlas is full. The other fonts keep theirs. */
    method AddGlyph(codepoint: nat, bitmap: Loaded) returns (added: bool)
      requires shared.Valid() && this in shared.fonts && bitmap.Bitmap? && Usable(bitmap, shared.atlas.depth)
      requires !Found(glyphs.Contents(), codepoint, rendermode, thickness)
      modifies this`places, shared`uploads
      modifies shared.atlas, shared.atlas.nodes, shared.atlas.nodes.items, shared.atlas.data, glyphs, glyphs.items
      ensures shared.Valid()
      ensures shared.atlas.nodes.items == old(shared.atlas.nodes.items) || fresh(shared.atlas.nodes.items)
      ensures glyphs.items == old(glyphs.items) || fresh(glyphs.items)
      ensures !added ==>
        && glyphs.Contents() == old(glyphs.Contents()) && places == old(places) && shared.uploads == old(shared.uploads)
        && NoRoom(old(shared.atlas.Outline()), bitmap.width / shared.atlas.depth + 1, bitmap.rows + 1,
                  shared.atlas.width, shared.atlas.height)
      ensures added ==>
        exists g, u :: glyphs.Contents() == old(glyphs.Contents()) + [g]
          && shared.uploads == old(shared.uploads) + [u] && places == old(places) + [|old(shared.uploads)|]
          && Matches(g, codepoint, rendermode, thickness) && g.offsetX == bitmap.left && g.offsetY == bitmap.top
          && u == Upload(u.x, u.y, bitmap.width / shared.atlas.depth, bitmap.rows, bitmap.buffer, bitmap.pitch)
    {
      hide Hosts, NoRoom, Packed, ValidNodes, Area, Filled, Placed, Distinct, Found, SharedAtlas.Valid;
      var atlas := shared.atlas;
      HostedIn(shared, this);
      var width, height, depth := atlas.width, atlas.height, atlas.depth;
      var w, h := bitmap.width / depth, bitmap.rows;
      var x, y := shared.Place(w, h, bitmap.buffer, bitmap.pitch);
      if x < 0 { return false; }
      var glyph := Glyph(codepoint, w, h, rendermode, thickness, bitmap.left, bitmap.top,
                         x as real / width as real, y as real / height as real,
                         (x + w) as real / width as real, (y + h) as real / height as real);
      Append(glyph);
      added := true;
    }

    /** A request for a glyph that is not there and that FreeType delivers. */
    method LoadGlyph(q: Request) returns (full: bool, ghost step: Step)
      requires shared.Valid() && this in shared.fonts && glyphs.Valid() && Usable(q.loaded, shared.atlas.depth)
      requires q.loaded.Bitmap? && !Found(glyphs.Contents(), q.codepoint, rendermode, thickness)
      modifies this`places, shared`uploads
      modifies shared.atlas, shared.atlas.nodes, shared.atlas.nodes.items, shared.atlas.data, glyphs, glyphs.items
      ensures shared.Valid() && glyphs.Valid()
      ensures shared.atlas.nodes.items == old(shared.atlas.nodes.items) || fresh(shared.atlas.nodes.items)
      ensures glyphs.items == old(glyphs.items) || fresh(glyphs.items)
      ensures old(glyphs.Contents()) <= glyphs.Contents() && old(places) <= places
      ensures old(shared.uploads) <= shared.uploads
      ensures glyphs.size == old(glyphs.size) + (if step.Added? then 1 else 0) && full == step.Full?
      ensures Explains(step, q, glyphs.Contents(), rendermode, thickness,
                       shared.atlas.width, shared.atlas.height, shared.atlas.depth)
    {
      hide SharedAtlas.Valid, NoRoom, Usable, Found, Explains, Matches;
      HostedIn(shared, this);
      ghost var outline, before := shared.atlas.Outline(), glyphs.Contents();
      OutlineLength(shared.atlas);
      var added := AddGlyph(q.codepoint, q.loaded);
      HostedIn(shared, this);
      full, step := !added, if added then Added else Full(outline);
      if added { FoundLast(before, glyphs.Contents(), q.codepoint, rendermode, thickness); }
      ExplainsThis(step, q, glyphs.Contents(), rendermode, thickness,
                   shared.atlas.width, shared.atlas.height, shared.atlas.depth);
    }

    /** texture_font_load_glyphs for the codepoints HarfBuzz returned; `steps` tells what became of
        the requests up to an error. Without an error the result is the number of glyphs the atlas
        had no room for. After an error while loading it is the number of requests that are left,
        after one while stroking it is 0. Every font of the atlas keeps its glyphs. */
    method LoadGlyphs(requests: seq<Request>) returns (missed: nat, ghost steps: seq<Step>)
      requires shared.Valid() && this in shared.fonts
      requires forall q <- requests :: Usable(q.loaded, shared.atlas.depth)
      requires forall q <- requests :: q.loaded.StrokeError? ==> !rendermode.Normal?
      modifies this`places, shared`uploads
      modifies shared.atlas, shared.atlas.nodes, shared.atlas.nodes.items, shared.atlas.data, glyphs, glyphs.items
      ensures shared.Valid() && glyphs.Valid()
      ensures old(glyphs.Contents()) <= glyphs.Contents() && old(places) <= places
      ensures old(shared.uploads) <= shared.uploads
      ensures |steps| <= |requests| && glyphs.size == old(glyphs.size) + Addeds(steps)
      ensures AllExplained(steps, requests, glyphs.Contents(), rendermode, thickness,
                           shared.atlas.width, shared.atlas.height, shared.atlas.depth)
      ensures missed
        == if |steps| == |requests| then Fulls(steps)
           else if requests[|steps|].loaded.LoadError? then |requests| - |steps|
           else 0
      ensures forall f :: f in shared.fonts && f != this ==>
        && f.places == old(f.places) && f.glyphs.Valid() && old(f.glyphs.Valid())
        && f.glyphs.Contents() == old(f.glyphs.Contents())
      ensures |steps| < |requests| ==>
        && !requests[|steps|].loaded.Bitmap?
        && !Found(glyphs.Contents(), requests[|steps|].codepoint, rendermode, thickness)
    {
      hide SharedAtlas.Valid, NoRoom, Usable, Fulls, Addeds, Found, Explains, AllExplained;
      missed, steps := 0, [];
      HostedIn(shared, this);
      forall f | f in shared.fonts && f != this
        ensures f.glyphs.Valid() && f.glyphs != glyphs && f.glyphs.items != glyphs.items
      {
        OtherFont(shared, this, f);
      }
      NoSteps(requests, glyphs.Contents(), rendermode, thickness,
              shared.atlas.width, shared.atlas.height, shared.atlas.depth);
      for i := 0 to |requests|
        invariant shared.Valid() && glyphs.Valid() && |steps| == i
        invariant shared.atlas.nodes.items == old(shared.atlas.nodes.items) || fresh(shared.atlas.nodes.items)
        invariant glyphs.items == old(glyphs.items) || fresh(glyphs.items)
        invariant old(glyphs.Contents()) <= glyphs.Contents() && old(places) <= places
        invariant old(shared.uploads) <= shared.uploads
        invariant glyphs.size == old(glyphs.size) + Addeds(steps) && missed == Fulls(steps)
        invariant AllExplained(steps, requests, glyphs.Contents(), rendermode, thickness,
                               shared.atlas.width, shared.atlas.height, shared.atlas.depth)
      {
        var q := requests[i];
        var index := FindGlyph(q.codepoint);
        ghost var before, step := glyphs.Contents(), Present;
        if index < 0 {
          if q.loaded.LoadError? { return |requests| - i, steps; }
          if q.loaded.StrokeError? { return 0, steps; }
          var full;
          full, step := LoadGlyph(q);
          if full { missed := missed + 1; }
        } else {
          ExplainsThis(step, q, before, rendermode, thickness,
                       shared.atlas.width, shared.atlas.height, shared.atlas.depth);
        }
        ExplainedMore(steps, step, requests, before, glyphs.Contents(), rendermode, thickness,
                      shared.atlas.width, shared.atlas.height, shared.atlas.depth);
        OneStep(steps, step);
        steps := steps + [step];
      }
    }
  }

  ghost predicate AllExplained(steps: seq<Step>, requests: seq<Request>, glyphs: seq<Glyph>, mode: RenderMode,
                               thickness: real, width: int, height: int, depth: int)
  {
    && |steps| <= |requests|
    && forall k :: 0 <= k < |steps| ==>
         Explains(steps[k], requests[k], glyphs, mode, thickness, width, height, depth)
  }

  lemma ExplainedMore(steps: seq<Step>, step: Step, requests: seq<Request>, before: seq<Glyph>, after: seq<Glyph>,
                      mode: RenderMode, thickness: real, width: int, height: int, depth: int)
    requires AllExplained(steps, requests, before, mode, thickness, width, height, depth) && before <= after
    requires |steps| < |requests|
    requires Explains(step, requests[|steps|], after, mode, thickness, width, height, depth)
    ensures AllExplained(steps + [step], requests, after, mode, thickness, width, height, depth)
  {
    hide Explains;
    forall k | 0 <= k < |steps| ensures Explains(steps[k], requests[k], after, mode, thickness, width, height, depth) {
      ExplainsStill(steps[k], requests[k], before, after, mode, thickness, width, height, depth);
    }
  }

  lemma NoSteps(requests: seq<Request>, glyphs: seq<Glyph>, mode: RenderMode, thickness: real,
                width: int, height: int, depth: int)
    ensures Fulls([]) == 0 && Addeds([]) == 0
    ensures AllExplained([], requests, glyphs, mode, thickness, width, height, depth)
  {
  }

  lemma OutlineLength(atlas: Atlas)
    requires atlas.Valid()
    ensures |atlas.Outline()| == atlas.width - 2
  {
  }

  lemma FoundLast(before: seq<Glyph>, after: seq<Glyph>, codepoint: nat, mode: RenderMode, thickness: real)
    requires exists g :: after == before + [g] && Matches(g, codepoint, mode, thickness)
    ensures Found(after, codepoint, mode, thickness)
  {
    assert after[|before|] in after;
  }

  lemma ExplainsThis(step: Step, q: Request, glyphs: seq<Glyph>, mode: RenderMode, thickness: real,
                     width: int, height: int, depth: int)
    requires if step.Full? then
               && q.loaded.Bitmap? && depth > 0 && |step.outline| == width - 2
               && NoRoom(step.outline, q.loaded.width / depth + 1, q.loaded.rows + 1, width, height)
             else Found(glyphs, q.codepoint, mode, thickness)
    ensures Explains(step, q, glyphs, mode, thickness, width, height, depth)
  {
  }

  lemma ExplainsStill(step: Step, q: Request, before: seq<Glyph>, after: seq<Glyph>, mode: RenderMode,
                      thickness: real, width: int, height: int, depth: int)
    requires Explains(step, q, before, mode, thickness, width, height, depth) && before <= after
    ensures Explains(step, q, after, mode, thickness, width, height, depth)
  {
    hide NoRoom, Matches;
    if !step.Full? {
      var g :| g in before && Matches(g, q.codepoint, mode, thickness);
      assert g in after;
    }
  }

  lemma KeptParts(f: Font, uploads: seq<Upload>)
    requires f.Kept(uploads)
    ensures f.glyphs.Valid() && Distinct(f.glyphs.Contents())
    ensures Placed(f.glyphs.Contents(), f.places, uploads, f.shared.atlas.width, f.shared.atlas.height)
  {
  }

  lemma KeptWhole(f: Font, uploads: seq<Upload>)
    requires f.glyphs.Valid() && Distinct(f.glyphs.Contents())
    requires Placed(f.glyphs.Contents(), f.places, uploads, f.shared.atlas.width, f.shared.atlas.height)
    ensures f.Kept(uploads)
  {
  }

  /** On an empty atlas only a font without glyphs is right. */
  lemma KeptByNothing(f: Font, uploads: seq<Upload>)
    requires f.Kept(uploads)
    ensures f.Kept([]) <==> f.glyphs.size == 0
  {
    hide Describes;
    KeptParts(f, uploads);
    if f.glyphs.size == 0 {
      assert f.glyphs.Contents() == [] && f.places == [];
    }
    if f.Kept([]) {
      KeptParts(f, []);
      PlacedSomewhere(f.glyphs.Contents(), f.places, [], f.shared.atlas.width, f.shared.atlas.height);
    }
  }

  lemma PlacedSomewhere(glyphs: seq<Glyph>, places: seq<nat>, uploads: seq<Upload>, width: int, height: int)
    requires Placed(glyphs, places, uploads, width, height)
    ensures glyphs != [] ==> uploads != []
  {
    hide Describes;
    if glyphs != [] { assert places[0] < |uploads|; }
  }

  lemma SeparateParts(shared: SharedAtlas, f: Font, g: Font)
    requires shared.Separate(f, g)
    ensures f.glyphs != g.glyphs && f.glyphs.items != g.glyphs.items && forall p :: p in f.places ==> p !in g.places
  {
  }

  lemma SeparateWhole(shared: SharedAtlas, f: Font, g: Font)
    requires f.glyphs != g.glyphs && f.glyphs.items != g.glyphs.items
    requires forall p :: p in f.places ==> p !in g.places
    ensures shared.Separate(f, g) && shared.Separate(g, f)
  {
  }

  lemma OtherFont(shared: SharedAtlas, font: Font, f: Font)
    requires shared.Valid() && font in shared.fonts && f in shared.fonts && f != font
    ensures f.glyphs.Valid() && f.glyphs != font.glyphs && f.glyphs.items != font.glyphs.items
  {
    assert shared.Separate(f, font) && f.Kept(shared.uploads);
  }

  lemma HostedIn(shared: SharedAtlas, font: Font)
    requires shared.Valid() && font in shared.fonts
    ensures font.glyphs.Valid() && shared.atlas.width > 0 && shared.atlas.height > 0 && shared.atlas.Valid()
    ensures font.shared == shared && shared.atlas.depth > 0
  {
  }

  lemma DistinctMore(glyphs: seq<Glyph>, g: Glyph, codepoint: nat, mode: RenderMode, thickness: real)
    requires Distinct(glyphs) && !Found(glyphs, codepoint, mode, thickness)
    requires g.codepoint == codepoint && g.rendermode == mode && g.thickness == thickness
    ensures Distinct(glyphs + [g])
  {
  }

  /** In every state of a font each glyph shows its own bitmap, row by row and byte by byte, and
      its extra column and row are black. */
  lemma GlyphIntact(hs: seq<int>, regions: seq<Region>, data: seq<byte>, uploads: seq<Upload>,
                    width: int, height: int, depth: int, i: nat, r: nat, q: nat)
    requires Packed(hs, regions, width, height) && Hosts(regions, data, uploads, width, height, depth)
    requires i < |uploads| && InPadded(uploads[i], depth, r, q)
    ensures At(width * depth, r, q) < |data|
    ensures data[At(width * depth, r, q)]
         == if uploads[i].Covers(depth, r, q) then uploads[i].Byte(depth, r, q) else 0
  {
    var u := uploads[i];
    assert regions[i] == Padded(u) && InBorder(regions[i], width, height);
    assert u.Complete(depth);
    RowBytes(u.x, u.w + 1, width, depth);
    Isolated(uploads, depth, i, r, q);
    hide At;
  }

  /** The same for the glyphs of all fonts of an atlas: whatever the others loaded, byte for byte. */
  lemma FontIntact(shared: SharedAtlas, font: Font, i: nat, r: nat, q: nat)
    requires shared.Valid() && font in shared.fonts && font.glyphs.Valid() && i < font.glyphs.size
    requires |font.places| == font.glyphs.size && font.places[i] < |shared.uploads|
    requires InPadded(shared.uploads[font.places[i]], shared.atlas.depth, r, q)
    ensures var u, w := shared.uploads[font.places[i]], shared.atlas.width * shared.atlas.depth;
      && font.glyphs.Contents()[i].width == u.w && font.glyphs.Contents()[i].height == u.h
      && u.Complete(shared.atlas.depth) && At(w, r, q) < shared.atlas.data.Length
      && shared.atlas.data[At(w, r, q)]
         == if u.Covers(shared.atlas.depth, r, q) then u.Byte(shared.atlas.depth, r, q) else 0
  {
    hide Packed, InPadded, Distinct, ValidNodes, Area, Filled, SharedAtlas.Separate;
    var atlas := shared.atlas;
    KeptParts(font, shared.uploads);
    GlyphIntact(atlas.Outline(), atlas.regions, atlas.data[..], shared.uploads, atlas.width, atlas.height, atlas.depth,
                font.places[i], r, q);
  }

  lemma Coordinates(g: Glyph, u: Upload, width: int, height: int)
    requires width > 0 && height > 0 && Describes(g, u, width, height)
    ensures g.s0 * width as real == u.x as real && g.s1 * width as real == (u.x + g.width) as real
    ensures g.t0 * height as real == u.y as real && g.t1 * height as real == (u.y + g.height) as real
  {
  }

  /** The texture coordinates of a glyph, scaled to pixels, are the borders of its bitmap. */
  lemma GlyphCoordinates(shared: SharedAtlas, font: Font, i: nat)
    requires shared.Valid() && font in shared.fonts && font.glyphs.Valid() && i < font.glyphs.size
    ensures |font.places| == font.glyphs.size && font.places[i] < |shared.uploads|
    ensures var g, u := font.glyphs.Contents()[i], shared.uploads[font.places[i]];
      var width, height := shared.atlas.width as real, shared.atlas.height as real;
      && g.s0 * width == u.x as real && g.s1 * width == (u.x + g.width) as real
      && g.t0 * height == u.y as real && g.t1 * height == (u.y + g.height) as real
  {
    hide *;
    var u := UploadOf(shared, font, i);
    Coordinates(font.glyphs.Contents()[i], u, shared.atlas.width, shared.atlas.height);
  }

  /** Byte k of row j of a bitmap stands in the atlas k bytes behind the start of row j of the
      rectangle at (u.x, u.y); the column behind the rectangle and the row below it are black. */
  lemma BitmapShown(shared: SharedAtlas, font: Font, i: nat, j: nat, k: nat)
    requires shared.Valid() && font in shared.fonts && font.glyphs.Valid() && i < font.glyphs.size
    requires j <= font.glyphs.Contents()[i].height
    requires k < (font.glyphs.Contents()[i].width + 1) * shared.atlas.depth
    ensures |font.places| == font.glyphs.size && font.places[i] < |shared.uploads|
    ensures var g, u := font.glyphs.Contents()[i], shared.uploads[font.places[i]];
      var depth := shared.atlas.depth;
      var spot := ((u.y + j) * shared.atlas.width + u.x) * depth + k;
      && 0 <= spot < shared.atlas.data.Length
      && (if j < g.height && k < g.width * depth then
            0 <= j * u.stride + k < |u.bytes| && shared.atlas.data[spot] == u.bytes[j * u.stride + k]
          else shared.atlas.data[spot] == 0)
  {
    hide *;
    var u := UploadOf(shared, font, i);
    var atlas := shared.atlas;
    ByteSpot(u, j, k, atlas.width, atlas.depth);
    FontIntact(shared, font, i, u.y + j, u.x * atlas.depth + k);
  }

  lemma UploadOf(shared: SharedAtlas, font: Font, i: nat) returns (u: Upload)
    requires shared.Valid() && font in shared.fonts && font.glyphs.Valid() && i < font.glyphs.size
    ensures |font.places| == font.glyphs.size == |font.glyphs.Contents()| && font.places[i] < |shared.uploads|
    ensures u == shared.uploads[font.places[i]] && shared.atlas.width > 0 && shared.atlas.height > 0
    ensures Describes(font.glyphs.Contents()[i], u, shared.atlas.width, shared.atlas.height)
    ensures u.w == font.glyphs.Contents()[i].width && u.h == font.glyphs.Contents()[i].height
    ensures u.Complete(shared.atlas.depth) && shared.atlas.depth > 0
  {
    hide Packed, Distinct, ValidNodes, Area, Filled, SharedAtlas.Separate, Describes, Shows, At;
    KeptParts(font, shared.uploads);
    HostedIn(shared, font);
    DescribedBy(font.glyphs.Contents(), font.places, shared.uploads, shared.atlas.width, shared.atlas.height, i);
    u := shared.uploads[font.places[i]];
  }

  lemma DescribedBy(glyphs: seq<Glyph>, places: seq<nat>, uploads: seq<Upload>, width: int, height: int, i: nat)
    requires Placed(glyphs, places, uploads, width, height) && i < |glyphs|
    ensures |places| == |glyphs| && places[i] < |uploads| && width > 0 && height > 0
    ensures Describes(glyphs[i], uploads[places[i]], width, height)
    ensures glyphs[i].width == uploads[places[i]].w && glyphs[i].height == uploads[places[i]].h
  {
  }

  /** Byte k of row j of the padded region. */
  lemma ByteSpot(u: Upload, j: nat, k: nat, width: nat, depth: nat)
    requires u.Complete(depth) && j <= u.h && k < (u.w + 1) * depth
    ensures u.x > 0 && u.y > 0 && u.x * depth >= 0
    ensures InPadded(u, depth, u.y + j, u.x * depth + k)
    ensures At(width * depth, u.y + j, u.x * depth + k) == ((u.y + j) * width + u.x) * depth + k
    ensures u.Covers(depth, u.y + j, u.x * depth + k) <==> j < u.h && k < u.w * depth
    ensures u.Covers(depth, u.y + j, u.x * depth + k) ==>
      && 0 <= j * u.stride + k < |u.bytes|
      && u.Byte(depth, u.y + j, u.x * depth + k) == u.bytes[j * u.stride + k]
  {
    hide *;
    CompleteIs(u, depth);
    RowStart(u.y + j, u.x, width, depth);
    AtShift(width * depth, u.y + j, u.x * depth, k);
    CoversSpot(u, depth, j, k);
    if j < u.h && k < u.w * depth { ByteIs(u, depth, j, k); }
  }

  lemma CompleteIs(u: Upload, depth: nat)
    requires u.Complete(depth)
    ensures u.x > 0 && u.y > 0 && u.x * depth >= 0
  {
    Scale(0, u.x, depth);
  }

  lemma AtShift(rowBytes: nat, r: nat, q: nat, k: nat)
    ensures At(rowBytes, r, q + k) == At(rowBytes, r, q) + k
  {
  }

  lemma CoversSpot(u: Upload, depth: nat, j: nat, k: nat)
    requires u.x > 0 && u.y > 0 && u.x * depth >= 0 && j <= u.h && k < (u.w + 1) * depth
    ensures InPadded(u, depth, u.y + j, u.x * depth + k)
    ensures u.Covers(depth, u.y + j, u.x * depth + k) <==> j < u.h && k < u.w * depth
  {
    Distribute(u.x, u.w, depth);
    Distribute(u.x, u.w + 1, depth);
  }

  lemma Distribute(a: int, b: int, c: int)
    ensures (a + b) * c == a * c + b * c
  {
  }

  lemma ByteIs(u: Upload, depth: nat, j: nat, k: nat)
    requires u.Complete(depth) && u.x * depth >= 0 && u.Covers(depth, u.y + j, u.x * depth + k)
    ensures 0 <= j * u.stride + k < |u.bytes|
    ensures u.Byte(depth, u.y + j, u.x * depth + k) == u.bytes[j * u.stride + k]
  {
    hide Upload.Covers, Upload.Complete;
    CompleteIs(u, depth);
    u.ByteInside(depth, u.y + j, u.x * depth + k);
  }

  /** Any two glyphs, of one font or of two, are at least one column or row apart. */
  lemma FontsSeparated(shared: SharedAtlas, f: Font, g: Font, i: nat, j: nat)
    requires shared.Valid() && f in shared.fonts && g in shared.fonts && (f != g || i != j)
    requires i < |f.places| && j < |g.places|
    ensures f.places[i] < |shared.uploads| && g.places[j] < |shared.uploads|
    ensures var u, v := shared.uploads[f.places[i]], shared.uploads[g.places[j]];
      || u.x + u.w < v.x || v.x + v.w < u.x || u.y + u.h < v.y || v.y + v.h < u.y
  {
    hide Distinct, ValidNodes, Area, Filled, Shows, Describes;
    KeptParts(f, shared.uploads);
    KeptParts(g, shared.uploads);
    if f != g { assert f.places[i] in f.places && g.places[j] in g.places && shared.Separate(f, g); }
    PaddedApart(shared.atlas.Outline(), shared.atlas.regions, shared.uploads, shared.atlas.width, shared.atlas.height);
    if f.places[i] < g.places[j] {
      Separated(shared.uploads, f.places[i], g.places[j]);
    } else {
      Separated(shared.uploads, g.places[j], f.places[i]);
    }
  }

  lemma PaddedApart(hs: seq<int>, regions: seq<Region>, uploads: seq<Upload>, width: int, height: int)
    requires Packed(hs, regions, width, height) && |regions| == |uploads|
    requires forall i :: 0 <= i < |uploads| ==> regions[i] == Padded(uploads[i])
    ensures Apart(uploads)
  {
    hide Disjoint;
    forall i, j | 0 <= i < j < |uploads| ensures Disjoint(Padded(uploads[i]), Padded(uploads[j])) {
      assert Disjoint(regions[i], regions[j]);
    }
  }
}
