/** Per-pixel shading and tile assembly of the redraw handler (src/main.rs):
    the nearest-hit search, the depth-to-grey mapping, the RGBA tile
    buffers and the list of tiles in cell order. The merge of the tiles into
    the viewport texture is in module Frame. */
module Render {
  import Rays
  import opened Shapes
  import opened Tiles

  type Byte = x: int | 0 <= x < 256

  /** What the shading of one frame depends on: the scene, the camera's
      per-pixel primary rays (`pixel_to_camera` with the frame's camera
      matrix, see module Camera for its screen-space part), and the near
      and far distances. */
  datatype Context = Context(scene: seq<Shape>, camera: (nat, nat) -> Rays.Ray, near: real, far: real)

  predicate WellFormedScene(scene: seq<Shape>) {
    forall s :: s in scene ==> WellFormed(s)
  }

  predicate ValidContext(ctx: Context) {
    WellFormedScene(ctx.scene) && ctx.far > 0.0
  }

  // ---- Nearest hit ----

  /** Shape `s` reports a hit beyond the near distance. */
  predicate HitsBeyond(s: Shape, ray: Rays.Ray, near: real)
    requires WellFormed(s)
  {
    IntersectsRay(s, ray).hit && IntersectsRay(s, ray).t > near
  }

  /** The depth the loop over the scene leaves behind, starting from
      `depth`: a shape's parameter replaces the depth when it hit, lies
      beyond `near` and is nearer than the current depth. The result is
      never beyond the start, is either the start or the parameter of a shape
      hit beyond `near`, and is no farther than any shape hit beyond
      `near`. */
  function Nearest(scene: seq<Shape>, ray: Rays.Ray, near: real, depth: real): (d: real)
    requires WellFormedScene(scene)
    ensures d <= depth
    ensures d == depth || exists s :: s in scene && HitsBeyond(s, ray, near) && IntersectsRay(s, ray).t == d
    ensures forall s :: s in scene && HitsBeyond(s, ray, near) ==> d <= IntersectsRay(s, ray).t
    decreases |scene|
  {
    if scene == [] then depth
    else
      var r := IntersectsRay(scene[0], ray);
      var next := if r.hit && r.t < depth && r.t > near then r.t else depth;
      assert forall s :: s in scene[1..] ==> s in scene;
      Nearest(scene[1..], ray, near, next)
  }

  /** The loop of the source over `shapes.iter()`, updating `depth` in place. */
  method NearestDepth(scene: seq<Shape>, ray: Rays.Ray, near: real, far: real) returns (depth: real)
    requires WellFormedScene(scene)
    ensures depth == Nearest(scene, ray, near, far)
    ensures depth <= far
    ensures depth == far || exists s :: s in scene && HitsBeyond(s, ray, near) && IntersectsRay(s, ray).t == depth
    ensures forall s :: s in scene && HitsBeyond(s, ray, near) ==> depth <= IntersectsRay(s, ray).t
  {
    depth := far;
    var i := 0;
    while i < |scene|
      invariant 0 <= i <= |scene|
      invariant Nearest(scene[i..], ray, near, depth) == Nearest(scene, ray, near, far)
    {
      assert forall s :: s in scene[i..] ==> s in scene;
      var r := IntersectsRay(scene[i], ray);
      if r.hit {
        if r.t < depth && r.t > near {
          depth := r.t;
        }
      }
      assert scene[i..][1..] == scene[i + 1..];
      i := i + 1;
    }
  }

  /** The depth depends only on which shapes the scene holds: the three
      properties of `Nearest` pin it down, so two scenes holding the same
      shapes, in any order and with any repetitions, give the same depth. */
  lemma {:induction false} NearestUnique(scene1: seq<Shape>, scene2: seq<Shape>, ray: Rays.Ray, near: real, depth: real)
    requires WellFormedScene(scene1) && WellFormedScene(scene2)
    requires forall s :: s in scene1 <==> s in scene2
    ensures Nearest(scene1, ray, near, depth) == Nearest(scene2, ray, near, depth)
  {
    var d1, d2 := Nearest(scene1, ray, near, depth), Nearest(scene2, ray, near, depth);
    if d1 != depth {
      var s1 :| s1 in scene1 && HitsBeyond(s1, ray, near) && IntersectsRay(s1, ray).t == d1;
      assert d2 <= d1;
    }
    if d2 != depth {
      var s2 :| s2 in scene2 && HitsBeyond(s2, ray, near) && IntersectsRay(s2, ray).t == d2;
      assert d1 <= d2;
    }
  }

  /** The nearest depth does not depend on the order of the scene list. */
  lemma {:induction false} NearestOrderIndependent(scene1: seq<Shape>, scene2: seq<Shape>, ray: Rays.Ray, near: real, depth: real)
    requires WellFormedScene(scene1)
    requires multiset(scene1) == multiset(scene2)
    ensures WellFormedScene(scene2)
    ensures Nearest(scene1, ray, near, depth) == Nearest(scene2, ray, near, depth)
  {
    assert forall s :: s in scene1 <==> s in multiset(scene1);
    assert forall s :: s in scene2 <==> s in multiset(scene2);
    NearestUnique(scene1, scene2, ray, near, depth);
  }

  // ---- Depth to intensity ----

  function Clamp(x: real, lo: real, hi: real): real {
    if x < lo then lo else if x > hi then hi else x
  }

  /** `x.clamp(0.0, 255.0) as u8`: clamped to 0..255 and truncated. */
  function Grey(x: real): (v: Byte)
    ensures v as real <= Clamp(x, 0.0, 255.0) < v as real + 1.0
  {
    Clamp(x, 0.0, 255.0).Floor
  }

  /** `(depth * (255.0 / far)).clamp(0.0, 255.0) as u8`: the scaled depth,
      clamped to 0..255 and truncated to an integer. */
  function Intensity(depth: real, far: real): (v: Byte)
    requires far > 0.0
    ensures v as real <= Clamp(depth * (255.0 / far), 0.0, 255.0) < v as real + 1.0
  {
    Grey(depth * (255.0 / far))
  }

  /** Farther is never darker. */
  lemma IntensityMonotone(d1: real, d2: real, far: real)
    requires far > 0.0 && d1 <= d2
    ensures Intensity(d1, far) <= Intensity(d2, far)
  {
    PositiveRatio(255.0, far);
    ScaleMonotone(d1, d2, 255.0 / far);
    GreyMonotone(d1 * (255.0 / far), d2 * (255.0 / far));
  }

  lemma GreyMonotone(x1: real, x2: real)
    requires x1 <= x2
    ensures Grey(x1) <= Grey(x2)
  {
    ClampMonotone(x1, x2, 0.0, 255.0);
    FloorMonotone(Clamp(x1, 0.0, 255.0), Clamp(x2, 0.0, 255.0));
  }

  lemma ScaleMonotone(a: real, b: real, k: real)
    requires a <= b && k > 0.0
    ensures a * k <= b * k
  {
    assert b * k - a * k == (b - a) * k;
  }

  lemma PositiveRatio(a: real, b: real)
    requires a > 0.0 && b > 0.0
    ensures a / b > 0.0
  {
  }

  lemma ClampMonotone(a: real, b: real, lo: real, hi: real)
    requires a <= b && lo <= hi
    ensures Clamp(a, lo, hi) <= Clamp(b, lo, hi)
  {
  }

  lemma FloorMonotone(a: real, b: real)
    requires a <= b
    ensures a.Floor <= b.Floor
  {
    assert a.Floor as real <= a && b < b.Floor as real + 1.0;
  }

  /** A pixel whose ray hits nothing within `far` is white. */
  lemma IntensityAtFar(far: real)
    requires far > 0.0
    ensures Intensity(far, far) == 255
  {
    assert far * (255.0 / far) == 255.0;
  }

  /** Depths at or before the eye are black. */
  lemma IntensityAtEye(depth: real, far: real)
    requires far > 0.0 && depth <= 0.0
    ensures Intensity(depth, far) == 0
  {
    var k := 255.0 / far;
    assert depth * k <= 0.0 by {
      assert -(depth * k) == (-depth) * k;
    }
  }

  // ---- Pixels and tile buffers ----

  /** Channel `c` of the RGBA quadruple `[v, v, v, 0xFF]` built per pixel. */
  function Channel(v: Byte, c: nat): Byte {
    if c < 3 then v else 255
  }

  /** The quadruple `[v, v, v, 0xFF]` collected for one pixel. */
  function PixelBytes(v: Byte): (q: seq<Byte>)
    ensures |q| == 4 && forall c :: 0 <= c < 4 ==> q[c] == Channel(v, c)
  {
    [v, v, v, 255]
  }

  /** The bytes `flat_map` collects from the per-pixel quadruples: four per
      pixel, in pixel order, byte `4k + c` being channel `c` of pixel `k`. */
  function TileBytes(values: seq<Byte>): (r: seq<Byte>)
    ensures |r| == 4 * |values|
    ensures forall j :: 0 <= j < |r| ==> r[j] == Channel(values[j / 4], j % 4)
  {
    if values == [] then []
    else
      var rest := TileBytes(values[1..]);
      assert forall j :: 4 <= j < 4 * |values| ==> (j - 4) / 4 == j / 4 - 1 && (j - 4) % 4 == j % 4;
      PixelBytes(values[0]) + rest
  }

  /** The grey value of viewport pixel `(px, py)`. */
  function PixelValue(ctx: Context, px: nat, py: nat): Byte
    requires ValidContext(ctx)
  {
    Intensity(Nearest(ctx.scene, ctx.camera(px, py), ctx.near, ctx.far), ctx.far)
  }

  /** The buffer of tile `cell`: its pixels in pixel-index order. */
  function TileBuffer(ctx: Context, l: Layout, cell: nat): (buf: seq<Byte>)
    requires ValidContext(ctx) && Valid(l)
    ensures |buf| == 4 * Pixels(l)
  {
    TileBytes(seq(Pixels(l), k requires 0 <= k => PixelValue(ctx, PixelX(l, cell, k), PixelY(l, cell, k))))
  }

  /** `cells`: the tile buffers in cell-index order (the source maps over
      the cells in parallel; the tiles share nothing, so a sequential map
      gives the same list). */
  function RenderCells(ctx: Context, l: Layout): (cells: seq<seq<Byte>>)
    requires ValidContext(ctx) && Valid(l)
    ensures |cells| == Cells(l)
    ensures forall i :: 0 <= i < |cells| ==> |cells[i]| == 4 * Pixels(l)
  {
    seq(Cells(l), i requires 0 <= i => TileBuffer(ctx, l, i))
  }

  /** Byte `4k + c` of the collected bytes is channel `c` of pixel `k`. */
  lemma TileBytesChannel(values: seq<Byte>, k: nat, c: nat)
    requires k < |values| && c < 4
    ensures 4 * k + c < |TileBytes(values)| && TileBytes(values)[4 * k + c] == Channel(values[k], c)
  {
    DivMod(4 * k + c, 4, k, c);
  }

  /** Bytes `4k .. 4k+3` of a tile's bytes are pixel `k`'s quadruple
      `[v, v, v, 255]`. */
  lemma TileBytesAt(values: seq<Byte>, k: nat)
    requires k < |values|
    ensures 4 * k + 3 < |TileBytes(values)|
    ensures var b, v := TileBytes(values), values[k];
      b[4 * k] == v && b[4 * k + 1] == v && b[4 * k + 2] == v && b[4 * k + 3] == 255
  {
    var b := TileBytes(values);
    DivMod(4 * k, 4, k, 0);
    DivMod(4 * k + 1, 4, k, 1);
    DivMod(4 * k + 2, 4, k, 2);
    DivMod(4 * k + 3, 4, k, 3);
  }

  /** Each tile buffer holds `4 * pixels` bytes, and bytes `4k .. 4k+3` are
      `[v, v, v, 255]` for the grey value `v` of the `k`-th pixel the tile
      renders. */
  lemma TileBufferLayout(ctx: Context, l: Layout, cell: nat, k: nat)
    requires ValidContext(ctx) && Valid(l) && k < Pixels(l)
    ensures |TileBuffer(ctx, l, cell)| == 4 * Pixels(l)
    ensures var b, v := TileBuffer(ctx, l, cell), PixelValue(ctx, PixelX(l, cell, k), PixelY(l, cell, k));
      b[4 * k] == v && b[4 * k + 1] == v && b[4 * k + 2] == v && b[4 * k + 3] == 255
  {
    var values := seq(Pixels(l), j requires 0 <= j => PixelValue(ctx, PixelX(l, cell, j), PixelY(l, cell, j)));
    assert TileBuffer(ctx, l, cell) == TileBytes(values);
    TileBytesAt(values, k);
  }

  /** Reading viewport pixel `(px, py)` back out of the tile list, at the
      tile and byte offset the merge uses, gives that pixel's own colour. */
  lemma {:induction false} MergedPixelIsRendered(ctx: Context, l: Layout, px: nat, py: nat, c: nat)
    requires ValidContext(ctx) && Valid(l) && px < Width(l) && py < Height(l) && c < 4
    ensures CellOf(l, px, py) < |RenderCells(ctx, l)|
    ensures 4 * PixelIndexOf(l, px, py) + c < |RenderCells(ctx, l)[CellOf(l, px, py)]|
    ensures RenderCells(ctx, l)[CellOf(l, px, py)][4 * PixelIndexOf(l, px, py) + c]
      == Channel(PixelValue(ctx, px, py), c)
  {
    RenderMapOnto(l, px, py);
    RenderedByte(ctx, l, CellOf(l, px, py), PixelIndexOf(l, px, py), c);
  }

  /** Byte `4k + c` of tile `cell` in the tile list is channel `c` of the
      grey value of the pixel that the tile's k-th pixel renders. */
  lemma RenderedByte(ctx: Context, l: Layout, cell: nat, k: nat, c: nat)
    requires ValidContext(ctx) && Valid(l) && cell < Cells(l) && k < Pixels(l) && c < 4
    ensures cell < |RenderCells(ctx, l)| && 4 * k + c < |RenderCells(ctx, l)[cell]|
    ensures RenderCells(ctx, l)[cell][4 * k + c]
      == Channel(PixelValue(ctx, PixelX(l, cell, k), PixelY(l, cell, k)), c)
  {
    var values := seq(Pixels(l), j requires 0 <= j => PixelValue(ctx, PixelX(l, cell, j), PixelY(l, cell, j)));
    assert RenderCells(ctx, l)[cell] == TileBuffer(ctx, l, cell) == TileBytes(values);
    TileBytesChannel(values, k, c);
  }

  /** How the viewport is tiled does not change the picture: two layouts
      covering the same area give every pixel the same bytes. */
  lemma {:induction false} TilingIrrelevant(ctx: Context, l1: Layout, l2: Layout, px: nat, py: nat, c: nat)
    requires ValidContext(ctx) && Valid(l1) && Valid(l2)
    requires Width(l1) == Width(l2) && Height(l1) == Height(l2)
    requires px < Width(l1) && py < Height(l1) && c < 4
    ensures CellOf(l1, px, py) < |RenderCells(ctx, l1)| && CellOf(l2, px, py) < |RenderCells(ctx, l2)|
    ensures 4 * PixelIndexOf(l1, px, py) + c < |RenderCells(ctx, l1)[CellOf(l1, px, py)]|
    ensures 4 * PixelIndexOf(l2, px, py) + c < |RenderCells(ctx, l2)[CellOf(l2, px, py)]|
    ensures RenderCells(ctx, l1)[CellOf(l1, px, py)][4 * PixelIndexOf(l1, px, py) + c]
      == RenderCells(ctx, l2)[CellOf(l2, px, py)][4 * PixelIndexOf(l2, px, py) + c]
  {
    MergedPixelIsRendered(ctx, l1, px, py, c);
    MergedPixelIsRendered(ctx, l2, px, py, c);
  }
}
