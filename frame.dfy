/** The viewport texture and the merge loop of the redraw handler
    (src/main.rs): every tile buffer is uploaded with `TexSubImage2D` at the
    tile's place in the texture. The texture is an array of RGBA texels,
    indexed by row, column and channel. */
module Frame {
  import opened Tiles
  import opened Render

  /** Position of channel `c` of texel `(col, row)` in a buffer holding a
      `w × h` rectangle of RGBA texels row by row. */
  function Texel(w: nat, h: nat, row: nat, col: nat, c: nat): (i: nat)
    requires row < h && col < w && c < 4
    ensures 4 * (row * w + col) <= i < 4 * (row * w + col) + 4
    ensures i < 4 * (w * h)
  {
    GridBelow(col, row, w, h);
    4 * (row * w + col) + c
  }

  /** `TexSubImage2D` with format RGBA and type UNSIGNED_BYTE: the `w × h`
      rectangle at column `x0`, row `y0` of the texture takes the texels of
      `buf`, and nothing else in the texture changes. */
  method UploadTile(frame: array3<Byte>, x0: nat, y0: nat, w: nat, h: nat, buf: seq<Byte>)
    requires frame.Length2 == 4 && x0 + w <= frame.Length1 && y0 + h <= frame.Length0
    requires |buf| == 4 * (w * h)
    modifies frame
    ensures forall py, px, c :: 0 <= py < frame.Length0 && 0 <= px < frame.Length1 && 0 <= c < 4 ==>
      frame[py, px, c] ==
        if y0 <= py < y0 + h && x0 <= px < x0 + w then buf[Texel(w, h, py - y0, px - x0, c)]
        else old(frame[py, px, c])
  {
    forall py, px, c | y0 <= py < y0 + h && x0 <= px < x0 + w && 0 <= c < 4 {
      frame[py, px, c] := buf[Texel(w, h, py - y0, px - x0, c)];
    }
  }

  /** Row-major grid coordinates are unique. */
  lemma GridUnique(i1: nat, j1: nat, i2: nat, j2: nat, n: nat)
    requires i1 < n && i2 < n && j1 * n + i1 == j2 * n + i2
    ensures i1 == i2 && j1 == j2
  {
    DivMod(j1 * n + i1, n, j1, i1);
    DivMod(j1 * n + i1, n, j2, i2);
  }

  /** Tile `(x, y)` of the merge covers the pixels of the rectangle at
      `(x * pixelsHor, y * pixelsVert)`: such a pixel's cell is that tile,
      and its pixel index is its row-major offset inside the rectangle. */
  lemma {:induction false} InTileRect(l: Layout, x: nat, y: nat, px: nat, py: nat)
    requires Valid(l)
    requires y * l.pixelsVert <= py < y * l.pixelsVert + l.pixelsVert
    requires x * l.pixelsHor <= px < x * l.pixelsHor + l.pixelsHor
    ensures CellOf(l, px, py) == y * l.cellsHor + x
    ensures PixelIndexOf(l, px, py) == (py - y * l.pixelsVert) * l.pixelsHor + (px - x * l.pixelsHor)
  {
    DivMod(px, l.pixelsHor, x, px - x * l.pixelsHor);
    DivMod(py, l.pixelsVert, y, py - y * l.pixelsVert);
  }

  /** Conversely, a covered pixel whose cell is tile `(x, y)` lies in that
      tile's rectangle. */
  lemma {:induction false} TileRectHolds(l: Layout, x: nat, y: nat, px: nat, py: nat)
    requires Valid(l) && x < l.cellsHor && px < Width(l)
    requires CellOf(l, px, py) == y * l.cellsHor + x
    ensures y * l.pixelsVert <= py < y * l.pixelsVert + l.pixelsVert
    ensures x * l.pixelsHor <= px < x * l.pixelsHor + l.pixelsHor
  {
    var qx, qy := px / l.pixelsHor, py / l.pixelsVert;
    DivBelow(px, l.pixelsHor, l.cellsHor);
    GridUnique(qx, qy, x, y, l.cellsHor);
    DivFloor(px, l.pixelsHor);
    DivFloor(py, l.pixelsVert);
  }

  /** `cells` holds one buffer of `4 * pixels` bytes per tile. */
  predicate TileBuffers(l: Layout, cells: seq<seq<Byte>>) {
    |cells| == Cells(l) && forall i :: 0 <= i < |cells| ==> |cells[i]| == 4 * Pixels(l)
  }

  /** The byte the merge is meant to leave at channel `c` of covered pixel
      `(px, py)`: the one at that pixel's offset in its own tile. */
  function MergedByte(l: Layout, cells: seq<seq<Byte>>, px: nat, py: nat, c: nat): Byte
    requires Valid(l) && TileBuffers(l, cells) && px < Width(l) && py < Height(l) && c < 4
  {
    RenderMapOnto(l, px, py);
    cells[CellOf(l, px, py)][4 * PixelIndexOf(l, px, py) + c]
  }

  /** Pixel `(px, py)` lies in the rectangle the merge gives tile `(x, y)`. */
  predicate InTile(l: Layout, x: nat, y: nat, px: nat, py: nat) {
    && x * l.pixelsHor <= px < x * l.pixelsHor + l.pixelsHor
    && y * l.pixelsVert <= py < y * l.pixelsVert + l.pixelsVert
  }

  /** The rectangle of a tile lies within the area the tiles cover. */
  lemma InTileCovered(l: Layout, x: nat, y: nat, px: nat, py: nat)
    requires Valid(l) && x < l.cellsHor && y < l.cellsVert && InTile(l, x, y, px, py)
    ensures px < Width(l) && py < Height(l)
  {
    MulMono(x + 1, l.cellsHor, l.pixelsHor);
    MulMono(y + 1, l.cellsVert, l.pixelsVert);
    assert x * l.pixelsHor + l.pixelsHor == (x + 1) * l.pixelsHor;
    assert y * l.pixelsVert + l.pixelsVert == (y + 1) * l.pixelsVert;
  }

  /** Tile `(x, y)` exists, its buffer holds one RGBA texel per pixel of its
      rectangle, and the rectangle ends within the covered area. */
  lemma TileFits(l: Layout, cells: seq<seq<Byte>>, x: nat, y: nat)
    requires Valid(l) && TileBuffers(l, cells) && x < l.cellsHor && y < l.cellsVert
    ensures y * l.cellsHor + x < |cells|
    ensures |cells[y * l.cellsHor + x]| == 4 * (l.pixelsHor * l.pixelsVert)
    ensures x * l.pixelsHor + l.pixelsHor <= Width(l) && y * l.pixelsVert + l.pixelsVert <= Height(l)
  {
    GridBelow(x, y, l.cellsHor, l.cellsVert);
    MulMono(x + 1, l.cellsHor, l.pixelsHor);
    MulMono(y + 1, l.cellsVert, l.pixelsVert);
    assert x * l.pixelsHor + l.pixelsHor == (x + 1) * l.pixelsHor;
    assert y * l.pixelsVert + l.pixelsVert == (y + 1) * l.pixelsVert;
  }

  /** The rectangle of tile `(x, y)` holds exactly the covered pixels whose
      cell is `y * cellsHor + x`, and the texel of such a pixel in the tile
      buffer is the one at the pixel's own offset. */
  lemma {:induction false} TileRect(l: Layout, cells: seq<seq<Byte>>, x: nat, y: nat, px: nat, py: nat, c: nat)
    requires Valid(l) && TileBuffers(l, cells) && x < l.cellsHor && y < l.cellsVert && c < 4
    ensures y * l.cellsHor + x < |cells|
    ensures InTile(l, x, y, px, py) <==> px < Width(l) && py < Height(l) && CellOf(l, px, py) == y * l.cellsHor + x
    ensures InTile(l, x, y, px, py) ==>
      && px < Width(l) && py < Height(l)
      && cells[y * l.cellsHor + x][Texel(l.pixelsHor, l.pixelsVert, py - y * l.pixelsVert, px - x * l.pixelsHor, c)]
         == MergedByte(l, cells, px, py, c)
  {
    GridBelow(x, y, l.cellsHor, l.cellsVert);
    if InTile(l, x, y, px, py) {
      InTileCovered(l, x, y, px, py);
      InTileRect(l, x, y, px, py);
      var k := PixelIndexOf(l, px, py);
      assert Texel(l.pixelsHor, l.pixelsVert, py - y * l.pixelsVert, px - x * l.pixelsHor, c) == 4 * k + c;
    } else if px < Width(l) && CellOf(l, px, py) == y * l.cellsHor + x {
      TileRectHolds(l, x, y, px, py);
    }
  }

  /** One iteration of the merge loop: tile `y * cellsHor + x` is uploaded
      at column `x * pixelsHor`, row `y * pixelsVert`. Afterwards exactly the
      covered pixels whose cell is that tile hold their bytes from it. */
  method MergeTile(l: Layout, cells: seq<seq<Byte>>, frame: array3<Byte>, x: nat, y: nat)
    requires Valid(l) && TileBuffers(l, cells) && x < l.cellsHor && y < l.cellsVert
    requires frame.Length2 == 4 && Width(l) <= frame.Length1 && Height(l) <= frame.Length0
    modifies frame
    ensures forall py, px, c :: 0 <= py < frame.Length0 && 0 <= px < frame.Length1 && 0 <= c < 4 ==>
      frame[py, px, c] ==
        if py < Height(l) && px < Width(l) && CellOf(l, px, py) == y * l.cellsHor + x then MergedByte(l, cells, px, py, c)
        else old(frame[py, px, c])
  {
    var index := y * l.cellsHor + x;
    var x0, y0 := x * l.pixelsHor, y * l.pixelsVert;
    TileFits(l, cells, x, y);
    UploadTile(frame, x0, y0, l.pixelsHor, l.pixelsVert, cells[index]);
    forall py, px, c | 0 <= py < frame.Length0 && 0 <= px < frame.Length1 && 0 <= c < 4
      ensures frame[py, px, c] ==
        if py < Height(l) && px < Width(l) && CellOf(l, px, py) == index then MergedByte(l, cells, px, py, c)
        else old(frame[py, px, c])
    {
      TileRect(l, cells, x, y, px, py, c);
    }
  }

  /** The merge loop: tile `y * cellsHor + x` goes to column
      `x * pixelsHor`, row `y * pixelsVert`, for every row `y` and column
      `x`. Afterwards every covered pixel holds its bytes from its own tile,
      and the rest of the texture is untouched. */
  method MergeTiles(l: Layout, cells: seq<seq<Byte>>, frame: array3<Byte>)
    requires Valid(l) && TileBuffers(l, cells)
    requires frame.Length2 == 4 && Width(l) <= frame.Length1 && Height(l) <= frame.Length0
    modifies frame
    ensures forall py, px, c :: 0 <= py < frame.Length0 && 0 <= px < frame.Length1 && 0 <= c < 4 ==>
      frame[py, px, c] ==
        if py < Height(l) && px < Width(l) then MergedByte(l, cells, px, py, c)
        else old(frame[py, px, c])
  {
    forall px: nat, py: nat | px < Width(l) && py < Height(l) ensures CellOf(l, px, py) < Cells(l) {
      RenderMapOnto(l, px, py);
    }
    var y, done := 0, 0;
    while y < l.cellsVert
      invariant 0 <= y <= l.cellsVert && done == y * l.cellsHor
      invariant forall py, px, c :: 0 <= py < frame.Length0 && 0 <= px < frame.Length1 && 0 <= c < 4 ==>
        frame[py, px, c] ==
          if py < Height(l) && px < Width(l) && CellOf(l, px, py) < done then MergedByte(l, cells, px, py, c)
          else old(frame[py, px, c])
    {
      var x := 0;
      while x < l.cellsHor
        invariant 0 <= x <= l.cellsHor && done == y * l.cellsHor + x
        invariant forall py, px, c :: 0 <= py < frame.Length0 && 0 <= px < frame.Length1 && 0 <= c < 4 ==>
          frame[py, px, c] ==
            if py < Height(l) && px < Width(l) && CellOf(l, px, py) < done then MergedByte(l, cells, px, py, c)
            else old(frame[py, px, c])
      {
        MergeTile(l, cells, frame, x, y);
        x, done := x + 1, done + 1;
      }
      y := y + 1;
    }
  }

  /** One redraw on layout `l`: render every tile, then merge them. Every
      covered pixel ends up with the grey value of its own primary ray, and
      the rest of the texture is untouched. */
  method RenderFrame(ctx: Context, l: Layout, frame: array3<Byte>)
    requires ValidContext(ctx) && Valid(l)
    requires frame.Length2 == 4 && Width(l) <= frame.Length1 && Height(l) <= frame.Length0
    modifies frame
    ensures forall py, px, c :: 0 <= py < frame.Length0 && 0 <= px < frame.Length1 && 0 <= c < 4 ==>
      frame[py, px, c] ==
        if py < Height(l) && px < Width(l) then Channel(PixelValue(ctx, px, py), c)
        else old(frame[py, px, c])
  {
    var cells := RenderCells(ctx, l);
    forall i | 0 <= i < |cells| ensures |cells[i]| == 4 * Pixels(l) {
      assert cells[i] == TileBuffer(ctx, l, i);
    }
    MergeTiles(l, cells, frame);
    forall px: nat, py: nat, c: nat | px < Width(l) && py < Height(l) && c < 4
      ensures MergedByte(l, cells, px, py, c) == Channel(PixelValue(ctx, px, py), c)
    {
      MergedPixelIsRendered(ctx, l, px, py, c);
    }
  }

  /** The redraw handler's own layout on the 640 × 360 viewport texture:
      every texel is written, with the grey value of its pixel. */
  method Redraw(ctx: Context, frame: array3<Byte>)
    requires ValidContext(ctx)
    requires frame.Length0 == ViewportHeight && frame.Length1 == ViewportWidth && frame.Length2 == 4
    modifies frame
    ensures forall py, px, c :: 0 <= py < frame.Length0 && 0 <= px < frame.Length1 && 0 <= c < 4 ==>
      frame[py, px, c] == Channel(PixelValue(ctx, px, py), c)
  {
    MainLayoutCoversViewport();
    RenderFrame(ctx, MainLayout, frame);
  }
}
