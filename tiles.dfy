/** The tile/pixel index arithmetic of the redraw handler (src/main.rs): the
    viewport is cut into `cellsHor × cellsVert` tiles of `pixelsHor ×
    pixelsVert` pixels; a tile is named by its row-major cell index and a
    pixel of a tile by its row-major pixel index. All quantities are `u32`
    in the source; the values involved are far below 2^32, so unbounded
    naturals with Dafny's `/` and `%` (which agree with Rust's on
    non-negative operands) model them exactly. */
module Tiles {

  datatype Layout = Layout(cellsHor: nat, cellsVert: nat, pixelsHor: nat, pixelsVert: nat)

  /** Every divisor the index arithmetic uses is nonzero. */
  predicate Valid(l: Layout) {
    l.cellsHor > 0 && l.cellsVert > 0 && l.pixelsHor > 0 && l.pixelsVert > 0
  }

  /** `cells` and `pixels` of the source: tiles per frame, pixels per tile. */
  function Cells(l: Layout): nat { l.cellsHor * l.cellsVert }

  function Pixels(l: Layout): nat { l.pixelsHor * l.pixelsVert }

  /** The extent the tiles cover together. */
  function Width(l: Layout): nat { l.cellsHor * l.pixelsHor }

  function Height(l: Layout): nat { l.cellsVert * l.pixelsVert }

  /** `VIEWPORT_SIZE`. */
  const ViewportWidth: nat := 640
  const ViewportHeight: nat := 360

  /** The tile size is the viewport size divided (rounding down) by the
      number of tiles on each axis, so the tiles never reach beyond the
      viewport and leave fewer than `cellsHor` columns and fewer than
      `cellsVert` rows of it uncovered. */
  function MakeLayout(width: nat, height: nat, cellsHor: nat, cellsVert: nat): (l: Layout)
    requires cellsHor > 0 && cellsVert > 0
    ensures l.cellsHor == cellsHor && l.cellsVert == cellsVert
    ensures Width(l) <= width < Width(l) + cellsHor
    ensures Height(l) <= height < Height(l) + cellsVert
  {
    var l := Layout(cellsHor, cellsVert, width / cellsHor, height / cellsVert);
    DivFloor(width, cellsHor);
    DivFloor(height, cellsVert);
    l
  }

  /** The layout of the redraw handler: 4 × 4 tiles over the viewport. */
  const MainLayout: Layout := MakeLayout(ViewportWidth, ViewportHeight, 4, 4)

  /** The 640 × 360 viewport divides evenly into 16 tiles of 160 × 90. */
  lemma MainLayoutCoversViewport()
    ensures MainLayout == Layout(4, 4, 160, 90) && Valid(MainLayout)
    ensures Width(MainLayout) == ViewportWidth && Height(MainLayout) == ViewportHeight
    ensures Cells(MainLayout) == 16 && Pixels(MainLayout) == 14400
  {
    DivMod(640, 4, 160, 0);
    DivMod(360, 4, 90, 0);
  }

  /** Tile column and row of a cell index: the column is below `cellsHor`,
      and row and column recombine row-major into the index. */
  function CellX(l: Layout, cell: nat): (x: nat)
    requires Valid(l)
    ensures x < l.cellsHor
  {
    cell % l.cellsHor
  }

  function CellY(l: Layout, cell: nat): (y: nat)
    requires Valid(l)
    ensures y * l.cellsHor + CellX(l, cell) == cell
  {
    Recombine(cell, l.cellsHor);
    cell / l.cellsHor
  }

  /** `pixel_x`/`pixel_y`: the viewport pixel that pixel `pixel` of tile
      `cell` renders. */
  function PixelX(l: Layout, cell: nat, pixel: nat): nat
    requires Valid(l)
  {
    pixel % l.pixelsHor + CellX(l, cell) * l.pixelsHor
  }

  function PixelY(l: Layout, cell: nat, pixel: nat): nat
    requires Valid(l)
  {
    pixel / l.pixelsHor + CellY(l, cell) * l.pixelsVert
  }

  /** The inverse map: the tile holding viewport pixel `(px, py)` and that
      pixel's index within the tile. */
  function CellOf(l: Layout, px: nat, py: nat): nat
    requires Valid(l)
  {
    (py / l.pixelsVert) * l.cellsHor + px / l.pixelsHor
  }

  function PixelIndexOf(l: Layout, px: nat, py: nat): nat
    requires Valid(l)
  {
    (py % l.pixelsVert) * l.pixelsHor + px % l.pixelsHor
  }

  // ---- Integer division helpers ----

  lemma MulAtLeast(m: int, b: int)
    requires m >= 1 && b > 0
    ensures m * b >= b
  {
    assert m * b - b == (m - 1) * b;
  }

  lemma MulMono(x: int, y: int, b: int)
    requires x <= y && b >= 0
    ensures x * b <= y * b
  {
    assert y * b - x * b == (y - x) * b;
  }

  /** Division and remainder are the unique quotient and remainder. */
  lemma DivMod(a: int, b: int, q: int, r: int)
    requires b > 0 && 0 <= r < b && a == q * b + r
    ensures a / b == q && a % b == r
  {
    var q0, r0 := a / b, a % b;
    assert (q - q0) * b == r0 - r;
    if q > q0 {
      MulAtLeast(q - q0, b);
    } else if q < q0 {
      MulAtLeast(q0 - q, b);
    }
  }

  lemma Recombine(a: nat, b: nat)
    requires b > 0
    ensures a % b + (a / b) * b == a && a % b < b
  {
  }

  lemma DivFloor(a: nat, b: nat)
    requires b > 0
    ensures b * (a / b) <= a < b * (a / b) + b
  {
  }

  /** A number below `b * c` has quotient below `c`. */
  lemma DivBelow(a: nat, b: nat, c: nat)
    requires b > 0 && a < b * c
    ensures a / b < c
  {
    if a / b >= c {
      MulMono(c, a / b, b);
    }
  }

  /** Column `i` of row `j` in a grid `n` wide and `m` high is a cell of the grid. */
  lemma GridBelow(i: nat, j: nat, n: nat, m: nat)
    requires i < n && j < m
    ensures i + j * n < n * m
  {
    assert j * n <= (m - 1) * n by {
      assert (m - 1) * n - j * n == (m - 1 - j) * n;
    }
    assert (m - 1) * n + n == n * m;
  }

  // ---- Properties of the map ----

  /** Every pixel any tile renders lies inside the area the tiles cover. */
  lemma {:induction false} PixelInViewport(l: Layout, cell: nat, pixel: nat)
    requires Valid(l) && cell < Cells(l) && pixel < Pixels(l)
    ensures PixelX(l, cell, pixel) < Width(l) && PixelY(l, cell, pixel) < Height(l)
  {
    DivBelow(cell, l.cellsHor, l.cellsVert);
    DivBelow(pixel, l.pixelsHor, l.pixelsVert);
    GridBelow(pixel % l.pixelsHor, CellX(l, cell), l.pixelsHor, l.cellsHor);
    GridBelow(pixel / l.pixelsHor, CellY(l, cell), l.pixelsVert, l.cellsVert);
  }

  /** The inverse map undoes the render map, so no two (tile, pixel) pairs
      render the same viewport pixel. */
  lemma {:induction false} RenderMapRoundTrip(l: Layout, cell: nat, pixel: nat)
    requires Valid(l) && cell < Cells(l) && pixel < Pixels(l)
    ensures CellOf(l, PixelX(l, cell, pixel), PixelY(l, cell, pixel)) == cell
    ensures PixelIndexOf(l, PixelX(l, cell, pixel), PixelY(l, cell, pixel)) == pixel
  {
    var i, j := pixel % l.pixelsHor, pixel / l.pixelsHor;
    DivBelow(pixel, l.pixelsHor, l.pixelsVert);
    DivMod(PixelX(l, cell, pixel), l.pixelsHor, CellX(l, cell), i);
    DivMod(PixelY(l, cell, pixel), l.pixelsVert, CellY(l, cell), j);
  }

  lemma {:induction false} RenderMapInjective(l: Layout, c1: nat, p1: nat, c2: nat, p2: nat)
    requires Valid(l) && c1 < Cells(l) && p1 < Pixels(l) && c2 < Cells(l) && p2 < Pixels(l)
    requires PixelX(l, c1, p1) == PixelX(l, c2, p2) && PixelY(l, c1, p1) == PixelY(l, c2, p2)
    ensures c1 == c2 && p1 == p2
  {
    RenderMapRoundTrip(l, c1, p1);
    RenderMapRoundTrip(l, c2, p2);
  }

  /** Every pixel of the covered area is rendered: by the tile and at the
      index the inverse map names. */
  lemma {:induction false} RenderMapOnto(l: Layout, px: nat, py: nat)
    requires Valid(l) && px < Width(l) && py < Height(l)
    ensures CellOf(l, px, py) < Cells(l) && PixelIndexOf(l, px, py) < Pixels(l)
    ensures PixelX(l, CellOf(l, px, py), PixelIndexOf(l, px, py)) == px
    ensures PixelY(l, CellOf(l, px, py), PixelIndexOf(l, px, py)) == py
  {
    DivBelow(px, l.pixelsHor, l.cellsHor);
    DivBelow(py, l.pixelsVert, l.cellsVert);
    Recombine(px, l.pixelsHor);
    Recombine(py, l.pixelsVert);
    TileCoords(l, CellOf(l, px, py), PixelIndexOf(l, px, py),
      px / l.pixelsHor, px % l.pixelsHor, py / l.pixelsVert, py % l.pixelsVert);
  }

  /** A cell and a pixel index assembled from tile coordinates and in-tile
      coordinates are in range and render the pixel those coordinates name. */
  lemma {:induction false} TileCoords(l: Layout, cell: nat, pixel: nat, qx: nat, rx: nat, qy: nat, ry: nat)
    requires Valid(l) && qx < l.cellsHor && qy < l.cellsVert && rx < l.pixelsHor && ry < l.pixelsVert
    requires cell == qy * l.cellsHor + qx && pixel == ry * l.pixelsHor + rx
    ensures cell < Cells(l) && pixel < Pixels(l)
    ensures PixelX(l, cell, pixel) == rx + qx * l.pixelsHor
    ensures PixelY(l, cell, pixel) == ry + qy * l.pixelsVert
  {
    GridBelow(qx, qy, l.cellsHor, l.cellsVert);
    GridBelow(rx, ry, l.pixelsHor, l.pixelsVert);
    DivMod(cell, l.cellsHor, qy, qx);
    DivMod(pixel, l.pixelsHor, ry, rx);
  }

  /** Within a tile, the next pixel index is the next pixel to the right,
      or, at the end of a row, the first pixel of the next row. */
  lemma {:induction false} RowMajorStep(l: Layout, cell: nat, pixel: nat)
    requires Valid(l)
    ensures (pixel + 1) % l.pixelsHor != 0 ==>
      PixelX(l, cell, pixel + 1) == PixelX(l, cell, pixel) + 1
      && PixelY(l, cell, pixel + 1) == PixelY(l, cell, pixel)
    ensures (pixel + 1) % l.pixelsHor == 0 ==>
      PixelX(l, cell, pixel + 1) == CellX(l, cell) * l.pixelsHor
      && PixelY(l, cell, pixel + 1) == PixelY(l, cell, pixel) + 1
  {
    var i, j := pixel % l.pixelsHor, pixel / l.pixelsHor;
    if i + 1 < l.pixelsHor {
      DivMod(pixel + 1, l.pixelsHor, j, i + 1);
    } else {
      DivMod(pixel + 1, l.pixelsHor, j + 1, 0);
    }
  }

  /** Where tile `cell`'s first pixel lands. */
  function TileOrigin(l: Layout, cell: nat): (nat, nat)
    requires Valid(l)
  {
    (PixelX(l, cell, 0), PixelY(l, cell, 0))
  }

  /** The merge loop's cell `y * cellsHor + x` is the tile in column `x` and
      row `y`, and the merge places it at `(x * pixelsHor, y * pixelsVert)`,
      which is exactly where rendering put that tile's first pixel. */
  lemma {:induction false} MergeOriginIsRenderOrigin(l: Layout, x: nat, y: nat)
    requires Valid(l) && x < l.cellsHor && y < l.cellsVert
    ensures y * l.cellsHor + x < Cells(l)
    ensures CellX(l, y * l.cellsHor + x) == x && CellY(l, y * l.cellsHor + x) == y
    ensures TileOrigin(l, y * l.cellsHor + x) == (x * l.pixelsHor, y * l.pixelsVert)
  {
    GridBelow(x, y, l.cellsHor, l.cellsVert);
    DivMod(y * l.cellsHor + x, l.cellsHor, y, x);
  }
}
