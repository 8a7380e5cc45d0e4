/** The grid arithmetic of the tiler: the size of one tile, the rectangle of
    each grid cell, and which pixels of the image each rectangle covers.
    Image dimensions, row and column counts and crop coordinates are Rust
    `u32` values. */
module Grid {
  import opened Outcome
  import Arith

  newtype u32 = x: int | 0 <= x < 0x1_0000_0000

  /** The image's pixel dimensions and the caller's row and column counts. */
  datatype Grid = Grid(imageWidth: u32, imageHeight: u32, rows: u32, columns: u32)

  /** The pixel dimensions shared by every tile. */
  datatype Size = Size(width: u32, height: u32)

  /** A crop rectangle: top-left corner and extent, in source pixels. */
  datatype Rect = Rect(x: u32, y: u32, width: u32, height: u32)

  /** `q` is the truncated quotient of `n` by `d`: `d` copies of `q` fit in
      `n`, and what is left over is less than `d`. */
  predicate IsFloorQuotient(q: u32, n: u32, d: u32) {
    q as int * d as int <= n as int < q as int * d as int + d as int
  }

  /** Rust's `u32` division truncates. */
  lemma QuotientIsFloor(n: u32, d: u32)
    requires d > 0
    ensures IsFloorQuotient(n / d, n, d)
  {
    Arith.DivBounds(n as nat, d as nat);
    assert (n / d) as int == n as int / d as int;
  }

  /** Tile width and height: the image width divided by the column count
      and the image height divided by the row count. A zero divisor has no
      tile size (the Rust division panics). */
  function TileSize(g: Grid): (r: Option<Size>)
    ensures r.Some? <==> g.rows > 0 && g.columns > 0
  {
    if g.columns == 0 || g.rows == 0 then None
    else Some(Size(g.imageWidth / g.columns, g.imageHeight / g.rows))
  }

  /** The tile size is the truncated quotient on both axes: `columns` tiles
      fit in the width and the pixels left over are fewer than `columns`;
      likewise for the height and `rows`. */
  lemma TileSizeIsFloor(g: Grid, size: Size)
    requires TileSize(g) == Some(size)
    ensures IsFloorQuotient(size.width, g.imageWidth, g.columns)
    ensures IsFloorQuotient(size.height, g.imageHeight, g.rows)
  {
    QuotientIsFloor(g.imageWidth, g.columns);
    QuotientIsFloor(g.imageHeight, g.rows);
  }

  /** The rectangle of column `i`, row `j` lies inside the image, so the
      `u32` products `i * w` and `j * h` do not overflow. */
  lemma {:induction false} CellInImage(g: Grid, size: Size, i: u32, j: u32)
    requires TileSize(g) == Some(size)
    requires i < g.columns && j < g.rows
    ensures 0 <= i as int * size.width as int
    ensures 0 <= j as int * size.height as int
    ensures i as int * size.width as int + size.width as int <= g.imageWidth as int
    ensures j as int * size.height as int + size.height as int <= g.imageHeight as int
  {
    TileSizeIsFloor(g, size);
    Arith.SpanInside(i as nat, g.columns as nat, size.width as nat, g.imageWidth as nat);
    Arith.SpanInside(j as nat, g.rows as nat, size.height as nat, g.imageHeight as nat);
  }

  /** The crop rectangle of column `i`, row `j`: its corner is `i` tile
      widths right of and `j` tile heights below the image's corner. */
  function CellRect(g: Grid, size: Size, i: u32, j: u32): (r: Rect)
    requires TileSize(g) == Some(size)
    requires i < g.columns && j < g.rows
    ensures r.width == size.width && r.height == size.height
    ensures r.x as int + r.width as int <= g.imageWidth as int
    ensures r.y as int + r.height as int <= g.imageHeight as int
  {
    CellInImage(g, size, i, j);
    Rect(i * size.width, j * size.height, size.width, size.height)
  }

  /** Pixel `(px, py)` lies in rectangle `r`. */
  predicate Contains(r: Rect, px: nat, py: nat) {
    r.x as int <= px < r.x as int + r.width as int &&
    r.y as int <= py < r.y as int + r.height as int
  }

  /** Along one axis: pixel `p` lies in the `i`-th span of width `w` exactly
      when `w` is positive and `p / w == i`. */
  lemma SpanContains(i: nat, w: nat, p: nat)
    ensures (i * w <= p < i * w + w) <==> (w > 0 && p / w == i)
  {
    if w > 0 {
      if i * w <= p < i * w + w {
        Arith.DivUnique(p, w, i);
      }
      if p / w == i {
        Arith.DivBounds(p, w);
      }
    }
  }

  /** A pixel lies in the rectangle of cell `(i, j)` exactly when tiles are
      non-empty and the pixel's coordinates divided by the tile size are
      `i` and `j`. */
  lemma CellContains(g: Grid, size: Size, i: u32, j: u32, px: nat, py: nat)
    requires TileSize(g) == Some(size)
    requires i < g.columns && j < g.rows
    ensures Contains(CellRect(g, size, i, j), px, py) <==>
              size.width > 0 && size.height > 0 &&
              px / size.width as int == i as int && py / size.height as int == j as int
  {
    SpanContains(i as nat, size.width as nat, px);
    SpanContains(j as nat, size.height as nat, py);
  }

  /** Rectangles of two different cells share no pixel. */
  lemma CellsDisjoint(g: Grid, size: Size, i: u32, j: u32, i': u32, j': u32, px: nat, py: nat)
    requires TileSize(g) == Some(size)
    requires i < g.columns && j < g.rows && i' < g.columns && j' < g.rows
    requires i != i' || j != j'
    ensures !(Contains(CellRect(g, size, i, j), px, py) && Contains(CellRect(g, size, i', j'), px, py))
  {
    CellContains(g, size, i, j, px, py);
    CellContains(g, size, i', j', px, py);
  }

  /** A pixel within the `i`-th column span and the `j`-th row span lies in
      the rectangle of cell `(i, j)`. */
  lemma PixelInCell(g: Grid, size: Size, i: u32, j: u32, px: nat, py: nat)
    requires TileSize(g) == Some(size)
    requires i < g.columns && j < g.rows
    requires i as int * size.width as int <= px < i as int * size.width as int + size.width as int
    requires j as int * size.height as int <= py < j as int * size.height as int + size.height as int
    ensures Contains(CellRect(g, size, i, j), px, py)
  {
  }

  /** Every pixel left of `columns * w` and above `rows * h` lies in some
      tile (by `CellContains`, the one of cell `(px / w, py / h)`). */
  lemma CoveredPixel(g: Grid, size: Size, px: nat, py: nat)
    requires TileSize(g) == Some(size)
    requires px < g.columns as int * size.width as int
    requires py < g.rows as int * size.height as int
    ensures exists i: u32, j: u32 :: i < g.columns && j < g.rows && Contains(CellRect(g, size, i, j), px, py)
  {
    var i := Arith.SpanIndex(px, g.columns as nat, size.width as nat);
    var j := Arith.SpanIndex(py, g.rows as nat, size.height as nat);
    PixelInCell(g, size, i as u32, j as u32, px, py);
  }

  /** The remainder pixels, right of `columns * w` or below `rows * h`,
      lie in no tile. */
  lemma DroppedPixel(g: Grid, size: Size, px: nat, py: nat)
    requires TileSize(g) == Some(size)
    requires px >= g.columns as int * size.width as int || py >= g.rows as int * size.height as int
    ensures forall i: u32, j: u32 | i < g.columns && j < g.rows :: !Contains(CellRect(g, size, i, j), px, py)
  {
    forall i: u32, j: u32 | i < g.columns && j < g.rows
      ensures !Contains(CellRect(g, size, i, j), px, py)
    {
      CellInImage(g, size, i, j);
      Arith.MulLtStep(i as nat, g.columns as nat, size.width as nat);
      Arith.MulLtStep(j as nat, g.rows as nat, size.height as nat);
    }
  }

  /** The sizes of two examples: a 1920x1080 image in a 2x2 grid gives
      960x540 tiles, and a 10x10 image in a 3x3 grid gives 3x3 tiles with
      one column and one row of pixels dropped. */
  lemma TileSizeExamples()
    ensures TileSize(Grid(1920, 1080, 2, 2)) == Some(Size(960, 540))
    ensures TileSize(Grid(10, 10, 3, 3)) == Some(Size(3, 3))
    ensures TileSize(Grid(10, 10, 0, 3)).None? && TileSize(Grid(10, 10, 3, 0)).None?
  {
  }
}
