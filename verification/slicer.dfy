/** The tiling loop of the program: every cell of the grid is cropped and
    saved, columns in the outer loop and rows in the inner loop, and the
    run stops at the first save that fails. */
module Slicer {
  import opened Outcome
  import opened Grid
  import opened Naming
  import opened Enumeration

  /** One crop-and-save step: the cell, its crop rectangle and its file name. */
  datatype Tile = Tile(column: u32, row: u32, rect: Rect, name: string)

  /** What the summary line reports: the tile count and the tile size. */
  datatype Summary = Summary(count: nat, tileWidth: u32, tileHeight: u32)

  /** Why a run stops: a zero row or column count, or the save of a tile
      failed (the image library's own error value is not modelled). */
  datatype SliceError = DivisionByZero | SaveFailed(tile: Tile)

  /** The tile of cell `c`: its crop has the tile size and lies inside the
      image, and it is saved under the cell's file name. */
  function MakeTile(g: Grid, size: Size, c: Cell): (t: Tile)
    requires TileSize(g) == Some(size)
    requires c.column < g.columns && c.row < g.rows
    ensures t.column == c.column && t.row == c.row
    ensures t.rect.width == size.width && t.rect.height == size.height
    ensures t.rect.x as int + t.rect.width as int <= g.imageWidth as int
    ensures t.rect.y as int + t.rect.height as int <= g.imageHeight as int
    ensures t.name == TileName(c.column, c.row)
  {
    Tile(c.column, c.row, CellRect(g, size, c.column, c.row), TileName(c.column, c.row))
  }

  /** Every tile of the grid, in the order the program visits the cells. */
  function Plan(g: Grid, size: Size): (plan: seq<Tile>)
    requires TileSize(g) == Some(size)
    ensures forall k :: 0 <= k < |plan| ==> plan[k].column < g.columns && plan[k].row < g.rows
  {
    var cells := Cells(g.rows, g.columns);
    seq(|cells|, k requires 0 <= k < |cells| => MakeTile(g, size, cells[k]))
  }

  /** The plan has `rows * columns` tiles. */
  lemma PlanCount(g: Grid, size: Size)
    requires TileSize(g) == Some(size)
    ensures |Plan(g, size)| == g.rows as nat * g.columns as nat
  {
    CellsCount(g.rows, g.columns);
  }

  /** The `k`-th tile of the plan is the one of cell `(k / rows, k % rows)`. */
  lemma PlanAt(g: Grid, size: Size, k: nat)
    requires TileSize(g) == Some(size)
    requires k < |Plan(g, size)|
    ensures Plan(g, size)[k].column as nat == k / g.rows as nat
    ensures Plan(g, size)[k].row as nat == k % g.rows as nat
    ensures Plan(g, size)[k] == MakeTile(g, size, Cell(Plan(g, size)[k].column, Plan(g, size)[k].row))
  {
    CellAt(g.rows, g.columns, k);
  }

  /** Step `Start(i) + j` of the plan is the tile of cell `(i, j)`. */
  lemma PlanStep(g: Grid, size: Size, i: u32, j: u32)
    requires TileSize(g) == Some(size)
    requires i < g.columns && j < g.rows
    ensures Start(i as nat, g.rows as nat) + j as nat < |Plan(g, size)|
    ensures Plan(g, size)[Start(i as nat, g.rows as nat) + j as nat] == MakeTile(g, size, Cell(i, j))
  {
    GridCellsAt(g.rows, g.columns as nat, i, j);
  }

  /** Every tile of the plan lies inside the image. */
  lemma PlanTileInImage(g: Grid, size: Size, k: nat)
    requires TileSize(g) == Some(size)
    requires k < |Plan(g, size)|
    ensures Plan(g, size)[k].rect.width == size.width && Plan(g, size)[k].rect.height == size.height
    ensures Plan(g, size)[k].rect.x as int + size.width as int <= g.imageWidth as int
    ensures Plan(g, size)[k].rect.y as int + size.height as int <= g.imageHeight as int
  {
  }

  /** Tiles of two different steps share no pixel. */
  lemma PlanTilesDisjoint(g: Grid, size: Size, k: nat, k': nat, px: nat, py: nat)
    requires TileSize(g) == Some(size)
    requires k < |Plan(g, size)| && k' < |Plan(g, size)| && k != k'
    ensures !(Contains(Plan(g, size)[k].rect, px, py) && Contains(Plan(g, size)[k'].rect, px, py))
  {
    var t, t' := Plan(g, size)[k], Plan(g, size)[k'];
    CellsDistinct(g.rows, g.columns, k, k');
    CellsDisjoint(g, size, t.column, t.row, t'.column, t'.row, px, py);
  }

  /** No two tiles of the plan have the same file name. */
  lemma PlanNamesDistinct(g: Grid, size: Size, k: nat, k': nat)
    requires TileSize(g) == Some(size)
    requires k < |Plan(g, size)| && k' < |Plan(g, size)| && k != k'
    ensures Plan(g, size)[k].name != Plan(g, size)[k'].name
  {
    var t, t' := Plan(g, size)[k], Plan(g, size)[k'];
    CellsDistinct(g.rows, g.columns, k, k');
    NamesDistinct(t.column, t.row, t'.column, t'.row);
  }

  /** The index of the first tile whose save fails, or `|tiles|` when every
      save succeeds. */
  function FirstFailure(tiles: seq<Tile>, saves: Tile -> bool): (n: nat)
    ensures n <= |tiles|
    ensures forall k :: 0 <= k < n ==> saves(tiles[k])
    ensures n < |tiles| ==> !saves(tiles[n])
  {
    if tiles == [] || !saves(tiles[0]) then 0 else 1 + FirstFailure(tiles[1..], saves)
  }

  lemma PrefixExtend(s: seq<Tile>, n: nat)
    requires n < |s|
    ensures s[..n + 1] == s[..n] + [s[n]]
  {
  }

  /** `FirstFailure` is the only index before which every save succeeds
      and at which one fails (or the end). */
  lemma FirstFailureAt(tiles: seq<Tile>, saves: Tile -> bool, n: nat)
    requires n <= |tiles|
    requires forall t :: t in tiles[..n] ==> saves(t)
    requires n < |tiles| ==> !saves(tiles[n])
    ensures FirstFailure(tiles, saves) == n
  {
  }

  /** Cuts the image described by `g` into its grid of tiles and saves each
      one; `saves(t)` is whether writing tile `t` to disk succeeds. The
      result is the summary, or the first error; `written` are the tiles
      saved, in order. */
  method Slice(g: Grid, saves: Tile -> bool) returns (outcome: Result<Summary, SliceError>, written: seq<Tile>)
    ensures TileSize(g).None? ==> outcome == Err(DivisionByZero) && written == []
    ensures TileSize(g).Some? ==>
              var size := TileSize(g).value;
              var plan := Plan(g, size);
              var n := FirstFailure(plan, saves);
              written == plan[..n] &&
              outcome == if n < |plan| then Err(SaveFailed(plan[n]))
                         else Ok(Summary(|plan|, size.width, size.height))
  {
    var tileSize := TileSize(g);
    if tileSize.None? {
      return Err(DivisionByZero), [];
    }
    var size := tileSize.value;
    ghost var plan := Plan(g, size);
    ghost var rows := g.rows as nat;
    GridCellsLength(g.rows, g.columns as nat);
    written := [];
    var i: u32 := 0;
    while i < g.columns
      invariant i <= g.columns
      invariant |written| == Start(i as nat, rows) <= |plan|
      invariant written == plan[..|written|]
      invariant forall t :: t in written ==> saves(t)
    {
      StartMono(i as nat, g.columns as nat, rows);
      var j: u32 := 0;
      while j < g.rows
        invariant j <= g.rows
        invariant |written| == Start(i as nat, rows) + j as nat
        invariant written == plan[..|written|]
        invariant forall t :: t in written ==> saves(t)
      {
        var tile := MakeTile(g, size, Cell(i, j));
        PlanStep(g, size, i, j);
        PrefixExtend(plan, |written|);
        if !saves(tile) {
          FirstFailureAt(plan, saves, |written|);
          outcome := Err(SaveFailed(tile));
          return;
        }
        written := written + [tile];
        j := j + 1;
      }
      i := i + 1;
    }
    PlanCount(g, size);
    FirstFailureAt(plan, saves, |written|);
    outcome := Ok(Summary(g.rows as nat * g.columns as nat, size.width, size.height));
  }

  /** The tile count of the summary line as the program computes it: the
      `u32` product `rows * columns`, which a release build wraps modulo
      2^32 (a debug build panics instead). */
  function SummaryCountAsWritten(g: Grid): (count: u32)
    ensures count as int <= g.rows as int * g.columns as int
    ensures g.rows as int * g.columns as int < 0x1_0000_0000 ==> count as int == g.rows as int * g.columns as int
  {
    ((g.rows as int * g.columns as int) % 0x1_0000_0000) as u32
  }

  /** The reported count equals the number of tiles exactly when there are
      fewer than 2^32 of them. */
  lemma SummaryCountAsWrittenExact(g: Grid, size: Size)
    requires TileSize(g) == Some(size)
    ensures SummaryCountAsWritten(g) as nat == |Plan(g, size)| <==> |Plan(g, size)| < 0x1_0000_0000
  {
    PlanCount(g, size);
  }

  /** A 65536 by 65536 grid over a 65536 by 65536 image has 2^32 tiles of
      one pixel, and the summary reports 0. */
  lemma SummaryCountAsWrittenWraps()
    ensures TileSize(Grid(65536, 65536, 65536, 65536)) == Some(Size(1, 1))
    ensures |Plan(Grid(65536, 65536, 65536, 65536), Size(1, 1))| == 0x1_0000_0000
    ensures SummaryCountAsWritten(Grid(65536, 65536, 65536, 65536)) == 0
  {
    PlanCount(Grid(65536, 65536, 65536, 65536), Size(1, 1));
  }
}
