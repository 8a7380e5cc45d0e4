# Grid tiling of an image, in Dafny

This project models the tiling arithmetic of `crop`, a command-line program
that cuts one raster image into a `rows` by `columns` grid of equally sized
tiles and saves each tile as `subimage_<column>_<row>.jpg`. The program:

- computes the tile size by truncating `u32` division, `width / columns` and
  `height / rows`;
- visits the grid with two nested loops, columns outside and rows inside;
- crops the rectangle whose corner is `(i * w, j * h)`;
- saves each tile under a 1-based, column-first name;
- stops at the first failing save, and otherwise prints how many tiles it
  wrote.

Modules:

- `Grid` (`grid.dfy`): the `u32` type, the tile size (`TileSize`, with the
  zero-divisor case as `None`), the crop rectangle of a cell (`CellRect`),
  and which pixels each rectangle covers.
- `Enumeration` (`enumeration.dfy`): the order in which the nested loops
  visit the cells, and where each cell sits in that order.
- `Decimal` and `Naming` (`decimal.dfy`, `naming.dfy`): the decimal
  formatting of the indices, and the tile file name with a parser that
  inverts it.
- `Slicer` (`slicer.dfy`): the tile records, the full plan of tiles, and the
  method `Slice`. `Slice` runs the nested loops and stops at the first save
  that fails.
- `Outcome` and `Arith`: the Option and Result types, and helper facts about
  multiplication and division.

The image library is not part of this model. The image's pixel dimensions
come in as `Grid.imageWidth` and `Grid.imageHeight`. Whether saving a tile
succeeds comes in as the parameter `saves: Tile -> bool` of `Slice`.

## Model

| member | source | states |
|---|---|---|
| `Grid.TileSize` | src/main.rs:27-28 | a tile size exists exactly when `rows > 0` and `columns > 0`; otherwise it is `None`, the division by zero at which the program panics |
| `Grid.TileSizeIsFloor` | src/main.rs:27-28 | the tile width is the truncated quotient: `columns * w <= width < columns * w + columns`, and the same for height and rows, so fewer than `columns` (resp. `rows`) pixels are left over |
| `Grid.TileSizeExamples` | src/main.rs:27-28 | 1920x1080 in a 2x2 grid gives 960x540 tiles; 10x10 in a 3x3 grid gives 3x3 tiles; zero rows or zero columns give no size |
| `Grid.CellInImage` | src/main.rs:36-37 | for `i < columns`, `j < rows`: `i*w + w <= width` and `j*h + h <= height`, so the `u32` origin products never overflow |
| `Grid.CellRect` | src/main.rs:36-39 | the crop rectangle of a cell has the tile size and lies inside the image |
| `Grid.CellContains` | src/main.rs:36-39 | a pixel lies in cell `(i, j)`'s rectangle if and only if tiles are non-empty and `px / w == i` and `py / h == j` |
| `Grid.CellsDisjoint` | src/main.rs:36-39 | rectangles of two different cells share no pixel |
| `Grid.PixelInCell` | src/main.rs:36-39 | a pixel within column span `i` and row span `j` lies in cell `(i, j)`'s rectangle |
| `Grid.CoveredPixel` | src/main.rs:27-28 | every pixel with `px < columns*w` and `py < rows*h` lies in some tile |
| `Grid.DroppedPixel` | src/main.rs:27-28 | every remainder pixel, at or beyond `columns*w` or `rows*h`, lies in no tile |
| `Enumeration.ColumnCells` | src/main.rs:35 | one run of the inner loop visits rows `0 .. n` of column `i`, ascending |
| `Enumeration.GridCells` | src/main.rs:34-35 | every cell visited by the first `m` outer iterations has a column below `m` and a row below `rows` |
| `Enumeration.Cells` | src/main.rs:34-35 | every visited cell lies in the grid |
| `Enumeration.CellsCount` | src/main.rs:34-35 | the loops visit exactly `rows * columns` cells |
| `Enumeration.CellAt` | src/main.rs:34-35 | the `k`-th visited cell is `(k / rows, k % rows)` |
| `Enumeration.CellVisitedOnce` | src/main.rs:34-35 | cell `(i, j)` is visited at step `i * rows + j` and at no other step |
| `Enumeration.CellsDistinct` | src/main.rs:34-35 | two different steps visit two different cells |
| `Enumeration.ColumnMajor` | src/main.rs:34-35 | an earlier step visits an earlier column, or the same column at a lower row |
| `Enumeration.ThreeColumnsTwoRows` | src/main.rs:34-35 | with 3 columns and 2 rows the visiting order is (0,0), (0,1), (1,0), (1,1), (2,0), (2,1) |
| `Decimal.Show` | src/main.rs:41 | the decimal text of an index, as `{}` formats a `u32`: a non-empty run of digits with no leading zero for positive values, of length 1 exactly for values below 10 |
| `Decimal.ParseShow` | src/main.rs:41 | reading the decimal text of `n` back gives `n` |
| `Decimal.ShowParse` | src/main.rs:41 | a numeral without a leading zero is the decimal text of its value, so each number has exactly one such text |
| `Naming.TileName` | src/main.rs:41 | a tile name starts with `subimage_` and ends with `.jpg`; the `u32` increments `i + 1` and `j + 1` cannot overflow for cells of the grid |
| `Naming.NameRoundTrip` | src/main.rs:41 | parsing the name of cell `(i, j)` gives back `(i, j)`: the name holds `i + 1` then `j + 1`, column first |
| `Naming.ParsedNameIsTileName` | src/main.rs:41 | the only text that parses as cell `(i, j)` is `TileName(i, j)` |
| `Naming.NameIff` | src/main.rs:41 | a text parses as cell `(i, j)` if and only if it is the file name of that cell |
| `Naming.NamesDistinct` | src/main.rs:41 | different cells get different file names |
| `Naming.NameExamples` | src/main.rs:41 | cell (0, 0) is `subimage_1_1.jpg` and cell (2, 1) is `subimage_3_2.jpg` |
| `Naming.LeadingZeroRejected` | src/main.rs:41 | `subimage_01_1.jpg` is not the name of any cell, because `{}` never writes a leading zero |
| `Slicer.MakeTile` | src/main.rs:36-41 | the tile one inner iteration builds keeps its cell, has the tile size, lies inside the image, and is saved under the cell's file name |
| `Slicer.Plan` | src/main.rs:34-41 | every tile of the loops' output, in visiting order, belongs to a cell of the grid |
| `Slicer.PlanCount` | src/main.rs:34-35 | the plan holds `rows * columns` tiles |
| `Slicer.PlanAt` | src/main.rs:34-41 | the `k`-th tile of the plan is cell `(k / rows, k % rows)`, and the tile is determined by its cell |
| `Slicer.PlanTileInImage` | src/main.rs:36-39 | every planned crop has the tile size and lies inside the image |
| `Slicer.PlanTilesDisjoint` | src/main.rs:36-39 | the crops of two different steps share no pixel |
| `Slicer.PlanNamesDistinct` | src/main.rs:41-42 | two different steps save under two different names, so no tile overwrites another |
| `Slicer.FirstFailure` | src/main.rs:42 | every save before the returned index succeeds, and the save at the index fails (or the index is the end) |
| `Slicer.Slice` | src/main.rs:27-44 | zero rows or columns give `DivisionByZero` and no tiles; otherwise the tiles written are the plan up to the first failing save; a failed save returns `SaveFailed` with that tile; a full run returns the summary with count `rows * columns` and the tile size |
| `Slicer.SummaryCountAsWritten` | src/main.rs:49 | the count as the program computes it, the `u32` product `rows * columns` wrapped modulo 2^32: never above the true product, and equal to it when the product is below 2^32 |
| `Slicer.SummaryCountAsWrittenExact` | src/main.rs:49 | the count the program prints (a `u32` product) equals the number of tiles if and only if there are fewer than 2^32 tiles |
| `Slicer.SummaryCountAsWrittenWraps` | src/main.rs:49 | a 65536 by 65536 grid on a 65536 by 65536 image has 2^32 tiles, and the printed count wraps to 0 |

## Left out

- Command-line handling (src/main.rs:8-13, 23-24): the argument count check, the usage message, exit status 1, and parsing `rows` and `columns` as `u32`. The grid counts are taken as `u32` inputs.
- Image decoding (src/main.rs:17, 20): this is a call into the image library. Its failure is not modelled. The image's width and height are inputs.
- Pixel cropping and JPEG encoding (src/main.rs:39, 42): these are calls into the image library. A crop is modelled only as its rectangle. The image library's crop clamps rectangles to the image, and the model proves that no clamping ever happens. A save is modelled only as success or failure, given by the `saves` parameter.
- Slice: the error value a failed save returns is the tile, not the image library's error.
- `create_output_dir` (src/main.rs:31, 56-61): creating the directory and taking the path's file stem are filesystem and library calls. Their failures, and joining the directory to the tile name, are not modelled.
- The summary line's text (src/main.rs:46-52): only the values it prints are modelled. They are in `Summary`.
- Tiles of width or height 0 (width < columns, or height < rows): these are planned and saved like any other tile, as the program does. Whether the image library can save an empty tile is part of `saves`.
- SummaryCountAsWritten: models the release-build wrap-around of `rows * columns`. A debug build panics there instead.

## Findings

| source | as written | input that shows it | evidently intended | confidence | as-written member | corrected member |
|---|---|---|---|---|---|---|
| src/main.rs:49 | the tile count in the summary is `rows * columns` in `u32`, which overflows once the grid has 2^32 or more cells: it panics in a debug build and wraps in a release build | rows = columns = 65536 with every save succeeding: 2^32 tiles are written, and the printed count is 0 (release) | print the number of tiles written, `rows * columns` computed without overflow | low, not executed: reaching line 49 takes 2^32 successful saves | `Slicer.SummaryCountAsWrittenWraps` | `Slicer.Slice` |
