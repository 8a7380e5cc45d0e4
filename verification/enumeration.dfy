/** The order in which the nested loops visit the grid: `for i in
    0..columns { for j in 0..rows { … } }`, so every row of column 0, then
    every row of column 1, and so on. */
module Enumeration {
  import opened Grid
  import Arith

  /** A grid position: 0-based column and row. */
  datatype Cell = Cell(column: u32, row: u32)

  /** Rows `0 .. n` of column `i`, ascending: one run of the inner loop. */
  function ColumnCells(i: u32, n: nat): (c: seq<Cell>)
    requires n <= 0x1_0000_0000
    ensures |c| == n
    ensures forall k :: 0 <= k < n ==> c[k] == Cell(i, k as u32)
  {
    if n == 0 then [] else ColumnCells(i, n - 1) + [Cell(i, (n - 1) as u32)]
  }

  /** Every row of columns `0 .. m`, column after column: `m` runs of the
      outer loop. */
  function GridCells(rows: u32, m: nat): (c: seq<Cell>)
    requires m <= 0x1_0000_0000
    ensures forall k :: 0 <= k < |c| ==> c[k].column as nat < m && c[k].row < rows
  {
    if m == 0 then [] else GridCells(rows, m - 1) + ColumnCells((m - 1) as u32, rows as nat)
  }

  /** The cells of a `rows` by `columns` grid in visiting order. */
  function Cells(rows: u32, columns: u32): (c: seq<Cell>)
    ensures forall k :: 0 <= k < |c| ==> c[k].column < columns && c[k].row < rows
  {
    GridCells(rows, columns as nat)
  }

  /** Index of the first cell of column `i`: `i` full columns of `rows`
      cells come before it. Defined by repeated addition, so that the
      proofs about positions stay linear; `StartIsProduct` shows it is
      `i * rows`. */
  function Start(i: nat, rows: nat): nat {
    if i == 0 then 0 else Start(i - 1, rows) + rows
  }

  lemma {:induction false} StartIsProduct(i: nat, rows: nat)
    ensures Start(i, rows) == i * rows
  {
    if i > 0 {
      StartIsProduct(i - 1, rows);
      assert (i - 1) * rows + rows == i * rows;
    }
  }

  /** A later column starts at least one full column later. */
  lemma {:induction false} StartMono(i: nat, i': nat, rows: nat)
    requires i < i'
    ensures Start(i, rows) + rows <= Start(i', rows)
  {
    if i < i' - 1 {
      StartMono(i, i' - 1, rows);
    }
  }

  /** `m` columns hold `m * rows` cells. */
  lemma {:induction false} GridCellsLength(rows: u32, m: nat)
    requires m <= 0x1_0000_0000
    ensures |GridCells(rows, m)| == Start(m, rows as nat)
  {
    if m > 0 {
      GridCellsLength(rows, m - 1);
    }
  }

  /** Within the first `m` columns, cell `(i, j)` sits at index
      `Start(i) + j`. */
  lemma {:induction false} GridCellsAt(rows: u32, m: nat, i: u32, j: u32)
    requires m <= 0x1_0000_0000 && i as nat < m && j < rows
    ensures Start(i as nat, rows as nat) + j as nat < |GridCells(rows, m)|
    ensures GridCells(rows, m)[Start(i as nat, rows as nat) + j as nat] == Cell(i, j)
  {
    var prefix := GridCells(rows, m - 1);
    GridCellsLength(rows, m - 1);
    GridCellsLength(rows, m);
    if i as nat < m - 1 {
      StartMono(i as nat, m - 1, rows as nat);
      GridCellsAt(rows, m - 1, i, j);
    }
  }

  /** The grid has exactly `rows * columns` cells. */
  lemma CellsCount(rows: u32, columns: u32)
    ensures |Cells(rows, columns)| == rows as nat * columns as nat
  {
    GridCellsLength(rows, columns as nat);
    StartIsProduct(columns as nat, rows as nat);
  }

  /** The `k`-th cell visited is `(k / rows, k % rows)`. */
  lemma CellAt(rows: u32, columns: u32, k: nat)
    requires k < |Cells(rows, columns)|
    ensures rows > 0
    ensures Cells(rows, columns)[k].column as nat == k / rows as nat
    ensures Cells(rows, columns)[k].row as nat == k % rows as nat
  {
    var r := rows as nat;
    GridCellsLength(rows, columns as nat);
    assert r > 0 by {
      if r == 0 {
        StartIsProduct(columns as nat, r);
      }
    }
    var q := k / r;
    assert k == Start(q, r) + k % r by {
      Arith.DivBounds(k, r);
      StartIsProduct(q, r);
    }
    if q >= columns as nat {
      if q > columns as nat {
        StartMono(columns as nat, q, r);
      }
    }
    GridCellsAt(rows, columns as nat, q as u32, (k % r) as u32);
  }

  /** Cell `(i, j)` is visited at step `i * rows + j` and at no other step. */
  lemma CellVisitedOnce(rows: u32, columns: u32, i: u32, j: u32, k: nat)
    requires i < columns && j < rows
    ensures i as nat * rows as nat + j as nat < |Cells(rows, columns)|
    ensures Cells(rows, columns)[i as nat * rows as nat + j as nat] == Cell(i, j)
    ensures k < |Cells(rows, columns)| && Cells(rows, columns)[k] == Cell(i, j) ==>
              k == i as nat * rows as nat + j as nat
  {
    assert Start(i as nat, rows as nat) == i as nat * rows as nat by {
      StartIsProduct(i as nat, rows as nat);
    }
    GridCellsAt(rows, columns as nat, i, j);
    if k < |Cells(rows, columns)| && Cells(rows, columns)[k] == Cell(i, j) {
      CellAt(rows, columns, k);
      Arith.Recompose(k, rows as nat, i as nat, j as nat);
    }
  }

  /** Two different steps visit two different cells. */
  lemma CellsDistinct(rows: u32, columns: u32, k: nat, k': nat)
    requires k < |Cells(rows, columns)| && k' < |Cells(rows, columns)| && k != k'
    ensures Cells(rows, columns)[k] != Cells(rows, columns)[k']
  {
    var c := Cells(rows, columns)[k];
    CellVisitedOnce(rows, columns, c.column, c.row, k);
    CellVisitedOnce(rows, columns, c.column, c.row, k');
  }

  /** Earlier steps visit earlier columns, or the same column at a lower row. */
  lemma ColumnMajor(rows: u32, columns: u32, k: nat, k': nat)
    requires k < k' < |Cells(rows, columns)|
    ensures Cells(rows, columns)[k].column < Cells(rows, columns)[k'].column ||
            (Cells(rows, columns)[k].column == Cells(rows, columns)[k'].column &&
             Cells(rows, columns)[k].row < Cells(rows, columns)[k'].row)
  {
    var r := rows as nat;
    CellAt(rows, columns, k);
    CellAt(rows, columns, k');
    Arith.DivBounds(k, r);
    Arith.DivBounds(k', r);
    if k' / r < k / r {
      Arith.MulLtStep(k' / r, k / r, r);
    }
  }

  /** The cells of a three-column, two-row grid, in visiting order. */
  lemma ThreeColumnsTwoRows()
    ensures Cells(2, 3) == [Cell(0, 0), Cell(0, 1), Cell(1, 0), Cell(1, 1), Cell(2, 0), Cell(2, 1)]
  {
  }
}
