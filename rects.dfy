/** The rectangles both pipelines emit, one per filled cell of the final
    grid, in row-major order. */
module Rects {
  import opened Columns

  /** An SVG `rect`: position, and a size that may be fractional because the
      spacing subtracted from it may be. */
  datatype Rect = Rect(x: int, y: int, width: real, height: real)

  /** The rectangle drawn for a block: placed at the block, inset by
      `spacing` on its right and bottom edges. */
  function RectOf(c: Column, blockHeight: int, spacing: real): (r: Rect) {
    Rect(c.startX, c.startY, c.blockWidth as real - spacing, blockHeight as real - spacing)
  }

  /** The filled columns of a row, in order. */
  function FilledInRow(row: seq<Column>): (filled: seq<Column>) {
    if row == [] then []
    else FilledInRow(row[..|row| - 1]) + (if row[|row| - 1].fill then [row[|row| - 1]] else [])
  }

  /** The filled columns of a grid, row after row. */
  function FilledCells(grid: seq<seq<Column>>): (filled: seq<Column>) {
    if grid == [] then []
    else FilledCells(grid[..|grid| - 1]) + FilledInRow(grid[|grid| - 1])
  }

  /** All the columns of a grid, row after row. */
  function Flatten(grid: seq<seq<Column>>): (cells: seq<Column>) {
    if grid == [] then [] else Flatten(grid[..|grid| - 1]) + grid[|grid| - 1]
  }

  /** Scanning one more column of a row adds it when it is filled. */
  lemma FilledInRowSnoc(row: seq<Column>, x: nat)
    requires x < |row|
    ensures FilledInRow(row[..x + 1]) == FilledInRow(row[..x]) + if row[x].fill then [row[x]] else []
  {
    assert row[..x + 1][..x] == row[..x];
  }

  lemma FilledCellsSnoc(grid: seq<seq<Column>>, y: nat)
    requires y < |grid|
    ensures FilledCells(grid[..y + 1]) == FilledCells(grid[..y]) + FilledInRow(grid[y])
  {
    assert grid[..y + 1][..y] == grid[..y];
  }

  /** The filled cells of a row are exactly its columns with `fill` set. */
  lemma {:induction false} FilledInRowMembers(row: seq<Column>)
    ensures forall c :: c in FilledInRow(row) <==> c in row && c.fill
  {
    if row != [] {
      FilledInRowMembers(row[..|row| - 1]);
      assert row == row[..|row| - 1] + [row[|row| - 1]];
    }
  }

  /** A row whose every column is filled contributes all of its columns. */
  lemma {:induction false} FilledInRowAll(row: seq<Column>)
    requires forall x | 0 <= x < |row| :: row[x].fill
    ensures FilledInRow(row) == row
  {
    if row != [] {
      FilledInRowAll(row[..|row| - 1]);
      assert row == row[..|row| - 1] + [row[|row| - 1]];
    }
  }

  /** When every cell is filled, one rectangle is drawn per cell, in
      row-major order. */
  lemma {:induction false} FilledCellsAll(grid: seq<seq<Column>>)
    requires forall y, x | 0 <= y < |grid| && 0 <= x < |grid[y]| :: grid[y][x].fill
    ensures FilledCells(grid) == Flatten(grid)
  {
    if grid != [] {
      FilledCellsAll(grid[..|grid| - 1]);
      FilledInRowAll(grid[|grid| - 1]);
    }
  }

  /** A grid whose rows are all empty draws nothing. */
  lemma {:induction false} FilledCellsEmpty(grid: seq<seq<Column>>)
    requires forall y | 0 <= y < |grid| :: grid[y] == []
    ensures FilledCells(grid) == []
  {
    if grid != [] {
      FilledCellsEmpty(grid[..|grid| - 1]);
    }
  }
}
