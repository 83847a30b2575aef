/**
 * The per-column floor level: the lowest row from which a column is empty up
 * to the top. `CheckGridFloorLevels` computes it by scanning each column from
 * the top row down while the cells are empty.
 */
module Floors {
  import opened Wrappers
  import opened Helpers
  import opened Grid

  /**
   * The floor the top-down scan of `column` ends with when it reaches `row`
   * holding `floor` so far: every empty cell it passes becomes the floor, and
   * the first occupied cell (or the bottom edge) stops it.
   */
  function FloorScan(g: seq<GridCell>, cols: int, rows: int, column: int, row: int, floor: int): int
    requires |g| == cols * rows && 0 <= column < cols && row < rows
    decreases row + 1
  {
    if row < 0 then floor
    else if Occupant(g, cols, rows, column, row).Some? then floor
    else FloorScan(g, cols, rows, column, row - 1, row)
  }

  /** The floor `CheckGridFloorLevels` stores for `column`; it starts the scan at the top row with -1. */
  function ColumnFloor(g: seq<GridCell>, cols: int, rows: int, column: int): int
    requires |g| == cols * rows && 0 <= column < cols
  {
    FloorScan(g, cols, rows, column, rows - 1, -1)
  }

  /** Rows `from` up to the top of `column` are all empty. */
  predicate EmptyFrom(g: seq<GridCell>, cols: int, rows: int, column: int, from: int)
    requires |g| == cols * rows && 0 <= column < cols
  {
    forall r :: 0 <= r < rows && from <= r ==> Occupant(g, cols, rows, column, r).None?
  }

  lemma {:induction false} FloorScanMeaning(g: seq<GridCell>, cols: int, rows: int, column: int, row: int, floor: int)
    requires |g| == cols * rows && 0 <= column < cols && -1 <= row < rows
    requires EmptyFrom(g, cols, rows, column, row + 1)
    requires floor == row + 1 || (floor == -1 && row == rows - 1)
    ensures var f := FloorScan(g, cols, rows, column, row, floor);
      && (f == -1 <==> floor == -1 && (row < 0 || Occupant(g, cols, rows, column, row).Some?))
      && (f != -1 ==> 0 <= f <= row + 1 && EmptyFrom(g, cols, rows, column, f)
                      && (f == 0 || Occupant(g, cols, rows, column, f - 1).Some?))
    decreases row + 1
  {
    if row >= 0 && Occupant(g, cols, rows, column, row).None? {
      FloorScanMeaning(g, cols, rows, column, row - 1, row);
    }
  }

  /**
   * What the stored floor means: -1 exactly when the top cell is occupied
   * (or the grid has no rows); otherwise a row from which the column is empty
   * to the top, with either row 0 or an occupied cell just below it — so 0 for
   * an empty column and one above the topmost block otherwise.
   */
  lemma ColumnFloorMeaning(g: seq<GridCell>, cols: int, rows: int, column: int)
    requires |g| == cols * rows && 0 <= column < cols
    ensures var f := ColumnFloor(g, cols, rows, column);
      && (f == -1 <==> rows <= 0 || Occupant(g, cols, rows, column, rows - 1).Some?)
      && (f != -1 ==> 0 <= f < rows && EmptyFrom(g, cols, rows, column, f)
                      && (f == 0 || Occupant(g, cols, rows, column, f - 1).Some?))
  {
    FloorScanMeaning(g, cols, rows, column, rows - 1, -1);
  }

  /** A column whose rows below `h` are all occupied and the rest empty has floor `h` (when `h` is below the top). */
  lemma ColumnFloorOfFilled(g: seq<GridCell>, cols: int, rows: int, column: int, h: int)
    requires |g| == cols * rows && 0 <= column < cols && 0 <= h < rows
    requires forall r :: 0 <= r < h ==> Occupant(g, cols, rows, column, r).Some?
    requires EmptyFrom(g, cols, rows, column, h)
    ensures ColumnFloor(g, cols, rows, column) == h
  {
    ColumnFloorMeaning(g, cols, rows, column);
    var f := ColumnFloor(g, cols, rows, column);
    var atFloor := Occupant(g, cols, rows, column, f);
  }
}
