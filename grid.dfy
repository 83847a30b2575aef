/**
 * The playfield grid as a value: `cols * rows` cells stored bottom row first
 * (cell `row * cols + column`), each holding the type id of its block, if any.
 * This module holds the specification functions the game mode's loops are
 * proved against, and the lemmas that say what those functions mean.
 */
module Grid {
  import opened Wrappers
  import opened Helpers

  /** (column, row) lies inside a `cols` by `rows` grid. */
  predicate InGrid(cols: int, rows: int, column: int, row: int) {
    0 <= column < cols && 0 <= row < rows
  }

  /** A product of a positive number with a number of at least 1 is at least the first. */
  lemma MulAtLeast(c: int, a: int)
    requires c > 0 && a >= 1
    ensures c * a >= c
  {
    assert c * a == c + c * (a - 1);
    assert c * (a - 1) >= 0;
  }

  /** Integer division is determined by a quotient and an in-range remainder. */
  lemma DivModUnique(i: int, cols: int, q: int, r: int)
    requires cols > 0 && 0 <= r < cols && i == cols * q + r
    ensures i / cols == q && i % cols == r
  {
    var q', r' := i / cols, i % cols;
    assert cols * (q' - q) == r - r';
    if q' > q {
      MulAtLeast(cols, q' - q);
    } else if q' < q {
      MulAtLeast(cols, q - q');
    }
  }

  /** Division facts for a cell index built from an in-range column and row. */
  lemma IndexDivMod(cols: int, rows: int, column: int, row: int)
    requires InGrid(cols, rows, column, row)
    ensures 0 <= cols * row + column < cols * rows
    ensures (cols * row + column) / cols == row
    ensures (cols * row + column) % cols == column
  {
    assert cols * row >= 0;
    assert cols * (row + 1) == cols * row + cols;
    MulAtLeast(cols, rows - row);
    assert cols * rows == cols * (row + 1) + cols * (rows - row - 1);
    assert cols * (rows - row - 1) >= 0;
    DivModUnique(cols * row + column, cols, row, column);
  }

  /**
   * `GetCellIndex`: the storage index of (column, row), or -1 when the cell is
   * outside the grid.
   */
  function CellIndex(cols: int, rows: int, column: int, row: int): (i: int)
    ensures i != -1 <==> InGrid(cols, rows, column, row)
    ensures i != -1 ==> 0 <= i < cols * rows
  {
    if column < 0 || column >= cols then -1
    else if row < 0 || row >= rows then -1
    else IndexDivMod(cols, rows, column, row); cols * row + column
  }

  /** Division facts for an in-range cell index. */
  lemma DivModInRange(cols: int, rows: int, i: int)
    requires 0 <= i < cols * rows && cols > 0
    ensures 0 <= i / cols < rows && 0 <= i % cols < cols
    ensures cols * (i / cols) + i % cols == i
  {
    var q, r := i / cols, i % cols;
    assert i == cols * q + r;
    if q >= rows {
      assert false;
    }
    if q < 0 {
      MulAtLeast(cols, -q);
      assert false;
    }
  }

  /**
   * `GetColumnRowFromCellIndex` on a grid of `cols * rows` cells: the column and
   * row of an in-range index, or (-1, -1).
   */
  function ColumnRow(cols: int, rows: int, i: int): (cr: (int, int))
    requires cols >= 0
    ensures 0 <= i < cols * rows ==> InGrid(cols, rows, cr.0, cr.1) && CellIndex(cols, rows, cr.0, cr.1) == i
    ensures !(0 <= i < cols * rows) ==> cr == (-1, -1)
  {
    if 0 <= i < cols * rows then
      assert cols != 0;
      DivModInRange(cols, rows, i);
      (i % cols, i / cols)
    else
      (-1, -1)
  }

  /** Converting a cell to its index and back gives the cell. */
  lemma CellIndexRoundTrip(cols: int, rows: int, column: int, row: int)
    requires InGrid(cols, rows, column, row)
    ensures ColumnRow(cols, rows, CellIndex(cols, rows, column, row)) == (column, row)
  {
    IndexDivMod(cols, rows, column, row);
  }

  /** Two in-range cells share an index only if they are the same cell. */
  lemma CellIndexInjective(cols: int, rows: int, c1: int, r1: int, c2: int, r2: int)
    requires InGrid(cols, rows, c1, r1) && InGrid(cols, rows, c2, r2)
    requires CellIndex(cols, rows, c1, r1) == CellIndex(cols, rows, c2, r2)
    ensures c1 == c2 && r1 == r2
  {
    IndexDivMod(cols, rows, c1, r1);
    IndexDivMod(cols, rows, c2, r2);
  }

  /**
   * The tile-map cell drawn for storage index `i`: the tile map counts rows
   * from the top, the storage from the bottom.
   */
  function TileMapCell(cols: int, rows: int, i: int): (int, int)
    requires cols > 0
  {
    (i % cols, rows - 1 - i / cols)
  }

  /** The tile-map cell of the next index: one column on, or the first column of the row below. */
  lemma TileMapNext(cols: int, rows: int, i: int)
    requires cols > 0 && 0 <= i
    ensures TileMapCell(cols, rows, i + 1) ==
      if TileMapCell(cols, rows, i).0 + 1 == cols then (0, TileMapCell(cols, rows, i).1 - 1)
      else (TileMapCell(cols, rows, i).0 + 1, TileMapCell(cols, rows, i).1)
  {
    var q, r := i / cols, i % cols;
    if r + 1 == cols {
      DivModUnique(i + 1, cols, q + 1, 0);
    } else {
      DivModUnique(i + 1, cols, q, r + 1);
    }
  }

  /** Cell (column, row) is drawn at tile-map column `column` and row `rows - 1 - row`. */
  lemma TileMapFlipsRows(cols: int, rows: int, column: int, row: int)
    requires InGrid(cols, rows, column, row)
    ensures TileMapCell(cols, rows, CellIndex(cols, rows, column, row)) == (column, rows - 1 - row)
  {
    IndexDivMod(cols, rows, column, row);
  }

  /** The occupant of an in-range cell. */
  function Occupant(g: seq<GridCell>, cols: int, rows: int, column: int, row: int): Option<int>
    requires |g| == cols * rows && InGrid(cols, rows, column, row)
  {
    g[CellIndex(cols, rows, column, row)].occupant
  }

  /** The eight directions the match counters walk in. */
  datatype Direction = Left | Right | Up | Down | UpLeft | UpRight | DownLeft | DownRight {

    /** Column change of one step. */
    function DCol(): int {
      match this
      case Left | UpLeft | DownLeft => -1
      case Right | UpRight | DownRight => 1
      case Up | Down => 0
    }

    /** Row change of one step (rows grow upwards). */
    function DRow(): int {
      match this
      case Up | UpLeft | UpRight => 1
      case Down | DownLeft | DownRight => -1
      case Left | Right => 0
    }

    function Opposite(): (d: Direction)
      ensures d.DCol() == -DCol() && d.DRow() == -DRow()
    {
      match this
      case Left => Right
      case Right => Left
      case Up => Down
      case Down => Up
      case UpLeft => DownRight
      case DownRight => UpLeft
      case UpRight => DownLeft
      case DownLeft => UpRight
    }

    /**
     * The storage-index increment each counter applies per step, as written in
     * that counter; it is always the step in rows times `cols` plus the step in
     * columns.
     */
    function IndexStep(cols: int): (s: int)
      ensures s == DRow() * cols + DCol()
    {
      match this
      case Left => -1
      case Right => 1
      case Up => cols
      case Down => -cols
      case UpLeft => cols - 1
      case UpRight => cols + 1
      case DownLeft => -(cols + 1)
      case DownRight => 1 - cols
    }
  }

  /** Steps left before a walk from (column, row) in direction `d` leaves the grid; a termination measure. */
  function Span(cols: int, rows: int, column: int, row: int, d: Direction): int {
    (if d.DCol() > 0 then cols - column else if d.DCol() < 0 then column + 1 else 0)
    + (if d.DRow() > 0 then rows - row else if d.DRow() < 0 then row + 1 else 0)
  }

  /**
   * The number of consecutive cells holding type `t`, starting at (column, row)
   * itself and walking in direction `d`, up to an empty cell, a cell of another
   * type or the edge.
   */
  function RunFrom(g: seq<GridCell>, cols: int, rows: int, column: int, row: int, d: Direction, t: int): nat
    requires |g| == cols * rows
    decreases Span(cols, rows, column, row, d)
  {
    if InGrid(cols, rows, column, row) && Occupant(g, cols, rows, column, row) == Some(t) then
      1 + RunFrom(g, cols, rows, column + d.DCol(), row + d.DRow(), d, t)
    else
      0
  }

  /**
   * What a directional counter (`GetLeftMatch` ... `GetDownRightMatch`)
   * reports: the run of type `t` next to (column, row) in direction `d`, not
   * counting (column, row) itself.
   */
  function Run(g: seq<GridCell>, cols: int, rows: int, column: int, row: int, d: Direction, t: int): nat
    requires |g| == cols * rows
  {
    RunFrom(g, cols, rows, column + d.DCol(), row + d.DRow(), d, t)
  }

  /** The number of cells beyond (column, row) in direction `d` before the edge. */
  function Reach(cols: int, rows: int, column: int, row: int, d: Direction): int {
    var h := if d.DCol() < 0 then column else cols - 1 - column;
    var v := if d.DRow() < 0 then row else rows - 1 - row;
    if d.DCol() == 0 then v
    else if d.DRow() == 0 then h
    else if h < v then h else v
  }

  /** The k-th cell of a walk from (column, row) in direction `d`. */
  function WalkColumn(column: int, d: Direction, k: int): int {
    if d.DCol() > 0 then column + k else if d.DCol() < 0 then column - k else column
  }

  function WalkRow(row: int, d: Direction, k: int): int {
    if d.DRow() > 0 then row + k else if d.DRow() < 0 then row - k else row
  }

  /** Every cell the run covers lies in the grid and holds type `t`. */
  lemma {:induction false} RunFromCells(g: seq<GridCell>, cols: int, rows: int, column: int, row: int, d: Direction, t: int)
    requires |g| == cols * rows
    ensures forall k :: 0 <= k < RunFrom(g, cols, rows, column, row, d, t) ==>
      && InGrid(cols, rows, WalkColumn(column, d, k), WalkRow(row, d, k))
      && Occupant(g, cols, rows, WalkColumn(column, d, k), WalkRow(row, d, k)) == Some(t)
    decreases Span(cols, rows, column, row, d)
  {
    if InGrid(cols, rows, column, row) && Occupant(g, cols, rows, column, row) == Some(t) {
      var c1, r1 := column + d.DCol(), row + d.DRow();
      RunFromCells(g, cols, rows, c1, r1, d, t);
      forall k | 1 <= k < RunFrom(g, cols, rows, column, row, d, t)
        ensures WalkColumn(column, d, k) == WalkColumn(c1, d, k - 1)
        ensures WalkRow(row, d, k) == WalkRow(r1, d, k - 1)
      {
      }
    }
  }

  /** The cell just past the run is outside the grid or does not hold type `t`. */
  lemma {:induction false} RunFromStops(g: seq<GridCell>, cols: int, rows: int, column: int, row: int, d: Direction, t: int)
    requires |g| == cols * rows
    ensures var n := RunFrom(g, cols, rows, column, row, d, t);
      || !InGrid(cols, rows, WalkColumn(column, d, n), WalkRow(row, d, n))
      || Occupant(g, cols, rows, WalkColumn(column, d, n), WalkRow(row, d, n)) != Some(t)
    decreases Span(cols, rows, column, row, d)
  {
    var n := RunFrom(g, cols, rows, column, row, d, t);
    if InGrid(cols, rows, column, row) && Occupant(g, cols, rows, column, row) == Some(t) {
      var c1, r1 := column + d.DCol(), row + d.DRow();
      RunFromStops(g, cols, rows, c1, r1, d, t);
      assert WalkColumn(column, d, n) == WalkColumn(c1, d, n - 1);
      assert WalkRow(row, d, n) == WalkRow(r1, d, n - 1);
    } else {
      assert WalkColumn(column, d, 0) == column && WalkRow(row, d, 0) == row;
    }
  }

  /** Stepping once from an in-grid cell that stays in the grid uses up one step of reach. */
  lemma ReachStep(cols: int, rows: int, column: int, row: int, d: Direction)
    requires InGrid(cols, rows, column, row)
    requires InGrid(cols, rows, column + d.DCol(), row + d.DRow())
    ensures Reach(cols, rows, column + d.DCol(), row + d.DRow(), d) == Reach(cols, rows, column, row, d) - 1
  {
  }

  lemma {:induction false} RunFromWithinReach(g: seq<GridCell>, cols: int, rows: int, column: int, row: int, d: Direction, t: int)
    requires |g| == cols * rows
    requires InGrid(cols, rows, column - d.DCol(), row - d.DRow())
    ensures RunFrom(g, cols, rows, column, row, d, t) <= Reach(cols, rows, column - d.DCol(), row - d.DRow(), d)
    decreases Span(cols, rows, column, row, d)
  {
    if InGrid(cols, rows, column, row) && Occupant(g, cols, rows, column, row) == Some(t) {
      RunFromWithinReach(g, cols, rows, column + d.DCol(), row + d.DRow(), d, t);
      ReachStep(cols, rows, column - d.DCol(), row - d.DRow(), d);
    }
  }

  /**
   * A directional count from an in-grid cell is between 0 and the distance to
   * the edge in that direction.
   */
  lemma RunBounds(g: seq<GridCell>, cols: int, rows: int, column: int, row: int, d: Direction, t: int)
    requires |g| == cols * rows && InGrid(cols, rows, column, row)
    ensures 0 <= Run(g, cols, rows, column, row, d, t) <= Reach(cols, rows, column, row, d)
    ensures d == Left ==> Reach(cols, rows, column, row, d) == column
    ensures d == Right ==> Reach(cols, rows, column, row, d) == cols - 1 - column
    ensures d == Down ==> Reach(cols, rows, column, row, d) == row
    ensures d == Up ==> Reach(cols, rows, column, row, d) == rows - 1 - row
  {
    RunFromWithinReach(g, cols, rows, column + d.DCol(), row + d.DRow(), d, t);
  }

  /**
   * The directional count is exactly the run next to the origin: the cells 1
   * to n steps away hold type `t`, and the cell n + 1 steps away does not (or is
   * off the grid).
   */
  lemma RunMeaning(g: seq<GridCell>, cols: int, rows: int, column: int, row: int, d: Direction, t: int)
    requires |g| == cols * rows
    ensures var n := Run(g, cols, rows, column, row, d, t);
      && (forall k :: 1 <= k <= n ==>
           && InGrid(cols, rows, WalkColumn(column, d, k), WalkRow(row, d, k))
           && Occupant(g, cols, rows, WalkColumn(column, d, k), WalkRow(row, d, k)) == Some(t))
      && (|| !InGrid(cols, rows, WalkColumn(column, d, n + 1), WalkRow(row, d, n + 1))
          || Occupant(g, cols, rows, WalkColumn(column, d, n + 1), WalkRow(row, d, n + 1)) != Some(t))
  {
    var c1, r1 := column + d.DCol(), row + d.DRow();
    var n := Run(g, cols, rows, column, row, d, t);
    RunFromCells(g, cols, rows, c1, r1, d, t);
    RunFromStops(g, cols, rows, c1, r1, d, t);
    forall k | 1 <= k <= n + 1
      ensures WalkColumn(column, d, k) == WalkColumn(c1, d, k - 1)
      ensures WalkRow(row, d, k) == WalkRow(r1, d, k - 1)
    {
    }
  }
}
