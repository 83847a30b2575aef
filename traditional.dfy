/**
 * The rules of the traditional game mode that are pure queries on the grid:
 * which block types may be dropped into a cell while the initial board is
 * filled, why such a type always exists, and why a board filled only with
 * allowed blocks holds no run long enough to match.
 */
module Traditional {
  import opened Wrappers
  import opened Helpers
  import opened Grid
  import opened Matching

  /**
   * `SpawnAllowed`: a block of type `t` may be placed at (column, row) unless
   * the run it would extend to the left, down-right, down or down-left would
   * reach `minRun` together with the block itself.
   */
  predicate Allowed(g: seq<GridCell>, cols: int, rows: int, minRun: int, column: int, row: int, t: int)
    requires |g| == cols * rows
  {
    && Run(g, cols, rows, column, row, Left, t) + 1 < minRun
    && Run(g, cols, rows, column, row, DownRight, t) + 1 < minRun
    && Run(g, cols, rows, column, row, Down, t) + 1 < minRun
    && Run(g, cols, rows, column, row, DownLeft, t) + 1 < minRun
  }

  /** The four directions `SpawnAllowed` looks in all lead to cells stored earlier. */
  predicate Earlier(d: Direction) {
    d == Left || d == DownRight || d == Down || d == DownLeft
  }

  /** One step from a cell to a cell, both in the grid, moves the index by the direction's index step. */
  lemma StepIndex(cols: int, rows: int, column: int, row: int, d: Direction)
    requires InGrid(cols, rows, column, row) && InGrid(cols, rows, column + d.DCol(), row + d.DRow())
    ensures CellIndex(cols, rows, column + d.DCol(), row + d.DRow()) == CellIndex(cols, rows, column, row) + d.IndexStep(cols)
  {
    assert cols * (row + d.DRow()) == cols * row + d.DRow() * cols;
  }

  /** A step in one of the `Earlier` directions between two in-grid cells lowers the index. */
  lemma EarlierStepLowers(cols: int, rows: int, column: int, row: int, d: Direction)
    requires Earlier(d)
    requires InGrid(cols, rows, column, row) && InGrid(cols, rows, column + d.DCol(), row + d.DRow())
    ensures CellIndex(cols, rows, column + d.DCol(), row + d.DRow()) < CellIndex(cols, rows, column, row)
  {
    StepIndex(cols, rows, column, row, d);
  }

  /**
   * A run walked in an `Earlier` direction from a cell stored before index `n`
   * only reads cells stored before `n`, so two grids that agree there give the
   * same count.
   */
  lemma {:induction false} RunFromFrame(g1: seq<GridCell>, g2: seq<GridCell>, cols: int, rows: int,
                                        column: int, row: int, d: Direction, t: int, n: int)
    requires |g1| == cols * rows && |g2| == cols * rows && Earlier(d)
    requires forall i :: 0 <= i < n && i < |g1| ==> g1[i].occupant == g2[i].occupant
    requires !InGrid(cols, rows, column, row) || CellIndex(cols, rows, column, row) < n
    ensures RunFrom(g1, cols, rows, column, row, d, t) == RunFrom(g2, cols, rows, column, row, d, t)
    decreases Span(cols, rows, column, row, d)
  {
    if InGrid(cols, rows, column, row) {
      var c1, r1 := column + d.DCol(), row + d.DRow();
      if InGrid(cols, rows, c1, r1) {
        EarlierStepLowers(cols, rows, column, row, d);
      }
      RunFromFrame(g1, g2, cols, rows, c1, r1, d, t, n);
    }
  }

  /** Whether a type is allowed at a cell depends only on the cells stored before it. */
  lemma AllowedFrame(g1: seq<GridCell>, g2: seq<GridCell>, cols: int, rows: int, minRun: int, column: int, row: int, t: int)
    requires |g1| == cols * rows && |g2| == cols * rows && InGrid(cols, rows, column, row)
    requires forall i :: 0 <= i < CellIndex(cols, rows, column, row) ==> g1[i].occupant == g2[i].occupant
    ensures Allowed(g1, cols, rows, minRun, column, row, t) <==> Allowed(g2, cols, rows, minRun, column, row, t)
  {
    NeighbourRunFrame(g1, g2, cols, rows, column, row, Left, t);
    NeighbourRunFrame(g1, g2, cols, rows, column, row, DownRight, t);
    NeighbourRunFrame(g1, g2, cols, rows, column, row, Down, t);
    NeighbourRunFrame(g1, g2, cols, rows, column, row, DownLeft, t);
  }

  lemma NeighbourRunFrame(g1: seq<GridCell>, g2: seq<GridCell>, cols: int, rows: int, column: int, row: int, d: Direction, t: int)
    requires |g1| == cols * rows && |g2| == cols * rows && InGrid(cols, rows, column, row) && Earlier(d)
    requires forall i :: 0 <= i < CellIndex(cols, rows, column, row) ==> g1[i].occupant == g2[i].occupant
    ensures Run(g1, cols, rows, column, row, d, t) == Run(g2, cols, rows, column, row, d, t)
  {
    if InGrid(cols, rows, column + d.DCol(), row + d.DRow()) {
      EarlierStepLowers(cols, rows, column, row, d);
    }
    RunFromFrame(g1, g2, cols, rows, column + d.DCol(), row + d.DRow(), d, t, CellIndex(cols, rows, column, row));
  }

  /**
   * Walking `k` cells of type `t` from an occupied cell in direction `f` and
   * counting back from there counts those `k` cells plus whatever the start
   * counted backwards.
   */
  lemma {:induction false} RunShift(g: seq<GridCell>, cols: int, rows: int, column: int, row: int, f: Direction, t: int, k: nat)
    requires |g| == cols * rows && InGrid(cols, rows, column, row)
    requires Occupant(g, cols, rows, column, row) == Some(t)
    requires forall j :: 1 <= j <= k ==>
      && InGrid(cols, rows, WalkColumn(column, f, j), WalkRow(row, f, j))
      && Occupant(g, cols, rows, WalkColumn(column, f, j), WalkRow(row, f, j)) == Some(t)
    ensures Run(g, cols, rows, WalkColumn(column, f, k), WalkRow(row, f, k), f.Opposite(), t)
         == k + Run(g, cols, rows, column, row, f.Opposite(), t)
  {
    if k > 0 {
      RunShift(g, cols, rows, column, row, f, t, k - 1);
      var e := f.Opposite();
      assert WalkColumn(column, f, k) + e.DCol() == WalkColumn(column, f, k - 1);
      assert WalkRow(row, f, k) + e.DRow() == WalkRow(row, f, k - 1);
    }
  }

  /** Every occupied cell of the grid holds a type that is allowed where it stands. */
  predicate AllAllowed(g: seq<GridCell>, cols: int, rows: int, minRun: int)
    requires |g| == cols * rows && cols > 0
  {
    forall i :: 0 <= i < |g| && g[i].occupant.Some? ==>
      Allowed(g, cols, rows, minRun, ColumnRow(cols, rows, i).0, ColumnRow(cols, rows, i).1, g[i].occupant.value)
  }

  /** The end cell of a run and the direction to count it back from, per axis. */
  lemma RunEnd(g: seq<GridCell>, cols: int, rows: int, minRun: int, column: int, row: int, t: int, axis: Axis)
    requires |g| == cols * rows && cols > 0 && InGrid(cols, rows, column, row)
    requires Occupant(g, cols, rows, column, row) == Some(t)
    requires AllAllowed(g, cols, rows, minRun)
    ensures Run(g, cols, rows, column, row, axis.Back(), t) + Run(g, cols, rows, column, row, axis.Forward(), t) + 1 < minRun
  {
    var back := Run(g, cols, rows, column, row, axis.Back(), t);
    var fwd := Run(g, cols, rows, column, row, axis.Forward(), t);
    // The run is counted back from its forward end, except on the first
    // diagonal, where the check looks down-right and so from the backward end.
    var f, k := if axis == Diagonal1 then axis.Back() else axis.Forward(), if axis == Diagonal1 then back else fwd;
    RunMeaning(g, cols, rows, column, row, f, t);
    RunShift(g, cols, rows, column, row, f, t, k);
    var yc, yr := WalkColumn(column, f, k), WalkRow(row, f, k);
    var y := CellIndex(cols, rows, yc, yr);
    CellIndexRoundTrip(cols, rows, yc, yr);
    assert g[y].occupant == Some(t);
  }

  /**
   * A board on which every block is allowed where it stands holds no match:
   * none of the four collectors adds anything for any of its blocks.
   */
  lemma NoMatchWhenAllAllowed(g: seq<GridCell>, cols: int, rows: int, minRun: int)
    requires |g| == cols * rows && cols > 0
    requires AllAllowed(g, cols, rows, minRun)
    ensures forall i, axis :: 0 <= i < |g| && g[i].occupant.Some? ==> CellAxisMatch(g, cols, rows, minRun, i, axis) == []
  {
    forall i, axis | 0 <= i < |g| && g[i].occupant.Some?
      ensures CellAxisMatch(g, cols, rows, minRun, i, axis) == []
    {
      var cr := ColumnRow(cols, rows, i);
      RunEnd(g, cols, rows, minRun, cr.0, cr.1, g[i].occupant.value, axis);
    }
  }

  /** The occupant of the neighbour of (column, row) in direction `d`, if that neighbour is on the grid. */
  function Neighbour(g: seq<GridCell>, cols: int, rows: int, column: int, row: int, d: Direction): Option<int>
    requires |g| == cols * rows
  {
    if InGrid(cols, rows, column + d.DCol(), row + d.DRow()) then Occupant(g, cols, rows, column + d.DCol(), row + d.DRow()) else None
  }

  /** A type that differs from the neighbour in direction `d` has no run there. */
  lemma NoRunPastStranger(g: seq<GridCell>, cols: int, rows: int, column: int, row: int, d: Direction, t: int)
    requires |g| == cols * rows
    requires Neighbour(g, cols, rows, column, row, d) != Some(t)
    ensures Run(g, cols, rows, column, row, d, t) == 0
  {
  }

  /**
   * With runs of at least two required and at least five block types, some
   * type is allowed at every cell: each of the four neighbours looked at
   * rules out at most its own type. (This is what lets the initial fill's
   * retry loop end.)
   */
  lemma AllowedTypeExists(g: seq<GridCell>, cols: int, rows: int, minRun: int, column: int, row: int, typeCount: int)
    requires |g| == cols * rows && minRun >= 2 && typeCount >= 5
    ensures exists t :: 0 <= t < typeCount && Allowed(g, cols, rows, minRun, column, row, t)
  {
    var n1 := Neighbour(g, cols, rows, column, row, Left);
    var n2 := Neighbour(g, cols, rows, column, row, DownRight);
    var n3 := Neighbour(g, cols, rows, column, row, Down);
    var n4 := Neighbour(g, cols, rows, column, row, DownLeft);
    assert exists t :: 0 <= t < 5 && Some(t) != n1 && Some(t) != n2 && Some(t) != n3 && Some(t) != n4 by {
      var t := if Some(0) != n1 && Some(0) != n2 && Some(0) != n3 && Some(0) != n4 then 0
        else if Some(1) != n1 && Some(1) != n2 && Some(1) != n3 && Some(1) != n4 then 1
        else if Some(2) != n1 && Some(2) != n2 && Some(2) != n3 && Some(2) != n4 then 2
        else if Some(3) != n1 && Some(3) != n2 && Some(3) != n3 && Some(3) != n4 then 3
        else 4;
      assert Some(t) != n1 && Some(t) != n2 && Some(t) != n3 && Some(t) != n4;
    }
    var t :| 0 <= t < 5 && Some(t) != n1 && Some(t) != n2 && Some(t) != n3 && Some(t) != n4;
    NoRunPastStranger(g, cols, rows, column, row, Left, t);
    NoRunPastStranger(g, cols, rows, column, row, DownRight, t);
    NoRunPastStranger(g, cols, rows, column, row, Down, t);
    NoRunPastStranger(g, cols, rows, column, row, DownLeft, t);
    assert 0 <= t < typeCount && Allowed(g, cols, rows, minRun, column, row, t);
  }
}
