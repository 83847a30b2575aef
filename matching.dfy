/**
 * What the match scan collects: for a cell of type `t`, the whole run through
 * it along each of the four lines, kept when it is at least the minimum run
 * size, gathered without duplicates.
 */
module Matching {
  import opened Wrappers
  import opened Helpers
  import opened Grid

  /** The four lines a run can lie on. */
  datatype Axis = Horizontal | Vertical | Diagonal1 | Diagonal2 {

    /** The direction the collector counts first; the run's listing starts at that end. */
    function Back(): Direction {
      match this
      case Horizontal => Left
      case Vertical => Down
      case Diagonal1 => UpLeft
      case Diagonal2 => DownLeft
    }

    /** The direction the collector lists the run's cells in. */
    function Forward(): (d: Direction)
      ensures d == Back().Opposite()
    {
      match this
      case Horizontal => Right
      case Vertical => Up
      case Diagonal1 => DownRight
      case Diagonal2 => UpRight
    }
  }

  /** `n` integers from `start` in steps of `step`. */
  function Progression(start: int, step: int, n: nat): (s: seq<int>)
    ensures |s| == n
    ensures forall i :: 0 <= i < n ==> s[i] == start + i * step
  {
    seq(n, i => start + i * step)
  }

  predicate NoDup(s: seq<int>) {
    forall i, j :: 0 <= i < j < |s| ==> s[i] != s[j]
  }

  /**
   * The cell indices the collector for `axis` adds for a block of type `t` at
   * (column, row): the run's cells from its backward end, when the run (both
   * counts plus the block itself) reaches `minRun`; nothing otherwise.
   */
  function AxisMatch(g: seq<GridCell>, cols: int, rows: int, minRun: int, column: int, row: int, t: int, axis: Axis): seq<int>
    requires |g| == cols * rows && InGrid(cols, rows, column, row)
  {
    var back := Run(g, cols, rows, column, row, axis.Back(), t);
    var fwd := Run(g, cols, rows, column, row, axis.Forward(), t);
    if back + fwd + 1 >= minRun then
      Progression(CellIndex(cols, rows, column, row) + back * axis.Back().IndexStep(cols),
                  axis.Forward().IndexStep(cols), back + fwd + 1)
    else
      []
  }

  /** Walking k steps (k may be negative) from an in-grid cell moves the index by k index steps. */
  lemma WalkIndex(cols: int, rows: int, column: int, row: int, d: Direction, k: int)
    requires InGrid(cols, rows, column, row)
    requires InGrid(cols, rows, WalkColumn(column, d, k), WalkRow(row, d, k))
    ensures CellIndex(cols, rows, WalkColumn(column, d, k), WalkRow(row, d, k))
         == CellIndex(cols, rows, column, row) + k * d.IndexStep(cols)
  {
    var dr, dc := d.DRow(), d.DCol();
    assert WalkRow(row, d, k) == row + k * dr && WalkColumn(column, d, k) == column + k * dc;
    StepArithmetic(cols, row, column, k, dr, dc);
  }

  /** The index arithmetic of a walk of k steps of (dr, dc). */
  lemma StepArithmetic(cols: int, row: int, column: int, k: int, dr: int, dc: int)
    ensures cols * (row + k * dr) + (column + k * dc) == cols * row + column + k * (dr * cols + dc)
  {
  }

  /** Walking -k steps one way is walking k steps the opposite way. */
  lemma WalkBackwards(column: int, row: int, d: Direction, k: int)
    ensures WalkColumn(column, d, -k) == WalkColumn(column, d.Opposite(), k)
    ensures WalkRow(row, d, -k) == WalkRow(row, d.Opposite(), k)
  {
  }

  /** Different step counts along one direction reach different cells. */
  lemma WalkDistinct(column: int, row: int, d: Direction, k1: int, k2: int)
    requires k1 != k2
    ensures WalkColumn(column, d, k1) != WalkColumn(column, d, k2) || WalkRow(row, d, k1) != WalkRow(row, d, k2)
  {
  }

  /** Every cell from `back` steps behind to `fwd` steps ahead along the axis holds type `t`. */
  lemma AxisRunCell(g: seq<GridCell>, cols: int, rows: int, column: int, row: int, t: int, axis: Axis, k: int)
    requires |g| == cols * rows && InGrid(cols, rows, column, row)
    requires Occupant(g, cols, rows, column, row) == Some(t)
    requires 0 <= k + Run(g, cols, rows, column, row, axis.Back(), t) && k <= Run(g, cols, rows, column, row, axis.Forward(), t)
    ensures InGrid(cols, rows, WalkColumn(column, axis.Forward(), k), WalkRow(row, axis.Forward(), k))
    ensures Occupant(g, cols, rows, WalkColumn(column, axis.Forward(), k), WalkRow(row, axis.Forward(), k)) == Some(t)
  {
    var F := axis.Forward();
    if k < 0 {
      RunMeaning(g, cols, rows, column, row, axis.Back(), t);
      WalkBackwards(column, row, F, -k);
    } else if k > 0 {
      RunMeaning(g, cols, rows, column, row, F, t);
    }
  }

  /** The i-th index of a collected run, as arithmetic on the block's own index. */
  lemma AxisMatchIndex(g: seq<GridCell>, cols: int, rows: int, minRun: int, column: int, row: int, t: int, axis: Axis, i: int)
    requires |g| == cols * rows && InGrid(cols, rows, column, row)
    requires 0 <= i < |AxisMatch(g, cols, rows, minRun, column, row, t, axis)|
    ensures AxisMatch(g, cols, rows, minRun, column, row, t, axis)[i]
         == CellIndex(cols, rows, column, row) + (i - Run(g, cols, rows, column, row, axis.Back(), t)) * axis.Forward().IndexStep(cols)
  {
    var back: int := Run(g, cols, rows, column, row, axis.Back(), t);
    var fwd: int := Run(g, cols, rows, column, row, axis.Forward(), t);
    var fs := axis.Forward().IndexStep(cols);
    var bs := axis.Back().IndexStep(cols);
    var idx := CellIndex(cols, rows, column, row);
    assert bs == -fs;
    assert AxisMatch(g, cols, rows, minRun, column, row, t, axis) == Progression(idx + back * bs, fs, back + fwd + 1);
    ShiftProduct(i, back, fs);
  }

  lemma ShiftProduct(a: int, b: int, f: int)
    ensures b * -f + a * f == (a - b) * f
  {
  }

  /** The i-th index a collector adds is the cell `i - back` steps along the axis, and it holds type `t`. */
  lemma AxisMatchCell(g: seq<GridCell>, cols: int, rows: int, minRun: int, column: int, row: int, t: int, axis: Axis, i: int)
    requires |g| == cols * rows && InGrid(cols, rows, column, row)
    requires Occupant(g, cols, rows, column, row) == Some(t)
    requires 0 <= i < |AxisMatch(g, cols, rows, minRun, column, row, t, axis)|
    ensures var s := AxisMatch(g, cols, rows, minRun, column, row, t, axis);
      var k := i - Run(g, cols, rows, column, row, axis.Back(), t);
      var F := axis.Forward();
      && InGrid(cols, rows, WalkColumn(column, F, k), WalkRow(row, F, k))
      && s[i] == CellIndex(cols, rows, WalkColumn(column, F, k), WalkRow(row, F, k))
      && g[s[i]].occupant == Some(t)
  {
    var k := i - Run(g, cols, rows, column, row, axis.Back(), t);
    AxisRunCell(g, cols, rows, column, row, t, axis, k);
    WalkIndex(cols, rows, column, row, axis.Forward(), k);
    AxisMatchIndex(g, cols, rows, minRun, column, row, t, axis, i);
  }

  /**
   * What a collector adds for a block of type `t` at (column, row): cells are
   * added exactly when the run (both counts plus the block) reaches `minRun`,
   * then all of them; each holds type `t`; none twice; and the run is maximal
   * (the cells just past both ends are off the grid or hold something else).
   */
  lemma AxisMatchMeaning(g: seq<GridCell>, cols: int, rows: int, minRun: int, column: int, row: int, t: int, axis: Axis)
    requires |g| == cols * rows && InGrid(cols, rows, column, row)
    requires Occupant(g, cols, rows, column, row) == Some(t)
    ensures var s := AxisMatch(g, cols, rows, minRun, column, row, t, axis);
      var back: int := Run(g, cols, rows, column, row, axis.Back(), t);
      var fwd: int := Run(g, cols, rows, column, row, axis.Forward(), t);
      var F := axis.Forward();
      && (s != [] <==> back + fwd + 1 >= minRun)
      && (s != [] ==> |s| == back + fwd + 1)
      && (forall x :: x in s ==> 0 <= x < |g| && g[x].occupant == Some(t))
      && NoDup(s)
      && (|| !InGrid(cols, rows, WalkColumn(column, F, -back - 1), WalkRow(row, F, -back - 1))
          || Occupant(g, cols, rows, WalkColumn(column, F, -back - 1), WalkRow(row, F, -back - 1)) != Some(t))
      && (|| !InGrid(cols, rows, WalkColumn(column, F, fwd + 1), WalkRow(row, F, fwd + 1))
          || Occupant(g, cols, rows, WalkColumn(column, F, fwd + 1), WalkRow(row, F, fwd + 1)) != Some(t))
  {
    var s := AxisMatch(g, cols, rows, minRun, column, row, t, axis);
    var B, F := axis.Back(), axis.Forward();
    var back: int := Run(g, cols, rows, column, row, B, t);
    RunMeaning(g, cols, rows, column, row, B, t);
    RunMeaning(g, cols, rows, column, row, F, t);
    WalkBackwards(column, row, F, back + 1);
    forall x | x in s
      ensures 0 <= x < |g| && g[x].occupant == Some(t)
    {
      var i :| 0 <= i < |s| && s[i] == x;
      AxisMatchCell(g, cols, rows, minRun, column, row, t, axis, i);
    }
    forall i, j | 0 <= i < j < |s|
      ensures s[i] != s[j]
    {
      AxisMatchCell(g, cols, rows, minRun, column, row, t, axis, i);
      AxisMatchCell(g, cols, rows, minRun, column, row, t, axis, j);
      WalkDistinct(column, row, F, i - back, j - back);
      if s[i] == s[j] {
        CellIndexInjective(cols, rows,
          WalkColumn(column, F, i - back), WalkRow(row, F, i - back),
          WalkColumn(column, F, j - back), WalkRow(row, F, j - back));
      }
    }
  }

  /** `TArray::AddUnique`: append `x` unless it is already present. */
  function AddUnique(s: seq<int>, x: int): seq<int> {
    if x in s then s else s + [x]
  }

  /** `AddUnique` of each element of `xs`, in order. */
  function AddAllUnique(s: seq<int>, xs: seq<int>): seq<int>
    decreases |xs|
  {
    if |xs| == 0 then s else AddUnique(AddAllUnique(s, xs[..|xs| - 1]), xs[|xs| - 1])
  }

  /**
   * Adding with `AddUnique` keeps what was there as a prefix, contains exactly
   * the old and the added elements, and introduces no duplicate.
   */
  lemma {:induction false} AddAllUniqueMeaning(s: seq<int>, xs: seq<int>)
    ensures var r := AddAllUnique(s, xs);
      && |s| <= |r| && r[..|s|] == s
      && (forall y :: y in r <==> y in s || y in xs)
      && (NoDup(s) ==> NoDup(r))
    decreases |xs|
  {
    if |xs| > 0 {
      var p := xs[..|xs| - 1];
      AddAllUniqueMeaning(s, p);
      var q := AddAllUnique(s, p);
      var x := xs[|xs| - 1];
      assert xs == p + [x];
      if x !in q {
        assert (q + [x])[..|s|] == q[..|s|];
      }
    }
  }

  /** Adding a concatenation is adding one part after the other. */
  lemma {:induction false} AddAllUniqueAppend(s: seq<int>, a: seq<int>, b: seq<int>)
    ensures AddAllUnique(s, a + b) == AddAllUnique(AddAllUnique(s, a), b)
    decreases |b|
  {
    if |b| == 0 {
      assert a + b == a;
    } else {
      assert (a + b)[..|a + b| - 1] == a + b[..|b| - 1];
      AddAllUniqueAppend(s, a, b[..|b| - 1]);
    }
  }

  /** Every landed index names a cell that holds a block. */
  predicate LandedOk(g: seq<GridCell>, landed: seq<int>) {
    forall i :: 0 <= i < |landed| ==> 0 <= landed[i] < |g| && g[landed[i]].occupant.Some?
  }

  /** The matches along `axis` through the block at storage index `cell`. */
  function CellAxisMatch(g: seq<GridCell>, cols: int, rows: int, minRun: int, cell: int, axis: Axis): seq<int>
    requires |g| == cols * rows && cols >= 0 && 0 <= cell < |g| && g[cell].occupant.Some?
  {
    var cr := ColumnRow(cols, rows, cell);
    AxisMatch(g, cols, rows, minRun, cr.0, cr.1, g[cell].occupant.value, axis)
  }

  /** All four collectors for one landed block, in the order the scan calls them. */
  function CellMatches(g: seq<GridCell>, cols: int, rows: int, minRun: int, cell: int): seq<int>
    requires |g| == cols * rows && cols >= 0 && 0 <= cell < |g| && g[cell].occupant.Some?
  {
    CellAxisMatch(g, cols, rows, minRun, cell, Horizontal)
    + CellAxisMatch(g, cols, rows, minRun, cell, Vertical)
    + CellAxisMatch(g, cols, rows, minRun, cell, Diagonal1)
    + CellAxisMatch(g, cols, rows, minRun, cell, Diagonal2)
  }

  /** Everything the collectors add, landed block after landed block. */
  function LandedMatches(g: seq<GridCell>, cols: int, rows: int, minRun: int, landed: seq<int>): seq<int>
    requires |g| == cols * rows && cols >= 0 && LandedOk(g, landed)
    decreases |landed|
  {
    if |landed| == 0 then []
    else LandedMatches(g, cols, rows, minRun, landed[..|landed| - 1])
         + CellMatches(g, cols, rows, minRun, landed[|landed| - 1])
  }

  /** The matched set `CheckMatchingBlocks` builds from an empty one. */
  function MatchedSet(g: seq<GridCell>, cols: int, rows: int, minRun: int, landed: seq<int>): seq<int>
    requires |g| == cols * rows && cols >= 0 && LandedOk(g, landed)
  {
    AddAllUnique([], LandedMatches(g, cols, rows, minRun, landed))
  }

  lemma CellMatchesMembers(g: seq<GridCell>, cols: int, rows: int, minRun: int, cell: int)
    requires |g| == cols * rows && cols >= 0 && 0 <= cell < |g| && g[cell].occupant.Some?
    ensures forall x :: x in CellMatches(g, cols, rows, minRun, cell) ==>
      exists axis :: x in CellAxisMatch(g, cols, rows, minRun, cell, axis)
    ensures forall x, axis :: x in CellAxisMatch(g, cols, rows, minRun, cell, axis) ==>
      x in CellMatches(g, cols, rows, minRun, cell)
  {
    forall x, axis | x in CellAxisMatch(g, cols, rows, minRun, cell, axis)
      ensures x in CellMatches(g, cols, rows, minRun, cell)
    {
      match axis
      case Horizontal =>
      case Vertical =>
      case Diagonal1 =>
      case Diagonal2 =>
    }
  }

  lemma LandedMatchesMembers(g: seq<GridCell>, cols: int, rows: int, minRun: int, landed: seq<int>)
    requires |g| == cols * rows && cols >= 0 && LandedOk(g, landed)
    ensures forall x :: x in LandedMatches(g, cols, rows, minRun, landed) <==>
      exists j, axis :: 0 <= j < |landed| && x in CellAxisMatch(g, cols, rows, minRun, landed[j], axis)
  {
    LandedMatchesSound(g, cols, rows, minRun, landed);
    LandedMatchesComplete(g, cols, rows, minRun, landed);
  }

  /** Every collected index comes from some landed block along some axis. */
  lemma {:induction false} LandedMatchesSound(g: seq<GridCell>, cols: int, rows: int, minRun: int, landed: seq<int>)
    requires |g| == cols * rows && cols >= 0 && LandedOk(g, landed)
    ensures forall x :: x in LandedMatches(g, cols, rows, minRun, landed) ==>
      exists j, axis :: 0 <= j < |landed| && x in CellAxisMatch(g, cols, rows, minRun, landed[j], axis)
    decreases |landed|
  {
    if |landed| > 0 {
      var p := landed[..|landed| - 1];
      var last := landed[|landed| - 1];
      LandedMatchesSound(g, cols, rows, minRun, p);
      CellMatchesMembers(g, cols, rows, minRun, last);
      forall x | x in LandedMatches(g, cols, rows, minRun, landed)
        ensures exists j, axis :: 0 <= j < |landed| && x in CellAxisMatch(g, cols, rows, minRun, landed[j], axis)
      {
        if x in LandedMatches(g, cols, rows, minRun, p) {
          var j, axis :| 0 <= j < |p| && x in CellAxisMatch(g, cols, rows, minRun, p[j], axis);
          assert landed[j] == p[j];
        } else {
          var axis :| x in CellAxisMatch(g, cols, rows, minRun, last, axis);
          assert landed[|landed| - 1] == last;
        }
      }
    }
  }

  /** Every index some landed block's collector adds is collected. */
  lemma {:induction false} LandedMatchesComplete(g: seq<GridCell>, cols: int, rows: int, minRun: int, landed: seq<int>)
    requires |g| == cols * rows && cols >= 0 && LandedOk(g, landed)
    ensures forall x, j, axis :: 0 <= j < |landed| && x in CellAxisMatch(g, cols, rows, minRun, landed[j], axis) ==>
      x in LandedMatches(g, cols, rows, minRun, landed)
    decreases |landed|
  {
    if |landed| > 0 {
      var p := landed[..|landed| - 1];
      var last := landed[|landed| - 1];
      LandedMatchesComplete(g, cols, rows, minRun, p);
      CellMatchesMembers(g, cols, rows, minRun, last);
      var before, here := LandedMatches(g, cols, rows, minRun, p), CellMatches(g, cols, rows, minRun, last);
      var whole := LandedMatches(g, cols, rows, minRun, landed);
      assert whole == before + here;
      forall x, j, axis | 0 <= j < |landed| && x in CellAxisMatch(g, cols, rows, minRun, landed[j], axis)
        ensures x in whole
      {
        if j < |p| {
          assert landed[j] == p[j];
          assert x in before;
        } else {
          assert j == |landed| - 1;
          assert x in here;
        }
      }
    }
  }

  /**
   * The matched set: no index twice; an index is in it exactly when it lies
   * on a run of at least `minRun` blocks through some landed block along some
   * axis; and every matched index names a cell holding a block.
   */
  lemma MatchedSetMeaning(g: seq<GridCell>, cols: int, rows: int, minRun: int, landed: seq<int>)
    requires |g| == cols * rows && cols >= 0 && LandedOk(g, landed)
    ensures var m := MatchedSet(g, cols, rows, minRun, landed);
      && NoDup(m)
      && (forall x :: x in m <==>
            exists j, axis :: 0 <= j < |landed| && x in CellAxisMatch(g, cols, rows, minRun, landed[j], axis))
      && (forall x :: x in m ==> 0 <= x < |g| && g[x].occupant.Some?)
  {
    var m := MatchedSet(g, cols, rows, minRun, landed);
    AddAllUniqueMeaning([], LandedMatches(g, cols, rows, minRun, landed));
    LandedMatchesMembers(g, cols, rows, minRun, landed);
    forall x | x in m
      ensures 0 <= x < |g| && g[x].occupant.Some?
    {
      var j, axis :| 0 <= j < |landed| && x in CellAxisMatch(g, cols, rows, minRun, landed[j], axis);
      var cr := ColumnRow(cols, rows, landed[j]);
      var t := g[landed[j]].occupant.value;
      AxisMatchMeaning(g, cols, rows, minRun, cr.0, cr.1, t, axis);
    }
  }
  /** The matched set is a list of occupied cells without repeats. */
  lemma MatchedSetOk(g: seq<GridCell>, cols: int, rows: int, minRun: int, landed: seq<int>)
    requires |g| == cols * rows && cols >= 0 && LandedOk(g, landed)
    ensures var m := MatchedSet(g, cols, rows, minRun, landed);
      NoDup(m) && LandedOk(g, m)
  {
    var m := MatchedSet(g, cols, rows, minRun, landed);
    MatchedSetMeaning(g, cols, rows, minRun, landed);
    forall k | 0 <= k < |m|
      ensures 0 <= m[k] < |g| && g[m[k]].occupant.Some?
    {
      assert m[k] in m;
    }
  }

}
