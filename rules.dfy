/**
 * Specification functions for the in-game mode's state machine: the states
 * and their successors, the block-type draw, and the grid updates the states
 * make (landing a piece, removing matched blocks, clearing a row, placing
 * repositioned blocks), with the invariants those updates keep.
 */
module GameRules {
  import opened Wrappers
  import opened Helpers
  import opened Grid
  import opened Matching
  import opened Gravity
  import opened Numeric
  import opened Traditional

  /** The state functions `mCurrentState` can point at; `NotStarted` is the null pointer before `BeginPlay`. */
  datatype State =
    | NotStarted
    | GameInit
    | StartCountdown
    | Spawning
    | Playtime
    | CheckMatch
    | RemovingBlock
    | CheckPlayfield
    | Repositioning
    | GameLost
    | EndGame

  /** The states each state function can return. */
  predicate Successor(s: State, t: State) {
    match s
    case NotStarted => t == NotStarted
    case GameInit => t == StartCountdown
    case StartCountdown => t == StartCountdown || t == Spawning
    case Spawning => t == Playtime || t == GameLost
    case Playtime => t == Playtime || t == CheckMatch
    case CheckMatch => t == RemovingBlock || t == Spawning
    case RemovingBlock => t == RemovingBlock || t == CheckPlayfield
    case CheckPlayfield => t == Repositioning || t == Spawning
    case Repositioning => t == Repositioning || t == CheckMatch
    case GameLost => t == GameLost || t == EndGame
    case EndGame => t == EndGame
  }

  /**
   * The designer-editable settings the state functions read: the score per
   * matched block, the chain-bonus step, the countdown before the first piece,
   * the delay between cleared rows after a loss, and the traditional mode's
   * speed-progress step per landing.
   */
  datatype Tuning = Tuning(scorePerBlock: int, chainedMultiDelta: real, initialCountdown: int,
                           gameOverClearTime: real, progressDelta: real)

  /** The values the constructors of the in-game mode and of the traditional mode give those settings. */
  const DefaultTuning := Tuning(5, 1.0, 5, 0.15, 0.05)

  /** Type `t` is drawn again at some draw numbered `n` or later. */
  ghost predicate Recurs(draw: nat -> int, t: int, n: nat) {
    exists m: nat :: n <= m && draw(m) == t
  }

  /**
   * The assumption made about the random block picker: every draw is a type
   * id of the theme, and every type keeps coming up.
   */
  ghost predicate FairDraw(draw: nat -> int, typeCount: int) {
    && (forall n: nat :: 0 <= draw(n) < typeCount)
    && (forall n: nat, t :: 0 <= t < typeCount ==> Recurs(draw, t, n))
  }

  /** Each cell carries the tile-map coordinates `OnConstruction` gave it. */
  predicate TileMapOk(g: seq<GridCell>, cols: int, rows: int)
    requires cols > 0
  {
    forall i :: 0 <= i < |g| ==> (g[i].tileMapColumn, g[i].tileMapRow) == TileMapCell(cols, rows, i)
  }

  predicate AllEmpty(g: seq<GridCell>) {
    forall i :: 0 <= i < |g| ==> g[i].occupant.None?
  }

  predicate FloorsInRange(fl: seq<int>, rows: int) {
    forall c :: 0 <= c < |fl| ==> 0 <= fl[c] <= rows
  }

  /** Every cell at or above its column's floor is empty. */
  ghost predicate FloorsHold(g: seq<GridCell>, cols: int, rows: int, fl: seq<int>)
    requires |g| == cols * rows && |fl| == cols
  {
    forall c, r :: InGrid(cols, rows, c, r) && fl[c] <= r ==> Occupant(g, cols, rows, c, r).None?
  }

  /** The grid with cell `i`'s occupant replaced (`AddBlockToGridData`, or a removal when `t` is `None`). */
  function Put(g: seq<GridCell>, i: int, t: Option<int>): (r: seq<GridCell>)
    requires 0 <= i < |g|
    ensures |r| == |g| && r[i].occupant == t
    ensures r[i].tileMapColumn == g[i].tileMapColumn && r[i].tileMapRow == g[i].tileMapRow
    ensures forall j :: 0 <= j < |g| && j != i ==> r[j] == g[j]
  {
    g[i := g[i].(occupant := t)]
  }

  /** Replacing the occupant of cell (c0, r0) changes that cell and no other. */
  lemma PutOccupant(g: seq<GridCell>, cols: int, rows: int, c0: int, r0: int, t: Option<int>)
    requires |g| == cols * rows && InGrid(cols, rows, c0, r0)
    ensures forall c, r :: InGrid(cols, rows, c, r) ==>
      Occupant(Put(g, CellIndex(cols, rows, c0, r0), t), cols, rows, c, r)
        == if c == c0 && r == r0 then t else Occupant(g, cols, rows, c, r)
  {
    forall c, r | InGrid(cols, rows, c, r) && (c != c0 || r != r0)
      ensures CellIndex(cols, rows, c, r) != CellIndex(cols, rows, c0, r0)
    {
      if CellIndex(cols, rows, c, r) == CellIndex(cols, rows, c0, r0) {
        CellIndexInjective(cols, rows, c, r, c0, r0);
      }
    }
  }

  /**
   * The scan of column `c` has reached row `row`: below it the column reads
   * as the cleared column `s`, and every other cell as in `g0`.
   */
  ghost predicate ScannedBelow(g: seq<GridCell>, g0: seq<GridCell>, cols: int, rows: int, c: int, row: int, s: seq<Option<int>>)
    requires |g| == cols * rows && |g0| == cols * rows && 0 <= row <= |s|
  {
    forall c', r :: InGrid(cols, rows, c', r) ==>
      Occupant(g, cols, rows, c', r) == if c' == c && r < row then Cleared(s)[r] else Occupant(g0, cols, rows, c', r)
  }

  /**
   * One row of the scan: the row still holds its original occupant, and
   * emptying it exactly when its block is moved extends the scan by a row.
   */
  lemma ScannedStep(g: seq<GridCell>, g0: seq<GridCell>, cols: int, rows: int, c: int, row: int, s: seq<Option<int>>)
    requires |g| == cols * rows && |g0| == cols * rows && 0 <= c < cols && 0 <= row < |s| <= rows
    requires forall r :: 0 <= r < |s| ==> s[r] == Occupant(g0, cols, rows, c, r)
    requires ScannedBelow(g, g0, cols, rows, c, row, s)
    ensures Occupant(g, cols, rows, c, row) == s[row]
    ensures ScannedBelow(if Moved(s, row) then Put(g, CellIndex(cols, rows, c, row), None) else g, g0, cols, rows, c, row + 1, s)
  {
    if Moved(s, row) {
      PutOccupant(g, cols, rows, c, row, None);
      assert Cleared(s)[row] == None;
    } else {
      assert Cleared(s)[row] == s[row];
    }
  }

  predicate CellsIn(cells: seq<int>, n: int) {
    forall k :: 0 <= k < |cells| ==> 0 <= cells[k] < n
  }

  /** The grid after `types[k]` has been put into cell `cells[k]`, for each k in order. */
  function PlaceAll(g: seq<GridCell>, cells: seq<int>, types: seq<int>): (r: seq<GridCell>)
    requires |cells| == |types| && CellsIn(cells, |g|)
    ensures |r| == |g|
    decreases |cells|
  {
    if |cells| == 0 then g
    else Put(PlaceAll(g, cells[..|cells| - 1], types[..|types| - 1]), cells[|cells| - 1], Some(types[|types| - 1]))
  }

  /** Placing one more block after a list of placements. */
  lemma PlaceAllAppend(g: seq<GridCell>, cells: seq<int>, types: seq<int>, x: int, t: int)
    requires |cells| == |types| && CellsIn(cells, |g|) && 0 <= x < |g|
    ensures CellsIn(cells + [x], |g|)
    ensures PlaceAll(g, cells + [x], types + [t]) == Put(PlaceAll(g, cells, types), x, Some(t))
  {
    assert (cells + [x])[..|cells|] == cells;
    assert (types + [t])[..|types|] == types;
  }

  /** The grid after each cell of `cells` has been emptied. */
  function ClearAll(g: seq<GridCell>, cells: seq<int>): (r: seq<GridCell>)
    requires CellsIn(cells, |g|)
    ensures |r| == |g|
    decreases |cells|
  {
    if |cells| == 0 then g
    else Put(ClearAll(g, cells[..|cells| - 1]), cells[|cells| - 1], None)
  }

  /**
   * Placing blocks: every listed cell ends up occupied (by its own type when
   * no cell is listed twice), every other cell is untouched, and no cell's
   * tile-map coordinates change.
   */
  lemma {:induction false} PlaceAllMeaning(g: seq<GridCell>, cells: seq<int>, types: seq<int>)
    requires |cells| == |types| && CellsIn(cells, |g|)
    ensures var r := PlaceAll(g, cells, types);
      && (forall i :: 0 <= i < |g| && i !in cells ==> r[i] == g[i])
      && (forall k :: 0 <= k < |cells| ==> r[cells[k]].occupant.Some?)
      && (NoDup(cells) ==> forall k :: 0 <= k < |cells| ==> r[cells[k]].occupant == Some(types[k]))
      && (forall i :: 0 <= i < |g| ==> r[i].tileMapColumn == g[i].tileMapColumn && r[i].tileMapRow == g[i].tileMapRow)
    decreases |cells|
  {
    if |cells| > 0 {
      var n := |cells|;
      var pc, pt := cells[..n - 1], types[..n - 1];
      PlaceAllMeaning(g, pc, pt);
      forall k | 0 <= k < n - 1
        ensures cells[k] == pc[k] && types[k] == pt[k]
      {
      }
    }
  }

  /** Clearing cells: every listed cell ends up empty, every other cell and all tile-map coordinates are untouched. */
  lemma {:induction false} ClearAllMeaning(g: seq<GridCell>, cells: seq<int>)
    requires CellsIn(cells, |g|)
    ensures var r := ClearAll(g, cells);
      && (forall i :: 0 <= i < |g| && i !in cells ==> r[i] == g[i])
      && (forall i :: 0 <= i < |g| && i in cells ==> r[i].occupant.None?)
      && (forall i :: 0 <= i < |g| ==> r[i].tileMapColumn == g[i].tileMapColumn && r[i].tileMapRow == g[i].tileMapRow)
    decreases |cells|
  {
    if |cells| > 0 {
      var n := |cells|;
      var pc := cells[..n - 1];
      ClearAllMeaning(g, pc);
      forall i | 0 <= i < |g| && i in cells
        ensures i == cells[n - 1] || i in pc
      {
        var k :| 0 <= k < n && cells[k] == i;
        if k < n - 1 {
          assert pc[k] == i;
        }
      }
    }
  }

  /** Placing blocks never empties a cell, so cells that held blocks still do. */
  lemma PlaceKeepsLanded(g: seq<GridCell>, cells: seq<int>, types: seq<int>, l: seq<int>)
    requires |cells| == |types| && CellsIn(cells, |g|) && LandedOk(g, l)
    ensures LandedOk(PlaceAll(g, cells, types), l)
  {
    PlaceAllMeaning(g, cells, types);
  }

  /** A grid that only lost blocks keeps every floor's promise of empty cells above it. */
  lemma EmptierKeepsFloors(g1: seq<GridCell>, g2: seq<GridCell>, cols: int, rows: int, fl: seq<int>)
    requires |g1| == cols * rows && |g2| == cols * rows && |fl| == cols
    requires forall i :: 0 <= i < |g1| ==> g2[i].occupant == g1[i].occupant || g2[i].occupant.None?
    requires FloorsHold(g1, cols, rows, fl)
    ensures FloorsHold(g2, cols, rows, fl)
  {
    forall c, r | InGrid(cols, rows, c, r) && fl[c] <= r
      ensures Occupant(g2, cols, rows, c, r).None?
    {
      assert Occupant(g1, cols, rows, c, r).None?;
    }
  }

  /** The cells a landing piece of `n` blocks fills in column `c` above floor `f`, bottom block first. */
  function LandingCells(cols: int, rows: int, c: int, f: int, n: nat): (cells: seq<int>)
    ensures |cells| == n
    ensures forall k :: 0 <= k < n ==> cells[k] == CellIndex(cols, rows, c, f + k)
  {
    seq(n, k requires 0 <= k < n => CellIndex(cols, rows, c, f + k))
  }

  /**
   * `g`, `fl` and `l` are what blocks of types `types` landing in column `c`
   * of grid `g0` with floors `fl0` leave: the landed list holds the cells
   * from the column's old floor up, the grid holds the types there, and the
   * floor rose by the number of blocks.
   */
  predicate Landed(cols: int, rows: int, g0: seq<GridCell>, fl0: seq<int>, c: int, types: seq<int>,
                   g: seq<GridCell>, fl: seq<int>, l: seq<int>)
  {
    && 0 <= c < |fl0|
    && l == LandingCells(cols, rows, c, fl0[c], |types|)
    && CellsIn(l, |g0|)
    && g == PlaceAll(g0, l, types)
    && fl == fl0[c := fl0[c] + |types|]
  }

  /** One more block landing on top of a landing: it fills the floor cell, which joins the list, and the floor rises by one. */
  lemma LandingStep(cols: int, rows: int, g0: seq<GridCell>, fl0: seq<int>, c: int, ts: seq<int>, t: int,
                    g: seq<GridCell>, fl: seq<int>, l: seq<int>)
    requires |g0| == cols * rows && |fl0| == cols && 0 <= c < cols && 0 <= fl0[c] && fl0[c] + |ts| < rows
    requires Landed(cols, rows, g0, fl0, c, ts, g, fl, l)
    ensures fl[c] == fl0[c] + |ts| && 0 <= CellIndex(cols, rows, c, fl[c]) < |g|
    ensures var x := CellIndex(cols, rows, c, fl[c]);
      Landed(cols, rows, g0, fl0, c, ts + [t], Put(g, x, Some(t)), fl[c := fl[c] + 1], l + [x])
  {
    var x := CellIndex(cols, rows, c, fl[c]);
    LandingCellsAppend(cols, rows, c, fl0[c], |ts|);
    PlaceAllAppend(g0, l, ts, x, t);
    assert fl[c := fl[c] + 1] == fl0[c := fl0[c] + |ts + [t]|];
  }

  /** One more landing cell: the next row up. */
  lemma LandingCellsAppend(cols: int, rows: int, c: int, f: int, n: nat)
    ensures LandingCells(cols, rows, c, f, n + 1) == LandingCells(cols, rows, c, f, n) + [CellIndex(cols, rows, c, f + n)]
  {
  }

  /** The landing cells lie in the grid, are distinct, and are exactly the cells of rows `f` up to `f + n` of column `c`. */
  lemma LandingCellsMeaning(cols: int, rows: int, c: int, f: int, n: nat)
    requires 0 <= c < cols && 0 <= f && f + n <= rows
    ensures var cells := LandingCells(cols, rows, c, f, n);
      && CellsIn(cells, cols * rows) && NoDup(cells)
      && forall c', r' :: InGrid(cols, rows, c', r') ==>
           (CellIndex(cols, rows, c', r') in cells <==> c' == c && f <= r' < f + n)
  {
    var cells := LandingCells(cols, rows, c, f, n);
    forall i, j | 0 <= i < j < n
      ensures cells[i] != cells[j]
    {
      if cells[i] == cells[j] {
        CellIndexInjective(cols, rows, c, f + i, c, f + j);
      }
    }
    forall c', r' | InGrid(cols, rows, c', r') && CellIndex(cols, rows, c', r') in cells
      ensures c' == c && f <= r' < f + n
    {
      var k :| 0 <= k < n && cells[k] == CellIndex(cols, rows, c', r');
      CellIndexInjective(cols, rows, c', r', c, f + k);
    }
    forall c', r' | c' == c && f <= r' < f + n
      ensures CellIndex(cols, rows, c', r') in cells
    {
      assert cells[r' - f] == CellIndex(cols, rows, c', r');
    }
  }

  /** Landing `types` on column `c` above row `f`: block k ends up in row `f + k`. */
  lemma LandedTypes(g: seq<GridCell>, cols: int, rows: int, c: int, f: int, types: seq<int>)
    requires |g| == cols * rows && 0 <= c < cols && 0 <= f && f + |types| <= rows
    ensures CellsIn(LandingCells(cols, rows, c, f, |types|), |g|)
    ensures forall k :: 0 <= k < |types| ==>
      Occupant(PlaceAll(g, LandingCells(cols, rows, c, f, |types|), types), cols, rows, c, f + k) == Some(types[k])
  {
    var cells := LandingCells(cols, rows, c, f, |types|);
    LandingCellsMeaning(cols, rows, c, f, |types|);
    PlaceAllMeaning(g, cells, types);
  }

  /**
   * Landing `types` on column `c`: the landed list names the landing cells
   * (each once, each now occupied), nothing else in the grid changes, and with
   * the floor raised by the piece size every floor still has only empty cells
   * above it.
   */
  lemma LandingMeaning(g: seq<GridCell>, cols: int, rows: int, fl: seq<int>, c: int, types: seq<int>)
    requires |g| == cols * rows && |fl| == cols && 0 <= c < cols
    requires FloorsInRange(fl, rows) && FloorsHold(g, cols, rows, fl)
    requires fl[c] + |types| <= rows
    ensures var cells := LandingCells(cols, rows, c, fl[c], |types|);
      && CellsIn(cells, |g|) && NoDup(cells)
      && var r := PlaceAll(g, cells, types);
      && (forall i :: 0 <= i < |g| && i !in cells ==> r[i] == g[i])
      && LandedOk(r, cells)
      && (cols > 0 && TileMapOk(g, cols, rows) ==> TileMapOk(r, cols, rows))
      && FloorsInRange(fl[c := fl[c] + |types|], rows)
      && FloorsHold(r, cols, rows, fl[c := fl[c] + |types|])
  {
    var f := fl[c];
    var n := |types|;
    var cells := LandingCells(cols, rows, c, f, n);
    LandingCellsMeaning(cols, rows, c, f, n);
    PlaceAllMeaning(g, cells, types);
    var r := PlaceAll(g, cells, types);
    var fl' := fl[c := f + n];
    assert LandedOk(r, cells);
    RaisedFloorHolds(g, r, cols, rows, fl, c, n);
  }

  /** Filling exactly rows `fl[c]` up to `fl[c] + n` of column `c` keeps the floors' promise with that floor raised by `n`. */
  lemma RaisedFloorHolds(g: seq<GridCell>, r: seq<GridCell>, cols: int, rows: int, fl: seq<int>, c: int, n: nat)
    requires |g| == cols * rows && |r| == |g| && |fl| == cols && 0 <= c < cols
    requires FloorsInRange(fl, rows) && FloorsHold(g, cols, rows, fl)
    requires fl[c] + n <= rows
    requires forall i :: 0 <= i < |g| && i !in LandingCells(cols, rows, c, fl[c], n) ==> r[i] == g[i]
    ensures FloorsInRange(fl[c := fl[c] + n], rows)
    ensures FloorsHold(r, cols, rows, fl[c := fl[c] + n])
  {
    LandingCellsMeaning(cols, rows, c, fl[c], n);
    var fl' := fl[c := fl[c] + n];
    forall c', row | InGrid(cols, rows, c', row) && fl'[c'] <= row
      ensures Occupant(r, cols, rows, c', row).None?
    {
      var i := CellIndex(cols, rows, c', row);
      assert r[i] == g[i];
    }
  }

  /** The storage indices of row `row`, left to right, as the game-over clearing walks them. */
  function RowCells(cols: int, rows: int, row: int): (cells: seq<int>)
    requires cols > 0 && 0 <= row < rows
    ensures |cells| == cols
    ensures forall k :: 0 <= k < cols ==> cells[k] == CellIndex(cols, rows, k, row)
  {
    Progression(CellIndex(cols, rows, 0, row), 1, cols)
  }

  /** The rows below `h` are exactly the indices below `cols * h`. */
  lemma RowPrefix(cols: int, rows: int, c: int, r: int, h: int)
    requires InGrid(cols, rows, c, r)
    ensures CellIndex(cols, rows, c, r) < cols * h <==> r < h
  {
    assert cols * h == cols * r + cols * (h - r);
    if r < h {
      MulAtLeast(cols, h - r);
    } else {
      assert cols * (r - h) >= 0;
    }
  }

  /** Clearing a row empties exactly the cells of that row. */
  lemma RowClearMeaning(g: seq<GridCell>, cols: int, rows: int, row: int)
    requires |g| == cols * rows && cols > 0 && 0 <= row < rows
    ensures CellsIn(RowCells(cols, rows, row), |g|)
    ensures var r := ClearAll(g, RowCells(cols, rows, row));
      && (forall c :: 0 <= c < cols ==> Occupant(r, cols, rows, c, row).None?)
      && (forall c, r' :: InGrid(cols, rows, c, r') && r' != row ==> Occupant(r, cols, rows, c, r') == Occupant(g, cols, rows, c, r'))
      && (forall i :: 0 <= i < |g| ==> r[i].tileMapColumn == g[i].tileMapColumn && r[i].tileMapRow == g[i].tileMapRow)
  {
    var cells := RowCells(cols, rows, row);
    assert CellsIn(cells, |g|);
    ClearAllMeaning(g, cells);
    forall c | 0 <= c < cols
      ensures CellIndex(cols, rows, c, row) in cells
    {
      assert cells[c] == CellIndex(cols, rows, c, row);
    }
    forall c, r' | InGrid(cols, rows, c, r') && r' != row
      ensures CellIndex(cols, rows, c, r') !in cells
    {
      if CellIndex(cols, rows, c, r') in cells {
        var k :| 0 <= k < |cells| && cells[k] == CellIndex(cols, rows, c, r');
        CellIndexInjective(cols, rows, c, r', k, row);
      }
    }
  }

  /**
   * A repositioning record the game can rely on: its destination is a cell of
   * the grid below its column's floor, and its timer has not run backwards.
   */
  predicate RecordOk(cols: int, rows: int, fl: seq<int>, rec: RepositioningBlock)
    requires |fl| == cols && cols >= 0
  {
    && 0 <= rec.cellIndex < cols * rows
    && ColumnRow(cols, rows, rec.cellIndex).1 < fl[ColumnRow(cols, rows, rec.cellIndex).0]
    && rec.timing.elapsed >= 0.0
  }

  predicate RecordsOk(cols: int, rows: int, fl: seq<int>, rs: seq<RepositioningBlock>)
    requires |fl| == cols && cols >= 0
  {
    forall j :: 0 <= j < |rs| ==> RecordOk(cols, rows, fl, rs[j])
  }

  /** One tick of a repositioning record: an unfinished one advances its timer and finishes when its progress reaches 1. */
  function Advanced(rec: RepositioningBlock, dt: real): (r: RepositioningBlock)
    requires rec.finished || rec.timing.limit != 0.0 || rec.timing.elapsed + dt > 0.0
    ensures r.cellIndex == rec.cellIndex && r.block == rec.block
    ensures rec.finished ==> r == rec
    ensures !rec.finished ==> r.timing == rec.timing.Advance(dt) && (r.finished <==> r.timing.Progress().Reached())
  {
    if rec.finished then rec
    else
      var u := rec.timing.Update(dt);
      rec.(timing := u.0, finished := u.1.Reached())
  }

  /** The record finishes during this tick. */
  predicate Arrives(rec: RepositioningBlock, dt: real)
    requires rec.finished || rec.timing.limit != 0.0 || rec.timing.elapsed + dt > 0.0
  {
    !rec.finished && Advanced(rec, dt).finished
  }

  predicate Advanceable(rs: seq<RepositioningBlock>, dt: real) {
    forall j :: 0 <= j < |rs| ==> rs[j].finished || rs[j].timing.limit != 0.0 || rs[j].timing.elapsed + dt > 0.0
  }

  /** Every record after one tick. */
  function AdvancedAll(rs: seq<RepositioningBlock>, dt: real): (r: seq<RepositioningBlock>)
    requires Advanceable(rs, dt)
    ensures |r| == |rs| && forall j :: 0 <= j < |rs| ==> r[j] == Advanced(rs[j], dt)
  {
    seq(|rs|, j requires 0 <= j < |rs| => Advanced(rs[j], dt))
  }

  predicate AllFinished(rs: seq<RepositioningBlock>) {
    forall j :: 0 <= j < |rs| ==> rs[j].finished
  }

  /** The destination cells of the records that finish this tick, in record order. */
  function ArrivedCells(rs: seq<RepositioningBlock>, dt: real): (cells: seq<int>)
    requires Advanceable(rs, dt)
    ensures |cells| <= |rs|
    decreases |rs|
  {
    if |rs| == 0 then []
    else
      ArrivedCells(rs[..|rs| - 1], dt)
      + (if Arrives(rs[|rs| - 1], dt) then [rs[|rs| - 1].cellIndex] else [])
  }

  /** The block types of the records that finish this tick, in record order. */
  function ArrivedTypes(rs: seq<RepositioningBlock>, dt: real): (types: seq<int>)
    requires Advanceable(rs, dt)
    ensures |types| == |ArrivedCells(rs, dt)|
    decreases |rs|
  {
    if |rs| == 0 then []
    else
      ArrivedTypes(rs[..|rs| - 1], dt)
      + (if Arrives(rs[|rs| - 1], dt) then [rs[|rs| - 1].block] else [])
  }

  /** The arrivals over a prefix one record longer. */
  lemma ArrivedStep(rs: seq<RepositioningBlock>, dt: real, j: int)
    requires Advanceable(rs, dt) && 0 <= j < |rs|
    ensures Advanceable(rs[..j], dt) && Advanceable(rs[..j + 1], dt)
    ensures ArrivedCells(rs[..j + 1], dt) == ArrivedCells(rs[..j], dt) + (if Arrives(rs[j], dt) then [rs[j].cellIndex] else [])
    ensures ArrivedTypes(rs[..j + 1], dt) == ArrivedTypes(rs[..j], dt) + (if Arrives(rs[j], dt) then [rs[j].block] else [])
  {
    assert rs[..j + 1][..j] == rs[..j];
  }

  /** The cells that arrive this tick are exactly the destinations of the records that finish this tick. */
  lemma {:induction false} ArrivedCellsMeaning(rs: seq<RepositioningBlock>, dt: real)
    requires Advanceable(rs, dt)
    ensures forall x :: x in ArrivedCells(rs, dt) <==> exists j :: 0 <= j < |rs| && Arrives(rs[j], dt) && rs[j].cellIndex == x
    decreases |rs|
  {
    if |rs| > 0 {
      var p := rs[..|rs| - 1];
      ArrivedCellsMeaning(p, dt);
      forall x | x in ArrivedCells(rs, dt)
        ensures exists j :: 0 <= j < |rs| && Arrives(rs[j], dt) && rs[j].cellIndex == x
      {
        if x in ArrivedCells(p, dt) {
          var j :| 0 <= j < |p| && Arrives(p[j], dt) && p[j].cellIndex == x;
          assert rs[j] == p[j];
        } else {
          assert Arrives(rs[|rs| - 1], dt) && rs[|rs| - 1].cellIndex == x;
        }
      }
      forall x, j | 0 <= j < |rs| && Arrives(rs[j], dt) && rs[j].cellIndex == x
        ensures x in ArrivedCells(rs, dt)
      {
        if j < |rs| - 1 {
          assert p[j] == rs[j];
        }
      }
    }
  }

  /**
   * Placing the arriving blocks at their destinations keeps the floors' promise
   * when every record points below its column's floor, and leaves every
   * arrived cell occupied.
   */
  lemma ArrivalsKeepFloors(g: seq<GridCell>, cols: int, rows: int, fl: seq<int>, rs: seq<RepositioningBlock>, dt: real)
    requires |g| == cols * rows && |fl| == cols && cols > 0
    requires FloorsHold(g, cols, rows, fl) && RecordsOk(cols, rows, fl, rs) && Advanceable(rs, dt)
    ensures CellsIn(ArrivedCells(rs, dt), |g|)
    ensures FloorsHold(PlaceAll(g, ArrivedCells(rs, dt), ArrivedTypes(rs, dt)), cols, rows, fl)
    ensures LandedOk(PlaceAll(g, ArrivedCells(rs, dt), ArrivedTypes(rs, dt)), ArrivedCells(rs, dt))
  {
    var cells := ArrivedCells(rs, dt);
    ArrivedCellsMeaning(rs, dt);
    assert CellsIn(cells, |g|) by {
      forall k | 0 <= k < |cells|
        ensures 0 <= cells[k] < |g|
      {
        assert cells[k] in cells;
      }
    }
    PlaceAllMeaning(g, cells, ArrivedTypes(rs, dt));
    forall c, r | InGrid(cols, rows, c, r) && fl[c] <= r
      ensures CellIndex(cols, rows, c, r) !in cells
    {
      if CellIndex(cols, rows, c, r) in cells {
        var j :| 0 <= j < |rs| && Arrives(rs[j], dt) && rs[j].cellIndex == CellIndex(cols, rows, c, r);
        CellIndexRoundTrip(cols, rows, c, r);
      }
    }
  }

  /**
   * One tick of repositioning keeps the board: the arrived blocks land
   * inside the grid, the tile map and the floors hold, every landed cell
   * (old or new) is occupied, and the advanced records still point below
   * their floors with non-negative timers.
   */
  lemma RepositioningKeepsBoard(g: seq<GridCell>, cols: int, rows: int, fl: seq<int>, rs: seq<RepositioningBlock>,
                                dt: real, landed: seq<int>)
    requires |g| == cols * rows && |fl| == cols && cols > 0 && dt > 0.0
    requires TileMapOk(g, cols, rows) && FloorsHold(g, cols, rows, fl) && RecordsOk(cols, rows, fl, rs) && LandedOk(g, landed)
    ensures Advanceable(rs, dt) && forall j :: 0 <= j < |rs| ==> 0 <= rs[j].cellIndex < |g|
    ensures CellsIn(ArrivedCells(rs, dt), |g|)
    ensures var r := PlaceAll(g, ArrivedCells(rs, dt), ArrivedTypes(rs, dt));
      && |r| == |g| && TileMapOk(r, cols, rows) && FloorsHold(r, cols, rows, fl)
      && LandedOk(r, landed + ArrivedCells(rs, dt))
    ensures RecordsOk(cols, rows, fl, AdvancedAll(rs, dt))
  {
    assert Advanceable(rs, dt) && forall j :: 0 <= j < |rs| ==> 0 <= rs[j].cellIndex < |g| by {
      forall j | 0 <= j < |rs|
        ensures rs[j].timing.elapsed + dt > 0.0 && 0 <= rs[j].cellIndex < |g|
      {
        assert RecordOk(cols, rows, fl, rs[j]);
      }
    }
    var cells, types := ArrivedCells(rs, dt), ArrivedTypes(rs, dt);
    ArrivalsKeepFloors(g, cols, rows, fl, rs, dt);
    PlaceAllMeaning(g, cells, types);
    PlaceKeepsLanded(g, cells, types, landed);
    var r := PlaceAll(g, cells, types);
    assert LandedOk(r, landed + cells) by {
      forall i | 0 <= i < |landed + cells|
        ensures 0 <= (landed + cells)[i] < |r| && r[(landed + cells)[i]].occupant.Some?
      {
        if i >= |landed| {
          assert (landed + cells)[i] == cells[i - |landed|];
        }
      }
    }
    var a := AdvancedAll(rs, dt);
    forall j | 0 <= j < |a|
      ensures RecordOk(cols, rows, fl, a[j])
    {
      assert RecordOk(cols, rows, fl, rs[j]);
    }
  }

  /**
   * What gravity leaves in the grid: the records of every column point below
   * that column's new floor (its block count) and start with fresh timers, and
   * the cells at or above the new floors are empty.
   */
  lemma {:induction false} AllRecordsOk(g: seq<GridCell>, cols: int, rows: int, fl: seq<int>, n: int, moveTime: real, nfl: seq<int>)
    requires |g| == cols * rows && |fl| == cols && |nfl| == cols && 0 <= n <= cols
    requires FloorsInRange(fl, rows)
    requires forall c :: 0 <= c < cols ==> nfl[c] == CountSome(ColumnOf(g, cols, rows, c, fl[c]))
    ensures RecordsOk(cols, rows, nfl, AllRecords(g, cols, rows, fl, n, moveTime))
    decreases n
  {
    if n > 0 {
      AllRecordsOk(g, cols, rows, fl, n - 1, moveTime, nfl);
      var c := n - 1;
      var s := ColumnOf(g, cols, rows, c, fl[c]);
      var ms := Moves(s);
      var rs := ColumnRecords(cols, rows, c, ms, moveTime);
      forall j | 0 <= j < |rs|
        ensures RecordOk(cols, rows, nfl, rs[j])
      {
        MoveAt(s, j);
        CellIndexRoundTrip(cols, rows, c, ms[j].dest);
      }
      var prev := AllRecords(g, cols, rows, fl, n - 1, moveTime);
      assert AllRecords(g, cols, rows, fl, n, moveTime) == prev + rs;
      forall j | 0 <= j < |prev + rs|
        ensures RecordOk(cols, rows, nfl, (prev + rs)[j])
      {
        if j >= |prev| {
          assert (prev + rs)[j] == rs[j - |prev|];
        }
      }
    }
  }

  /**
   * The column a gravity pass leaves: rows below the old floor hold what
   * `Cleared` keeps, rows from the new floor (the block count) up are empty.
   */
  lemma GravityFloorsHold(g: seq<GridCell>, g2: seq<GridCell>, cols: int, rows: int, fl: seq<int>, nfl: seq<int>)
    requires |g| == cols * rows && |g2| == cols * rows && |fl| == cols && |nfl| == cols
    requires FloorsInRange(fl, rows) && FloorsHold(g, cols, rows, fl)
    requires forall c :: 0 <= c < cols ==> nfl[c] == CountSome(ColumnOf(g, cols, rows, c, fl[c]))
    requires forall c, r :: InGrid(cols, rows, c, r) ==>
      Occupant(g2, cols, rows, c, r) == if r < fl[c] then Cleared(ColumnOf(g, cols, rows, c, fl[c]))[r] else Occupant(g, cols, rows, c, r)
    ensures FloorsInRange(nfl, rows) && FloorsHold(g2, cols, rows, nfl)
  {
    forall c | 0 <= c < cols
      ensures 0 <= nfl[c] <= fl[c]
    {
    }
    forall c, r | InGrid(cols, rows, c, r) && nfl[c] <= r
      ensures Occupant(g2, cols, rows, c, r).None?
    {
      if r < fl[c] {
        ClearedAboveCount(ColumnOf(g, cols, rows, c, fl[c]), r);
      }
    }
  }

  /**
   * A finished gravity pass keeps the board well formed: the tile-map
   * coordinates are untouched, the new floors hold, and every record points
   * below its column's new floor.
   */
  lemma GravityKeepsBoard(g: seq<GridCell>, g2: seq<GridCell>, cols: int, rows: int, fl: seq<int>, nfl: seq<int>,
                          rs: seq<RepositioningBlock>, moveTime: real)
    requires cols > 0 && |g| == cols * rows && |g2| == cols * rows && |fl| == cols && |nfl| == cols
    requires TileMapOk(g, cols, rows) && FloorsInRange(fl, rows) && FloorsHold(g, cols, rows, fl)
    requires rs == AllRecords(g, cols, rows, fl, cols, moveTime)
    requires forall c :: 0 <= c < cols ==> nfl[c] == CountSome(ColumnOf(g, cols, rows, c, fl[c]))
    requires forall i :: 0 <= i < |g2| ==> g2[i].tileMapColumn == g[i].tileMapColumn && g2[i].tileMapRow == g[i].tileMapRow
    requires forall c, r :: InGrid(cols, rows, c, r) ==>
      Occupant(g2, cols, rows, c, r) == if r < fl[c] then Cleared(ColumnOf(g, cols, rows, c, fl[c]))[r] else Occupant(g, cols, rows, c, r)
    ensures TileMapOk(g2, cols, rows) && FloorsInRange(nfl, rows) && FloorsHold(g2, cols, rows, nfl)
    ensures RecordsOk(cols, rows, nfl, rs)
  {
    GravityFloorsHold(g, g2, cols, rows, fl, nfl);
    AllRecordsOk(g, cols, rows, fl, cols, moveTime, nfl);
  }

  /** A grid whose every row above `row` is empty is entirely empty once `row` is -1. */
  lemma RowsAboveEmpty(g: seq<GridCell>, cols: int, rows: int)
    requires |g| == cols * rows && cols > 0
    requires forall c, r :: InGrid(cols, rows, c, r) && -1 < r ==> Occupant(g, cols, rows, c, r).None?
    ensures AllEmpty(g)
  {
    forall i | 0 <= i < |g|
      ensures g[i].occupant.None?
    {
      var cr := ColumnRow(cols, rows, i);
      assert Occupant(g, cols, rows, cr.0, cr.1).None?;
    }
  }

  /**
   * The initial fill goes in storage order: dropping an allowed type into the
   * first empty cell keeps every block allowed where it stands, since whether a
   * type is allowed only depends on the cells stored before it.
   */
  lemma FillKeepsAllowed(g: seq<GridCell>, cols: int, rows: int, minRun: int, idx: int, t: int)
    requires |g| == cols * rows && cols > 0 && 0 <= idx < |g|
    requires forall i :: 0 <= i < |g| ==> (g[i].occupant.Some? <==> i < idx)
    requires AllAllowed(g, cols, rows, minRun)
    requires Allowed(g, cols, rows, minRun, ColumnRow(cols, rows, idx).0, ColumnRow(cols, rows, idx).1, t)
    ensures AllAllowed(Put(g, idx, Some(t)), cols, rows, minRun)
  {
    var g2 := Put(g, idx, Some(t));
    forall i | 0 <= i < |g2| && g2[i].occupant.Some?
      ensures Allowed(g2, cols, rows, minRun, ColumnRow(cols, rows, i).0, ColumnRow(cols, rows, i).1, g2[i].occupant.value)
    {
      var cr := ColumnRow(cols, rows, i);
      AllowedFrame(g, g2, cols, rows, minRun, cr.0, cr.1, g2[i].occupant.value);
    }
  }

  /**
   * `IsGameLost` of the traditional mode: the rows left above the spawn
   * column's floor cannot hold a whole piece, that is, some cell a new piece
   * would be spawned into lies off the grid or below that column's floor.
   */
  function IsGameLost(cols: int, rows: int, fl: seq<int>, pieceSize: int): (lost: bool)
    requires |fl| == cols && cols > 0
    ensures pieceSize >= 1 && 0 <= fl[cols / 2] ==>
      (!lost <==> forall r :: rows - pieceSize <= r < rows ==> InGrid(cols, rows, cols / 2, r) && fl[cols / 2] <= r)
  {
    // The lowest spawn cell witnesses a loss.
    assert InGrid(cols, rows, cols / 2, rows - pieceSize) ==> 0 <= rows - pieceSize;
    rows - fl[cols / 2] < pieceSize
  }

  /**
   * When the game is not lost, the cells a new piece is spawned into (the
   * middle column, from `rows - pieceSize` up) all lie in the grid at or above
   * that column's floor.
   */
  lemma SpawnCellsFree(cols: int, rows: int, fl: seq<int>, pieceSize: int)
    requires |fl| == cols && cols > 0 && FloorsInRange(fl, rows) && pieceSize >= 1
    requires !IsGameLost(cols, rows, fl, pieceSize)
    ensures 0 <= cols / 2 < cols && fl[cols / 2] < rows
    ensures forall r :: rows - pieceSize <= r < rows ==> InGrid(cols, rows, cols / 2, r) && fl[cols / 2] <= r
  {
    assert 0 <= fl[cols / 2];
  }

  /**
   * `OnPlayerPieceLanded` of the traditional mode: the speed progress after a
   * landing, moved up by the progress delta and kept in [0, 1].
   */
  function SpeedAfterLanding(p: real, delta: real): (r: real)
    ensures 0.0 <= r <= 1.0
    ensures r == p + delta || (r == 1.0 && p + delta > 1.0) || (r == 0.0 && p + delta < 0.0)
    ensures 0.0 <= p <= 1.0 && delta >= 0.0 ==> p <= r
  {
    Clamp(p + delta, 0.0, 1.0)
  }

  function SpeedAfterLandings(p: real, delta: real, n: nat): real
    decreases n
  {
    if n == 0 then p else SpeedAfterLandings(SpeedAfterLanding(p, delta), delta, n - 1)
  }

  /** From any progress in [0, 1], enough landings to cover the distance at `delta` each bring the speed to its maximum. */
  lemma {:induction false} SpeedSaturates(p: real, delta: real, n: nat)
    requires 0.0 <= p <= 1.0 && delta > 0.0 && n as real * delta >= 1.0 - p
    ensures SpeedAfterLandings(p, delta, n) == 1.0
    decreases n
  {
    if p < 1.0 {
      assert n > 0;
      var q := SpeedAfterLanding(p, delta);
      assert (n - 1) as real * delta == n as real * delta - delta;
      SpeedSaturates(q, delta, n - 1);
    } else {
      SpeedStaysAtMax(delta, n);
    }
  }

  /** With a non-negative delta, a speed progress at its maximum stays there. */
  lemma {:induction false} SpeedStaysAtMax(delta: real, n: nat)
    requires delta >= 0.0
    ensures SpeedAfterLandings(1.0, delta, n) == 1.0
    decreases n
  {
    if n > 0 {
      SpeedStaysAtMax(delta, n - 1);
    }
  }

  /**
   * The score a match earns: matched blocks times the score per block, scaled
   * by the chain bonus, converted to an integer by truncation.
   */
  function ScoreDelta(matchedCount: int, scorePerBlock: int, bonus: real): (d: int)
    ensures matchedCount >= 0 && scorePerBlock >= 0 && bonus >= 0.0 ==>
      0 <= d && d as real <= (matchedCount * scorePerBlock) as real * bonus < d as real + 1.0
  {
    TruncToInt((matchedCount * scorePerBlock) as real * bonus)
  }

  /** A longer chain never earns less for the same matched blocks. */
  lemma ScoreGrowsWithBonus(matchedCount: int, scorePerBlock: int, b1: real, b2: real)
    requires matchedCount >= 0 && scorePerBlock >= 0 && 0.0 <= b1 <= b2
    ensures ScoreDelta(matchedCount, scorePerBlock, b1) <= ScoreDelta(matchedCount, scorePerBlock, b2)
  {
    var base := (matchedCount * scorePerBlock) as real;
    assert base >= 0.0;
    var x, y := base * b1, base * b2;
    assert 0.0 <= x <= y;
    var dx, dy := ScoreDelta(matchedCount, scorePerBlock, b1), ScoreDelta(matchedCount, scorePerBlock, b2);
    assert dx as real <= x && y < dy as real + 1.0;
  }

  /**
   * The cell `OnSideMove` reads the destination coordinates from, as written:
   * the destination column at its floor row. For a full column (floor equal to
   * the row count) that cell is off the grid and the index is -1.
   */
  function SideMoveProbe(cols: int, rows: int, fl: seq<int>, destCol: int): (i: int)
    requires |fl| == cols && 0 <= destCol < cols
    ensures i == -1 <==> !(0 <= fl[destCol] < rows)
  {
    CellIndex(cols, rows, destCol, fl[destCol])
  }

  /**
   * A full column is reachable: in the default 9 x 16 grid, a 3-block piece
   * landing on a floor of 13 in column 0 raises that floor to 16, and the probe
   * of a side move into that column is then index -1, outside the cell array.
   */
  lemma SideMoveProbeOffGrid()
    ensures var fl := seq(9, c => 13);
      && FloorsInRange(fl, 16)
      && !IsGameLost(9, 16, fl, 3)
      && var fl' := fl[0 := fl[0] + 3];
      && FloorsInRange(fl', 16)
      && SideMoveProbe(9, 16, fl', 0) == -1
  {
  }

  /**
   * The corrected probe: no destination cell when the column is full (the move
   * is refused), otherwise the index of the destination column's floor cell.
   */
  function SideMoveTarget(cols: int, rows: int, fl: seq<int>, destCol: int): (r: Option<int>)
    requires |fl| == cols && 0 <= destCol < cols && FloorsInRange(fl, rows)
    ensures r.Some? <==> fl[destCol] < rows
    ensures r.Some? ==> 0 <= r.value < cols * rows && ColumnRow(cols, rows, r.value) == (destCol, fl[destCol])
  {
    if fl[destCol] < rows then
      CellIndexRoundTrip(cols, rows, destCol, fl[destCol]);
      Some(CellIndex(cols, rows, destCol, fl[destCol]))
    else
      None
  }

  /** The corrected probe agrees with the original one wherever the original names a cell of the grid. */
  lemma SideMoveTargetAgrees(cols: int, rows: int, fl: seq<int>, destCol: int)
    requires |fl| == cols && 0 <= destCol < cols && FloorsInRange(fl, rows)
    ensures SideMoveProbe(cols, rows, fl, destCol) != -1 <==> SideMoveTarget(cols, rows, fl, destCol).Some?
    ensures SideMoveTarget(cols, rows, fl, destCol).Some? ==>
      SideMoveTarget(cols, rows, fl, destCol).value == SideMoveProbe(cols, rows, fl, destCol)
  {
  }
}
