/**
 * The in-game mode: the grid of landed blocks, the per-column floors, the
 * player piece, and the state machine that a frame tick drives through
 * spawning, falling, matching, removal, gravity and game over. The base mode
 * and the traditional mode (its initial board, game-over test and speed
 * progression) are one class here, with the traditional overrides in place.
 */
module GameModes {
  import opened Wrappers
  import opened Numeric
  import opened Helpers
  import opened Blocks
  import opened Piece
  import opened Grid
  import opened Matching
  import opened Floors
  import opened Gravity
  import opened Traditional
  import opened Controller
  import opened Library
  import opened GameRules

  /** The collectors' start index, written per axis, is `back` backward steps from the block. */
  lemma BackEndIndex(i0: int, back: int, cols: int, axis: Axis)
    ensures axis.Back().IndexStep(cols) == match axis
      case Horizontal => -1
      case Vertical => -cols
      case Diagonal1 => cols - 1
      case Diagonal2 => -cols - 1
    ensures i0 + back * axis.Back().IndexStep(cols) == match axis
      case Horizontal => i0 - back
      case Vertical => i0 - back * cols
      case Diagonal1 => i0 - back + back * cols
      case Diagonal2 => i0 - back - back * cols
  {
    match axis
    case Horizontal =>
    case Vertical =>
    case Diagonal1 =>
      assert back * (cols - 1) == back * cols - back;
    case Diagonal2 =>
      assert back * (-cols - 1) == -(back * cols) - back;
  }

  lemma NextMultiple(k: int, step: int)
    ensures (k + 1) * step == k * step + step
  {
  }

  /** The type ids of a row of blocks, in order. */
  function TypeIds(bs: seq<Block?>): (ts: seq<int>)
    requires forall k :: 0 <= k < |bs| ==> bs[k] != null
    reads bs
    ensures |ts| == |bs| && forall k :: 0 <= k < |bs| ==> ts[k] == bs[k].typeId
    decreases |bs|
  {
    if |bs| == 0 then [] else TypeIds(bs[..|bs| - 1]) + [bs[|bs| - 1].typeId]
  }

  /** A record of the mode's state at the start of a frame (see `GameMode.Snapshot`). */
  datatype Before = Before(
    state: State, grid: seq<GridCell>, floors: seq<int>, landed: seq<int>, matched: seq<int>,
    repositioning: seq<RepositioningBlock>, nextBlock: seq<int>, drawCount: nat, countdown: real,
    clearRow: int, clearTime: real, bonusMultiplier: real, speedProgress: real, blinkTime: Timing,
    pieceTypes: seq<int>, pieceColumn: int, fallTime: Timing, fallRate: real, score: int)

  class GameMode {
    // Settings fixed for the life of the mode.
    const cols: int
    const rows: int
    /** The traditional mode's number of rows filled before play starts. */
    const initialFloor: int
    /** The game instance's settings, when there is a game instance. */
    const config: Option<Config>
    /** The number of block types in the theme. */
    const typeCount: int
    /** The random block picker: the type id of the n-th pick. */
    const draw: nat -> int
    /** The play field's world location of a tile-map cell. */
    const fieldLocation: (int, int) -> Vec
    const scaledCellSize: real
    /** The traditional mode's speed curve, from speed progress to vertical move time. */
    const speedCurve: Option<real -> real>
    const pc: PlayerController?
    const piece: PlayerPiece

    // The designer-editable settings (see `Tuning`).
    const scorePerBlock: int
    const chainedMultiDelta: real
    const initialCountdown: int
    const gameOverClearTime: real
    const progressDelta: real

    var grid: seq<GridCell>
    var floors: seq<int>
    var landed: seq<int>
    var matched: seq<int>
    var repositioning: seq<RepositioningBlock>
    var nextBlock: seq<int>
    var blinkTime: Timing
    var shiftTimer: real
    var sideMoveTimer: real
    var countdown: real
    var clearRow: int
    var clearTime: real
    var bonusMultiplier: real
    var state: State
    var speedProgress: real
    /** How many blocks have been picked so far. */
    var drawCount: nat

    function PieceSize(): int {
      PlayerPieceSize(config)
    }

    function MinRun(): int {
      MinimumMatchRunSize(config)
    }

    /** The settings the mode relies on: a non-empty grid, pieces of at least two blocks that fit it, and a fair picker over at least five types. */
    ghost predicate Settings() {
      && cols > 0 && rows > 0
      && 2 <= PieceSize() <= rows && MinRun() >= 2
      && VerticalFastMultiplier(config) > 0.0
      && typeCount >= 5 && FairDraw(draw, typeCount)
      && initialFloor < rows && scaledCellSize > 0.0
    }

    /** The board: a grid of the configured size whose cells keep their coordinates, and floors that hold. */
    ghost predicate BoardOk()
      reads this`grid, this`floors
    {
      && Settings()
      && |grid| == cols * rows && |floors| == cols
      && TileMapOk(grid, cols, rows)
      && FloorsInRange(floors, rows) && FloorsHold(grid, cols, rows, floors)
    }

    /** The player piece: its own invariant, the mode outside its footprint, and timers that have not run backwards. */
    ghost predicate PieceOk()
      reads piece, piece.blocks
    {
      && piece.Valid() && this !in piece.Repr
      && piece.verticalTime.elapsed >= 0.0 && piece.horizontalTime.elapsed >= 0.0
      && piece.vertAlphaMultiplier > 0.0
    }

    ghost predicate Valid()
      reads this, piece, piece.blocks
    {
      && BoardOk()
      && PieceOk()
      && blinkTime.elapsed >= 0.0
      && 0.0 <= speedProgress <= 1.0
      && (state == NotStarted || state == GameInit ==> AllEmpty(grid))
      && (state != NotStarted && state != GameInit ==>
            && piece.blocks.Length == PieceSize() && |nextBlock| == PieceSize()
            && forall k :: 0 <= k < |nextBlock| ==> 0 <= nextBlock[k] < typeCount)
      && (state == Playtime ==> piece.Spawned() && 0 <= piece.currentColumn < cols)
      && (state == CheckMatch || state == Repositioning ==> LandedOk(grid, landed))
      && (state == RemovingBlock ==> NoDup(matched) && LandedOk(grid, matched))
      && (state == RemovingBlock || state == CheckPlayfield ==> landed == [])
      && (state == Repositioning ==> RecordsOk(cols, rows, floors, repositioning))
      && (state == GameLost ==>
            && 0 <= clearRow < rows
            && forall c, r :: InGrid(cols, rows, c, r) && clearRow < r ==> Occupant(grid, cols, rows, c, r).None?)
      && (state == EndGame ==> AllEmpty(grid))
    }

    /**
     * The constructor and `OnConstruction`: an empty grid whose cells carry
     * their tile-map coordinates, all floors at 0, no state function yet.
     */
    constructor (cols: int, rows: int, initialFloor: int, config: Option<Config>, typeCount: int,
                 draw: nat -> int, fieldLocation: (int, int) -> Vec, scaledCellSize: real,
                 speedCurve: Option<real -> real>, tuning: Tuning, pc: PlayerController?)
      requires cols > 0 && rows > 0 && 2 <= PlayerPieceSize(config) <= rows && MinimumMatchRunSize(config) >= 2
      requires VerticalFastMultiplier(config) > 0.0 && typeCount >= 5 && FairDraw(draw, typeCount)
      requires initialFloor < rows && scaledCellSize > 0.0
      ensures Valid() && fresh(piece) && fresh(piece.Repr)
      ensures state == NotStarted && AllEmpty(grid) && floors == seq(cols, c => 0)
      ensures shiftTimer == 0.0 && sideMoveTimer == 0.0 && bonusMultiplier == 1.0 && speedProgress == 0.0
      ensures this.cols == cols && this.rows == rows && this.initialFloor == initialFloor && this.config == config
      ensures this.typeCount == typeCount && this.draw == draw && this.pc == pc
      ensures scorePerBlock == tuning.scorePerBlock && chainedMultiDelta == tuning.chainedMultiDelta
      ensures initialCountdown == tuning.initialCountdown && gameOverClearTime == tuning.gameOverClearTime
      ensures progressDelta == tuning.progressDelta
    {
      this.cols := cols;
      this.rows := rows;
      this.initialFloor := initialFloor;
      this.config := config;
      this.typeCount := typeCount;
      this.draw := draw;
      this.fieldLocation := fieldLocation;
      this.scaledCellSize := scaledCellSize;
      this.speedCurve := speedCurve;
      scorePerBlock := tuning.scorePerBlock;
      chainedMultiDelta := tuning.chainedMultiDelta;
      initialCountdown := tuning.initialCountdown;
      gameOverClearTime := tuning.gameOverClearTime;
      progressDelta := tuning.progressDelta;
      this.pc := pc;
      piece := new PlayerPiece();
      landed := [];
      matched := [];
      repositioning := [];
      nextBlock := [];
      blinkTime := Timing.Default();
      shiftTimer := 0.0;
      sideMoveTimer := 0.0;
      countdown := 0.0;
      clearRow := 0;
      clearTime := 0.0;
      bonusMultiplier := 1.0;
      state := NotStarted;
      speedProgress := 0.0;
      drawCount := 0;
      new;
      OnConstruction();
    }

    /** Builds the cell array row by row from the top of the tile map, and zeroes the floors. */
    method OnConstruction()
      requires cols > 0 && rows > 0
      modifies this`grid, this`floors
      ensures |grid| == cols * rows && TileMapOk(grid, cols, rows) && AllEmpty(grid)
      ensures floors == seq(cols, c => 0)
    {
      var cellCount := cols * rows;
      var g := seq(cellCount, i => EmptyCell(0, 0));
      var row := rows - 1;
      var col := 0;
      var i := 0;
      while i < cellCount
        invariant 0 <= i <= cellCount && |g| == cellCount
        invariant (col, row) == TileMapCell(cols, rows, i)
        invariant AllEmpty(g)
        invariant forall j :: 0 <= j < i ==> (g[j].tileMapColumn, g[j].tileMapRow) == TileMapCell(cols, rows, j)
      {
        g := g[i := EmptyCell(col, row)];
        TileMapNext(cols, rows, i);
        col := col + 1;
        if col == cols {
          col := 0;
          row := row - 1;
        }
        i := i + 1;
      }
      grid := g;
      floors := [];
      var c := 0;
      while c < cols
        invariant 0 <= c <= cols && floors == seq(c, k => 0)
        invariant |grid| == cellCount && TileMapOk(grid, cols, rows) && AllEmpty(grid)
      {
        floors := floors + [0];
        c := c + 1;
      }
    }

    /** Play begins in the game-init state. */
    method BeginPlay()
      requires Valid() && state == NotStarted
      modifies this`state
      ensures Valid() && state == GameInit
    {
      state := GameInit;
    }

    /** Picks the next block type. */
    method PickRandomBlock() returns (t: int)
      requires FairDraw(draw, typeCount)
      modifies this`drawCount
      ensures t == draw(old(drawCount)) && drawCount == old(drawCount) + 1
      ensures 0 <= t < typeCount
    {
      t := draw(drawCount);
      drawCount := drawCount + 1;
    }

    /** The world location of cell `i`: the play field's location of its tile-map cell. */
    function GetCellLocation(i: int): (loc: Vec)
      requires 0 <= i < |grid|
      reads this`grid
      ensures cols > 0 && TileMapOk(grid, cols, rows) ==> loc == fieldLocation(i % cols, rows - 1 - i / cols)
    {
      fieldLocation(grid[i].tileMapColumn, grid[i].tileMapRow)
    }

    /**
     * The cell at column `c`, row `r` (counted from the bottom) is drawn at the
     * tile-map cell of the same column and the mirrored row.
     */
    lemma CellLocationFlipsRows(c: int, r: int)
      requires BoardOk() && InGrid(cols, rows, c, r)
      ensures 0 <= CellIndex(cols, rows, c, r) < |grid|
      ensures GetCellLocation(CellIndex(cols, rows, c, r)) == fieldLocation(c, rows - 1 - r)
    {
      var i := CellIndex(cols, rows, c, r);
      TileMapFlipsRows(cols, rows, c, r);
      assert (grid[i].tileMapColumn, grid[i].tileMapRow) == TileMapCell(cols, rows, i);
    }

    /** Stores a block type in cell `i`, when `i` is below the cell count. */
    method AddBlockToGridData(i: int, t: int)
      requires 0 <= i
      modifies this`grid
      ensures grid == if i < |old(grid)| then Put(old(grid), i, Some(t)) else old(grid)
    {
      if i < |grid| {
        grid := grid[i := grid[i].(occupant := Some(t))];
      }
    }

    /**
     * Spawns a block of type `t` one unit towards the camera from cell
     * (column, row), optionally recording it in the grid. No block for a type
     * outside the theme or a cell outside the grid.
     */
    method SpawnBlock(column: int, row: int, t: int, addToGrid: bool) returns (b: Block?)
      requires |grid| == cols * rows && cols > 0 && 0 <= t
      modifies this`grid
      ensures |grid| == |old(grid)| && TileMapOk(grid, cols, rows) == TileMapOk(old(grid), cols, rows)
      ensures b == null <==> t >= typeCount || !InGrid(cols, rows, column, row)
      ensures b != null ==> fresh(b) && b.typeId == t
      ensures b != null ==> b.location == GetCellLocation(CellIndex(cols, rows, column, row)).Plus(Vec(0.0, 1.0, 0.0))
      ensures grid == if b != null && addToGrid then Put(old(grid), CellIndex(cols, rows, column, row), Some(t)) else old(grid)
    {
      if t >= typeCount {
        return null;
      }
      var i := CellIndex(cols, rows, column, row);
      if i == -1 {
        return null;
      }
      var location := GetCellLocation(i).Plus(Vec(0.0, 1.0, 0.0));
      b := new Block(location);
      b.InitTypeID(t);
      if addToGrid {
        AddBlockToGridData(i, t);
      }
    }

    /**
     * The directional match counters (`GetLeftMatch` through
     * `GetDownRightMatch`): walking from the neighbour of (column, row) in
     * direction `d`, the number of consecutive cells holding type `t`.
     */
    method GetMatch(column: int, row: int, d: Direction, t: int) returns (count: int)
      requires |grid| == cols * rows
      ensures count == Run(grid, cols, rows, column, row, d, t)
    {
      var c, r := column + d.DCol(), row + d.DRow();
      var i := CellIndex(cols, rows, c, r);
      if i < 0 {
        return 0;
      }
      count := 0;
      while InGrid(cols, rows, c, r)
        invariant InGrid(cols, rows, c, r) ==> i == CellIndex(cols, rows, c, r)
        invariant count + RunFrom(grid, cols, rows, c, r, d, t) == Run(grid, cols, rows, column, row, d, t)
        decreases Span(cols, rows, c, r, d)
      {
        if grid[i].occupant != Some(t) {
          return count;
        }
        count := count + 1;
        if InGrid(cols, rows, c + d.DCol(), r + d.DRow()) {
          StepIndex(cols, rows, c, r, d);
        }
        i := i + d.IndexStep(cols);
        c, r := c + d.DCol(), r + d.DRow();
      }
    }

    /**
     * The collectors (`CountHorizontalMatches` through
     * `CountDiagonal2Matches`): when the run through (column, row) along
     * `axis` reaches the minimum size, each of its cells is added to the
     * matched list unless already there.
     */
    method CountMatches(column: int, row: int, t: int, axis: Axis)
      requires |grid| == cols * rows && InGrid(cols, rows, column, row)
      modifies this`matched
      ensures matched == AddAllUnique(old(matched), AxisMatch(grid, cols, rows, MinRun(), column, row, t, axis))
    {
      var back := GetMatch(column, row, axis.Back(), t);
      var fwd := GetMatch(column, row, axis.Forward(), t);
      var i0 := CellIndex(cols, rows, column, row);
      var readIndex := match axis
        case Horizontal => i0 - back
        case Vertical => i0 - back * cols
        case Diagonal1 => i0 - back + back * cols
        case Diagonal2 => i0 - back - back * cols;
      BackEndIndex(i0, back, cols, axis);
      var step := axis.Forward().IndexStep(cols);
      var total := back + fwd + 1;
      assert AxisMatch(grid, cols, rows, MinRun(), column, row, t, axis)
          == if total >= MinRun() then Progression(readIndex, step, total) else [];
      if total >= MinRun() {
        AddRun(readIndex, step, total);
      }
    }

    /** The collectors' loop: adds `n` indices from `start` in steps of `step`, each unless already present. */
    method AddRun(start: int, step: int, n: nat)
      modifies this`matched
      ensures matched == AddAllUnique(old(matched), Progression(start, step, n))
    {
      var readIndex := start;
      var k := 0;
      while k < n
        invariant 0 <= k <= n
        invariant readIndex == start + k * step
        invariant matched == AddAllUnique(old(matched), Progression(start, step, k))
      {
        assert Progression(start, step, k + 1)[..k] == Progression(start, step, k);
        NextMultiple(k, step);
        matched := AddUnique(matched, readIndex);
        readIndex := readIndex + step;
        k := k + 1;
      }
    }

    /**
     * Collects every match through the landed blocks into the matched list.
     * When there is any, the landed list is emptied and the result is true.
     */
    method CheckMatchingBlocks() returns (found: bool)
      requires |grid| == cols * rows && cols > 0 && LandedOk(grid, landed)
      modifies this`matched, this`landed
      ensures matched == MatchedSet(grid, cols, rows, MinRun(), old(landed))
      ensures found <==> |matched| > 0
      ensures landed == if found then [] else old(landed)
    {
      matched := [];
      var j := 0;
      while j < |landed|
        invariant 0 <= j <= |landed| && landed == old(landed)
        invariant matched == AddAllUnique([], LandedMatches(grid, cols, rows, MinRun(), landed[..j]))
      {
        var cell := landed[j];
        var t := grid[cell].occupant.value;
        var cr := ColumnRow(cols, rows, cell);
        ghost var before := matched;
        CountMatches(cr.0, cr.1, t, Horizontal);
        CountMatches(cr.0, cr.1, t, Vertical);
        CountMatches(cr.0, cr.1, t, Diagonal1);
        CountMatches(cr.0, cr.1, t, Diagonal2);
        ghost var h := CellAxisMatch(grid, cols, rows, MinRun(), cell, Horizontal);
        ghost var v := CellAxisMatch(grid, cols, rows, MinRun(), cell, Vertical);
        ghost var d1 := CellAxisMatch(grid, cols, rows, MinRun(), cell, Diagonal1);
        ghost var d2 := CellAxisMatch(grid, cols, rows, MinRun(), cell, Diagonal2);
        ghost var prev := LandedMatches(grid, cols, rows, MinRun(), landed[..j]);
        AddAllUniqueAppend([], prev, h + v + d1 + d2);
        AddAllUniqueAppend(AddAllUnique([], prev), h + v + d1, d2);
        AddAllUniqueAppend(AddAllUnique([], prev), h + v, d1);
        AddAllUniqueAppend(AddAllUnique([], prev), h, v);
        assert landed[..j + 1][..j] == landed[..j];
        j := j + 1;
      }
      assert landed[..j] == landed;
      if |matched| > 0 {
        landed := [];
        return true;
      }
      return false;
    }

    /** Recomputes every column's floor by scanning it from the top row down while the cells are empty. */
    method CheckGridFloorLevels()
      requires |grid| == cols * rows && |floors| == cols && cols > 0 && rows > 0
      modifies this`floors
      ensures |floors| == cols
      ensures forall c :: 0 <= c < cols ==> floors[c] == ColumnFloor(grid, cols, rows, c)
    {
      var fl := floors;
      var col := 0;
      while col < cols
        invariant 0 <= col <= cols && |fl| == cols
        invariant forall c :: 0 <= c < col ==> fl[c] == ColumnFloor(grid, cols, rows, c)
      {
        var floor := ScanFloor(grid, col);
        fl := fl[col := floor];
        col := col + 1;
      }
      floors := fl;
    }

    /**
     * The inner loop of `CheckGridFloorLevels`: column `col` of `g` read from
     * the top row down; the floor starts at -1 and follows each empty cell,
     * and the scan stops at the first occupied one.
     */
    method ScanFloor(g: seq<GridCell>, col: int) returns (floor: int)
      requires |g| == cols * rows && cols > 0 && rows > 0 && 0 <= col < cols
      ensures floor == ColumnFloor(g, cols, rows, col)
    {
      floor := -1;
      var readIndex := (rows - 1) * cols + col;
      var readRow := rows - 1;
      while readIndex >= 0
        invariant -1 <= readRow < rows
        invariant readIndex >= 0 ==> 0 <= readRow && readIndex == cols * readRow + col
        invariant ColumnFloor(g, cols, rows, col)
               == if readIndex >= 0 then FloorScan(g, cols, rows, col, readRow, floor) else floor
        decreases readIndex + 1
      {
        if g[readIndex].occupant.Some? {
          readIndex := -1;
        } else {
          floor := readRow;
          readRow := readRow - 1;
          readIndex := readIndex - cols;
        }
      }
    }
    /**
     * The time of a move across `diff` world units at `perCell` seconds per
     * (scaled) cell: one cell's distance takes `perCell`, and time is never
     * negative for a non-negative distance and rate.
     */
    function MoveTime(diff: real, perCell: real): (t: real)
      requires scaledCellSize > 0.0
      ensures diff == scaledCellSize ==> t == perCell
      ensures diff >= 0.0 && perCell >= 0.0 ==> t >= 0.0
    {
      diff / scaledCellSize * perCell
    }

    /** `OnGetVerticalMoveTime`: the traditional mode's speed curve at the current progress, or the configured time. */
    function VerticalMoveTimeNow(): (t: real)
      reads this`speedProgress
      ensures speedCurve.Some? ==> t == speedCurve.value(speedProgress)
      ensures speedCurve.None? ==> t == VerticalMoveTime(config)
    {
      if speedCurve.Some? then speedCurve.value(speedProgress) else VerticalMoveTime(config)
    }

    /**
     * Empties the grid and the helper lists, zeroes the floors, marks the next
     * piece as unknown and sends the state machine back to game init.
     */
    method RestartGame()
      requires Valid()
      modifies this`grid, this`floors, this`landed, this`matched, this`repositioning, this`nextBlock, this`state
      ensures Valid() && state == GameInit
      ensures AllEmpty(grid) && |grid| == |old(grid)|
      ensures forall i :: 0 <= i < |grid| ==>
        grid[i].tileMapColumn == old(grid)[i].tileMapColumn && grid[i].tileMapRow == old(grid)[i].tileMapRow
      ensures floors == seq(cols, c => 0)
      ensures landed == [] && matched == [] && repositioning == []
      ensures nextBlock == seq(|old(nextBlock)|, k => -1)
    {
      var g := grid;
      var i := 0;
      while i < |g|
        invariant 0 <= i <= |g| == |grid|
        invariant forall j :: 0 <= j < i ==> g[j].occupant.None?
        invariant forall j :: 0 <= j < |g| ==>
          g[j].tileMapColumn == grid[j].tileMapColumn && g[j].tileMapRow == grid[j].tileMapRow
      {
        if g[i].occupant.Some? {
          g := Put(g, i, None);
        }
        i := i + 1;
      }
      var fl := floors;
      var c := 0;
      while c < |fl|
        invariant 0 <= c <= |fl| == cols
        invariant forall k :: 0 <= k < c ==> fl[k] == 0
      {
        fl := fl[c := 0];
        c := c + 1;
      }
      var next := nextBlock;
      var k := 0;
      while k < |next|
        invariant 0 <= k <= |next| == |nextBlock|
        invariant forall j :: 0 <= j < k ==> next[j] == -1
      {
        next := next[k := -1];
        k := k + 1;
      }
      grid, floors, nextBlock, landed, matched, repositioning, state := g, fl, next, [], [], [], GameInit;
    }

    /**
     * The start countdown: the remaining time drops by `dt`, never below 0,
     * and spawning starts once the displayed (rounded-up) value reaches 0,
     * which is exactly when the countdown has run out.
     */
    method StateStartCountdown(dt: real)
      requires Valid() && state == StartCountdown
      modifies this`countdown, this`state
      ensures Valid()
      ensures countdown == if old(countdown) - dt < 0.0 then 0.0 else old(countdown) - dt
      ensures state == (if CeilToInt(countdown) == 0 then Spawning else StartCountdown)
      ensures state == Spawning <==> countdown == 0.0
    {
      countdown := countdown - dt;
      if countdown < 0.0 {
        countdown := 0.0;
      }
      var displayValue := CeilToInt(countdown);
      if displayValue == 0 {
        state := Spawning;
      } else {
        state := StartCountdown;
      }
    }

    /**
     * Looks for matches through the landed blocks. With a match: the blink
     * timer starts, the player earns the matched blocks times the score per
     * block times the chain bonus, the bonus grows, and removal begins.
     * Without one, the next piece spawns.
     */
    method StateCheckMatch()
      requires Valid() && state == CheckMatch
      modifies this`matched, this`landed, this`blinkTime, this`bonusMultiplier, this`state, pc
      ensures Valid() && grid == old(grid) && floors == old(floors)
      ensures matched == MatchedSet(old(grid), cols, rows, MinRun(), old(landed))
      ensures |matched| > 0 ==>
        && state == RemovingBlock && landed == []
        && blinkTime == old(blinkTime).Set(BlinkingTime(config))
        && bonusMultiplier == old(bonusMultiplier) + chainedMultiDelta
        && (pc != null ==> pc.currentScore == old(pc.currentScore) + ScoreDelta(|matched|, scorePerBlock, old(bonusMultiplier)))
      ensures |matched| == 0 ==>
        && state == Spawning && landed == old(landed)
        && blinkTime == old(blinkTime) && bonusMultiplier == old(bonusMultiplier)
        && (pc != null ==> pc.currentScore == old(pc.currentScore))
    {
      var found := CheckMatchingBlocks();
      if found {
        MatchedSetOk(grid, cols, rows, MinRun(), old(landed));
        AwardMatch();
      } else {
        state := Spawning;
      }
    }

    /** A match was found: the player scores it, the chain bonus grows and the matched blocks start to blink. */
    method AwardMatch()
      requires Valid() && state == CheckMatch && landed == [] && |matched| > 0
      requires NoDup(matched) && LandedOk(grid, matched)
      modifies this`blinkTime, this`bonusMultiplier, this`state, pc
      ensures Valid() && state == RemovingBlock
      ensures blinkTime == old(blinkTime).Set(BlinkingTime(config))
      ensures bonusMultiplier == old(bonusMultiplier) + chainedMultiDelta
      ensures pc != null ==> pc.currentScore == old(pc.currentScore) + ScoreDelta(|matched|, scorePerBlock, old(bonusMultiplier))
    {
      var scoreDelta := ScoreDelta(|matched|, scorePerBlock, bonusMultiplier);
      var _ := Library.ChangeScore(pc, scoreDelta);
      blinkTime, bonusMultiplier, state := blinkTime.Set(BlinkingTime(config)), bonusMultiplier + chainedMultiDelta, RemovingBlock;
    }

    /**
     * The blink before removal: the blink timer advances by `dt`; once its
     * progress reaches 1 every matched cell is emptied and the playfield is
     * checked for gaps.
     */
    method StateRemovingBlock(dt: real)
      requires Valid() && state == RemovingBlock && dt > 0.0
      modifies this`blinkTime, this`grid, this`matched, this`state
      ensures Valid() && floors == old(floors)
      ensures blinkTime == old(blinkTime).Advance(dt)
      ensures blinkTime.Progress().Reached() ==>
        && CellsIn(old(matched), |old(grid)|)
        && state == CheckPlayfield && grid == ClearAll(old(grid), old(matched)) && matched == []
      ensures !blinkTime.Progress().Reached() ==>
        state == RemovingBlock && grid == old(grid) && matched == old(matched)
    {
      var u := blinkTime.Update(dt);
      if u.1.Reached() {
        ghost var g0 := grid;
        assert CellsIn(matched, |grid|);
        var g := ClearCells(grid, matched);
        ClearAllMeaning(g0, matched);
        EmptierKeepsFloors(g0, g, cols, rows, floors);
        grid, matched, blinkTime, state := g, [], u.0, CheckPlayfield;
      } else {
        blinkTime, state := u.0, RemovingBlock;
      }
    }

    /** The removal loop of `StateRemovingBlock`: each listed cell of `g` is emptied, in order. */
    method ClearCells(g0: seq<GridCell>, cells: seq<int>) returns (g: seq<GridCell>)
      requires CellsIn(cells, |g0|)
      ensures g == ClearAll(g0, cells)
    {
      g := g0;
      var j := 0;
      while j < |cells|
        invariant 0 <= j <= |cells| && g == ClearAll(g0, cells[..j])
      {
        assert cells[..j + 1][..j] == cells[..j];
        g := Put(g, cells[j], None);
        j := j + 1;
      }
      assert cells[..j] == cells;
    }

    /**
     * Gravity: every column is scanned from row 0 up to its floor; each block
     * with a gap under it is taken out of its cell and recorded for
     * repositioning onto the first free row, and the floor becomes the number
     * of blocks in the column. Repositioning follows when anything moves,
     * spawning otherwise.
     */
    method StateCheckPlayfield()
      requires Valid() && state == CheckPlayfield
      modifies this`grid, this`floors, this`repositioning, this`state
      ensures Valid()
      ensures repositioning == AllRecords(old(grid), cols, rows, old(floors), cols, RepositionMoveTime(config))
      ensures |floors| == cols
      ensures forall c :: 0 <= c < cols ==> floors[c] == CountSome(ColumnOf(old(grid), cols, rows, c, old(floors)[c]))
      ensures forall c, r :: InGrid(cols, rows, c, r) ==>
        Occupant(grid, cols, rows, c, r) ==
          if r < old(floors)[c] then Cleared(ColumnOf(old(grid), cols, rows, c, old(floors)[c]))[r]
          else Occupant(old(grid), cols, rows, c, r)
      ensures state == (if |repositioning| > 0 then Repositioning else Spawning)
    {
      ApplyGravity();
      state := if |repositioning| > 0 then Repositioning else Spawning;
    }

    /** The column loop of `StateCheckPlayfield`, starting from an empty record list. */
    method ApplyGravity()
      requires BoardOk()
      modifies this`grid, this`floors, this`repositioning
      ensures BoardOk() && RecordsOk(cols, rows, floors, repositioning)
      ensures repositioning == AllRecords(old(grid), cols, rows, old(floors), cols, RepositionMoveTime(config))
      ensures forall c :: 0 <= c < cols ==> floors[c] == CountSome(ColumnOf(old(grid), cols, rows, c, old(floors)[c]))
      ensures forall c, r :: InGrid(cols, rows, c, r) ==>
        Occupant(grid, cols, rows, c, r) ==
          if r < old(floors)[c] then Cleared(ColumnOf(old(grid), cols, rows, c, old(floors)[c]))[r]
          else Occupant(old(grid), cols, rows, c, r)
    {
      repositioning := [];
      ghost var g0 := grid;
      ghost var fl0 := floors;
      ghost var moveTime := RepositionMoveTime(config);
      var col := 0;
      while col < cols
        invariant GravityUpTo(g0, fl0, moveTime, col)
      {
        SettleNext(g0, fl0, moveTime, col);
        col := col + 1;
      }
      assert GravityUpTo(g0, fl0, moveTime, cols);
      GravityKeepsBoard(g0, grid, cols, rows, fl0, floors, repositioning, moveTime);
    }

    /**
     * Gravity has run on the columns before `col`: their records have been
     * added in column order, their floors are their block counts, and their
     * moved blocks have left their cells; the rest of the grid is as it was.
     */
    ghost predicate GravityUpTo(g0: seq<GridCell>, fl0: seq<int>, moveTime: real, col: int)
      reads this`grid, this`floors, this`repositioning
    {
      && |g0| == cols * rows && |fl0| == cols && FloorsInRange(fl0, rows) && 0 <= col <= cols
      && |grid| == |g0| && |floors| == cols && moveTime == RepositionMoveTime(config)
      && repositioning == AllRecords(g0, cols, rows, fl0, col, moveTime)
      && (forall c :: 0 <= c < cols ==>
            floors[c] == if c < col then CountSome(ColumnOf(g0, cols, rows, c, fl0[c])) else fl0[c])
      && (forall i :: 0 <= i < |grid| ==>
            grid[i].tileMapColumn == g0[i].tileMapColumn && grid[i].tileMapRow == g0[i].tileMapRow)
      && (forall c, r :: InGrid(cols, rows, c, r) ==>
            Occupant(grid, cols, rows, c, r) ==
              if c < col && r < fl0[c] then Cleared(ColumnOf(g0, cols, rows, c, fl0[c]))[r]
              else Occupant(g0, cols, rows, c, r))
    }

    /** One column of gravity: the column is settled and its floor set to its block count. */
    method SettleNext(ghost g0: seq<GridCell>, ghost fl0: seq<int>, ghost moveTime: real, col: int)
      requires GravityUpTo(g0, fl0, moveTime, col) && col < cols
      modifies this`grid, this`floors, this`repositioning
      ensures GravityUpTo(g0, fl0, moveTime, col + 1)
    {
      assert ColumnOf(grid, cols, rows, col, fl0[col]) == ColumnOf(g0, cols, rows, col, fl0[col]);
      var newFloor := SettleColumn(col);
      floors := floors[col := newFloor];
    }

    /**
     * The repositioning blocks fall: every unfinished record advances by `dt`,
     * and one that finishes puts its block into its destination cell and adds
     * that cell to the landed list. Once every record has finished the list
     * is emptied and the landed blocks are checked for matches.
     */
    method StateRepositioning(dt: real)
      requires Valid() && state == Repositioning && dt > 0.0
      modifies this`repositioning, this`landed, this`grid, this`state
      ensures Valid() && floors == old(floors)
      ensures Advanceable(old(repositioning), dt) && CellsIn(ArrivedCells(old(repositioning), dt), |old(grid)|)
      ensures landed == old(landed) + ArrivedCells(old(repositioning), dt)
      ensures grid == PlaceAll(old(grid), ArrivedCells(old(repositioning), dt), ArrivedTypes(old(repositioning), dt))
      ensures AllFinished(AdvancedAll(old(repositioning), dt)) ==> state == CheckMatch && repositioning == []
      ensures !AllFinished(AdvancedAll(old(repositioning), dt)) ==>
        state == Repositioning && repositioning == AdvancedAll(old(repositioning), dt)
    {
      RepositioningKeepsBoard(grid, cols, rows, floors, repositioning, dt, landed);
      var finished := AdvanceRecords(dt);
      if finished {
        repositioning := [];
        state := CheckMatch;
      } else {
        state := Repositioning;
      }
    }

    /**
     * The loop over the repositioning records: each unfinished one advances,
     * and one that finishes is landed. The result tells whether every record
     * has finished.
     */
    method AdvanceRecords(dt: real) returns (finished: bool)
      requires Advanceable(repositioning, dt)
      requires forall j :: 0 <= j < |repositioning| ==> 0 <= repositioning[j].cellIndex < |grid|
      modifies this`repositioning, this`landed, this`grid
      ensures repositioning == AdvancedAll(old(repositioning), dt)
      ensures finished <==> AllFinished(repositioning)
      ensures CellsIn(ArrivedCells(old(repositioning), dt), |old(grid)|)
      ensures landed == old(landed) + ArrivedCells(old(repositioning), dt)
      ensures grid == PlaceAll(old(grid), ArrivedCells(old(repositioning), dt), ArrivedTypes(old(repositioning), dt))
    {
      ghost var rs0, g0, l0 := repositioning, grid, landed;
      var rs := repositioning;
      var g := grid;
      var l := landed;
      finished := true;
      var j := 0;
      while j < |rs|
        invariant AdvancedUpTo(rs0, g0, l0, dt, rs, g, l, finished, j)
      {
        rs, g, l, finished := AdvanceRecord(rs0, g0, l0, dt, rs, g, l, finished, j);
        j := j + 1;
      }
      assert rs0[..j] == rs0;
      grid := g;
      landed := l;
      repositioning := rs;
    }

    /**
     * The records before `j` have advanced one tick, those that finished
     * have been landed in order, and `finished` tells whether all of the
     * first `j` have finished.
     */
    ghost predicate AdvancedUpTo(rs0: seq<RepositioningBlock>, g0: seq<GridCell>, l0: seq<int>, dt: real,
                                 rs: seq<RepositioningBlock>, g: seq<GridCell>, l: seq<int>, finished: bool, j: int)
    {
      && Advanceable(rs0, dt)
      && (forall i :: 0 <= i < |rs0| ==> 0 <= rs0[i].cellIndex < |g0|)
      && 0 <= j <= |rs| == |rs0|
      && (forall i :: 0 <= i < j ==> rs[i] == Advanced(rs0[i], dt))
      && (forall i :: j <= i < |rs| ==> rs[i] == rs0[i])
      && CellsIn(ArrivedCells(rs0[..j], dt), |g0|)
      && l == l0 + ArrivedCells(rs0[..j], dt)
      && g == PlaceAll(g0, ArrivedCells(rs0[..j], dt), ArrivedTypes(rs0[..j], dt))
      && (finished <==> forall i :: 0 <= i < j ==> rs[i].finished)
    }

    /** One record of the loop: an unfinished one advances, and lands if it finishes now. */
    method AdvanceRecord(ghost rs0: seq<RepositioningBlock>, ghost g0: seq<GridCell>, ghost l0: seq<int>, dt: real,
                         rs: seq<RepositioningBlock>, g: seq<GridCell>, l: seq<int>, finished: bool, j: int)
      returns (rs': seq<RepositioningBlock>, g': seq<GridCell>, l': seq<int>, finished': bool)
      requires AdvancedUpTo(rs0, g0, l0, dt, rs, g, l, finished, j) && j < |rs|
      ensures AdvancedUpTo(rs0, g0, l0, dt, rs', g', l', finished', j + 1)
    {
      ArrivedStep(rs0, dt, j);
      ghost var cells, types := ArrivedCells(rs0[..j], dt), ArrivedTypes(rs0[..j], dt);
      rs', g', l', finished' := rs, g, l, finished;
      if !rs[j].finished {
        var u := rs[j].timing.Update(dt);
        var rec := rs[j].(timing := u.0, finished := u.1.Reached());
        assert rec == Advanced(rs0[j], dt);
        rs' := rs[j := rec];
        finished' := finished && rec.finished;
        if rec.finished {
          assert Arrives(rs0[j], dt);
          // `AddBlockToGridData`, whose bound check the record's in-range index passes.
          l' := l + [rec.cellIndex];
          PlaceAllAppend(g0, cells, types, rec.cellIndex, rec.block);
          g' := Put(g, rec.cellIndex, Some(rec.block));
        } else {
          assert !Arrives(rs0[j], dt);
          assert cells + [] == cells && types + [] == types;
        }
      } else {
        assert !Arrives(rs0[j], dt);
        assert cells + [] == cells && types + [] == types;
      }
    }

    /**
     * The scan of one column: rows 0 up to the floor, counting the blocks met
     * so far; a block with fewer blocks below it than its row is taken out of
     * its cell and recorded to move down onto the row that count names.
     */
    method SettleColumn(col: int) returns (newFloor: int)
      requires |grid| == cols * rows && |floors| == cols && cols > 0
      requires 0 <= col < cols && 0 <= floors[col] <= rows
      modifies this`grid, this`repositioning
      ensures var s := ColumnOf(old(grid), cols, rows, col, floors[col]);
        && newFloor == CountSome(s)
        && repositioning == old(repositioning) + ColumnRecords(cols, rows, col, Moves(s), RepositionMoveTime(config))
      ensures |grid| == |old(grid)|
      ensures forall i :: 0 <= i < |grid| ==>
        grid[i].tileMapColumn == old(grid)[i].tileMapColumn && grid[i].tileMapRow == old(grid)[i].tileMapRow
      ensures forall c, r :: InGrid(cols, rows, c, r) ==>
        Occupant(grid, cols, rows, c, r) ==
          if c == col && r < floors[col] then Cleared(ColumnOf(old(grid), cols, rows, col, floors[col]))[r]
          else Occupant(old(grid), cols, rows, c, r)
    {
      var g, recs;
      g, recs, newFloor := ScanColumn(grid, col, floors[col]);
      grid := g;
      repositioning := repositioning + recs;
    }

    /**
     * The loop of `SettleColumn` over rows 0 up to `floor` of column `col`,
     * on the grid's value: the grid afterwards, the records it adds and the
     * column's new floor.
     */
    method ScanColumn(g0: seq<GridCell>, col: int, floor: int) returns (g: seq<GridCell>, recs: seq<RepositioningBlock>, newFloor: int)
      requires |g0| == cols * rows && 0 <= col < cols && 0 <= floor <= rows
      ensures var s := ColumnOf(g0, cols, rows, col, floor);
        && newFloor == CountSome(s)
        && recs == ColumnRecords(cols, rows, col, Moves(s), RepositionMoveTime(config))
        && |g| == |g0| && ScannedBelow(g, g0, cols, rows, col, floor, s)
      ensures forall i :: 0 <= i < |g| ==> g[i].tileMapColumn == g0[i].tileMapColumn && g[i].tileMapRow == g0[i].tileMapRow
    {
      ghost var s := ColumnOf(g0, cols, rows, col, floor);
      var moveTime := RepositionMoveTime(config);
      g := g0;
      recs := [];
      newFloor := 0;
      var readIndex := CellIndex(cols, rows, col, 0);
      var row := 0;
      while row < floor
        invariant 0 <= row <= floor
        invariant Scanned(g0, col, s, moveTime, g, recs, newFloor, readIndex, row)
      {
        g, recs, newFloor, readIndex := ScanRow(g0, col, s, moveTime, g, recs, newFloor, readIndex, row);
        row := row + 1;
      }
      assert s[..row] == s;
    }

    /**
     * The scan of column `col` of `g0` has passed the rows below `row`: the
     * grid, the records and the count of blocks met are those rows' share,
     * and `readIndex` names the cell of row `row`.
     */
    ghost predicate Scanned(g0: seq<GridCell>, col: int, s: seq<Option<int>>, moveTime: real,
                            g: seq<GridCell>, recs: seq<RepositioningBlock>, newFloor: int, readIndex: int, row: int)
    {
      && |g0| == cols * rows && 0 <= col < cols && |s| <= rows && 0 <= row <= |s|
      && (forall r :: 0 <= r < |s| ==> s[r] == Occupant(g0, cols, rows, col, r))
      && |g| == |g0|
      && (row < |s| ==> readIndex == CellIndex(cols, rows, col, row))
      && newFloor == CountSome(s[..row])
      && recs == ColumnRecords(cols, rows, col, Moves(s[..row]), moveTime)
      && (forall i :: 0 <= i < |g| ==> g[i].tileMapColumn == g0[i].tileMapColumn && g[i].tileMapRow == g0[i].tileMapRow)
      && ScannedBelow(g, g0, cols, rows, col, row, s)
    }

    /** One row of the scan: a block with a gap under it leaves its cell and gets a record. */
    method ScanRow(g0: seq<GridCell>, col: int, ghost s: seq<Option<int>>, moveTime: real,
                   g: seq<GridCell>, recs: seq<RepositioningBlock>, newFloor: int, readIndex: int, row: int)
      returns (g': seq<GridCell>, recs': seq<RepositioningBlock>, newFloor': int, readIndex': int)
      requires Scanned(g0, col, s, moveTime, g, recs, newFloor, readIndex, row) && row < |s|
      ensures Scanned(g0, col, s, moveTime, g', recs', newFloor', readIndex', row + 1)
    {
      ScannedStep(g, g0, cols, rows, col, row, s);
      RecordsStep(cols, rows, col, s, row, moveTime);
      ScanStep(s, row);
      g', recs', newFloor' := g, recs, newFloor;
      if g[readIndex].occupant.Some? {
        var block := g[readIndex].occupant.value;
        var gapLevel := row - newFloor;
        if gapLevel > 0 {
          g' := Put(g, readIndex, None);
          // `NewRepositioning` with the gap's time, aimed at the destination cell.
          var rec := Record(cols, rows, col, Move(gapLevel, newFloor, block), moveTime);
          recs' := recs + [rec];
        }
        newFloor' := newFloor + 1;
      }
      if row + 1 < rows {
        StepIndex(cols, rows, col, row, Up);
      }
      readIndex' := readIndex + cols;
    }

    /**
     * The game-over sweep: every `gameOverClearTime` seconds one row is
     * emptied, from the top row down, carrying over the surplus time; once
     * row 0 has been emptied the game ends with an empty grid.
     */
    method StateGameLost(dt: real)
      requires Valid() && state == GameLost && dt > 0.0
      modifies this`clearTime, this`grid, this`clearRow, this`state
      ensures Valid() && floors == old(floors)
      ensures old(clearTime) + dt < gameOverClearTime ==>
        && clearTime == old(clearTime) + dt && grid == old(grid)
        && clearRow == old(clearRow) && state == GameLost
      ensures old(clearTime) + dt >= gameOverClearTime ==>
        && grid == ClearAll(old(grid), RowCells(cols, rows, old(clearRow)))
        && clearTime == old(clearTime) + dt - gameOverClearTime
        && clearRow == old(clearRow) - 1
        && state == (if clearRow < 0 then EndGame else GameLost)
      ensures state == EndGame ==> AllEmpty(grid)
    {
      var time := clearTime + dt;
      if time >= gameOverClearTime {
        ghost var g0 := grid;
        ClearGridRow(clearRow);
        RowClearMeaning(g0, cols, rows, clearRow);
        ClearAllMeaning(g0, RowCells(cols, rows, clearRow));
        EmptierKeepsFloors(g0, grid, cols, rows, floors);
        var row := clearRow - 1;
        if row < 0 {
          RowsAboveEmpty(grid, cols, rows);
        }
        clearTime, clearRow, state := time - gameOverClearTime, row, if row < 0 then EndGame else GameLost;
      } else {
        clearTime := time;
      }
    }

    /** The game-over sweep's loop: empties every cell of one row, left to right. */
    method ClearGridRow(row: int)
      requires |grid| == cols * rows && cols > 0 && 0 <= row < rows
      modifies this`grid
      ensures CellsIn(RowCells(cols, rows, row), |old(grid)|)
      ensures grid == ClearAll(old(grid), RowCells(cols, rows, row))
    {
      ghost var cells := RowCells(cols, rows, row);
      RowClearMeaning(grid, cols, rows, row);
      var g := grid;
      var clearIndex := CellIndex(cols, rows, 0, row);
      var col := 0;
      while col < cols
        invariant 0 <= col <= cols && |g| == |grid|
        invariant clearIndex == CellIndex(cols, rows, 0, row) + col
        invariant g == ClearAll(grid, cells[..col])
      {
        assert cells[..col + 1][..col] == cells[..col];
        assert clearIndex == cells[col];
        if g[clearIndex].occupant.Some? {
          g := Put(g, clearIndex, None);
        } else {
          assert Put(g, clearIndex, None) == g;
        }
        clearIndex := clearIndex + 1;
        col := col + 1;
      }
      assert cells[..col] == cells;
      grid := g;
    }

    /**
     * The rotate input during play: a released input re-arms the repeat
     * delay; a pushed one, once the delay has run out, rotates the piece's
     * block order (down for a negative value, up for a positive one) and
     * starts the delay again. Outside play nothing happens.
     */
    method OnRotatePiece(axisValue: real)
      requires Valid()
      modifies this`shiftTimer, piece.Repr
      ensures Valid() && piece.blocks == old(piece.blocks)
      ensures state != Playtime ==> shiftTimer == old(shiftTimer) && piece.blocks[..] == old(piece.blocks[..])
      ensures state == Playtime && axisValue == 0.0 ==> shiftTimer == 0.0 && piece.blocks[..] == old(piece.blocks[..])
      ensures state == Playtime && axisValue != 0.0 && old(shiftTimer) > 0.0 ==>
        shiftTimer == old(shiftTimer) && piece.blocks[..] == old(piece.blocks[..])
      ensures state == Playtime && axisValue != 0.0 && old(shiftTimer) <= 0.0 ==>
        && shiftTimer == InputShiftDelay(config)
        && piece.blocks[..] == if axisValue < 0.0 then RotateDown(old(piece.blocks[..])) else RotateUp(old(piece.blocks[..]))
      ensures multiset(piece.blocks[..]) == multiset(old(piece.blocks[..]))
    {
      RotationsPermute(piece.blocks[..]);
      if state != Playtime {
        return;
      }
      if axisValue == 0.0 {
        shiftTimer := 0.0;
      } else if shiftTimer <= 0.0 {
        shiftTimer := InputShiftDelay(config);
        if axisValue < 0.0 {
          piece.ShiftDown();
        } else {
          piece.ShiftUp();
        }
      }
    }

    /** The column a side move with input `axisValue` heads for: one to the left for a negative value, else one to the right. */
    function SideMoveColumn(axisValue: real): int
      reads this, piece
    {
      piece.currentColumn + (if axisValue < 0.0 then -1 else 1)
    }

    /**
     * A pushed side move is accepted during play once the repeat delay has
     * run out, into a column of the grid that is not full, when the piece's
     * bottom block is not below that column's floor cell.
     */
    ghost predicate SideMoveAccepted(axisValue: real)
      requires Valid()
      reads this, piece, piece.blocks, piece.Repr
    {
      && state == Playtime && axisValue != 0.0 && sideMoveTimer <= 0.0
      && 0 <= SideMoveColumn(axisValue) < cols
      && SideMoveTarget(cols, rows, floors, SideMoveColumn(axisValue)).Some?
      && !(piece.GetPieceZ() as real < GetCellLocation(SideMoveTarget(cols, rows, floors, SideMoveColumn(axisValue)).value).z)
    }

    /**
     * The side-move input during play. A released input re-arms the repeat
     * delay. An accepted move sends every block towards the destination
     * column's floor cell, horizontally and vertically, with times scaled by
     * the distances in cells, makes that column the piece's column and starts
     * the repeat delay. Anything else leaves the piece as it is.
     */
    method OnSideMove(axisValue: real)
      requires Valid()
      modifies this`sideMoveTimer, piece.Repr
      ensures Valid() && piece.blocks == old(piece.blocks) && piece.blocks[..] == old(piece.blocks[..])
      ensures state == Playtime && axisValue == 0.0 ==> sideMoveTimer == 0.0
      ensures old(SideMoveAccepted(axisValue)) ==>
        var dest := old(SideMoveColumn(axisValue));
        var coord := GetCellLocation(CellIndex(cols, rows, dest, floors[dest]));
        && piece.currentColumn == dest
        && piece.isSideMoving
        && piece.horizontalTime == old(piece.horizontalTime).Set(MoveTime(old(piece.GetHorizDiff(coord.x)), HorizontalMoveTime(config)))
        && piece.verticalTime == old(piece.verticalTime).Set(MoveTime(old(piece.GetVertDiff(coord.z)), VerticalMoveTimeNow()))
        && (forall k :: 0 <= k < piece.blocks.Length ==>
              && piece.blocks[k].finalPosition == old(piece.blocks[k].finalPosition).(x := coord.x,
                   z := coord.z + k as real * (old(piece.blocks[1].location.z) - old(piece.blocks[0].location.z)))
              && piece.blocks[k].originalPosition == old(piece.blocks[k].location)
              && piece.blocks[k].location == old(piece.blocks[k].location)
              && piece.blocks[k].typeId == old(piece.blocks[k].typeId))
        && sideMoveTimer == SideMoveDelay(config)
      ensures piece.hasLanded == old(piece.hasLanded) && piece.vertAlphaMultiplier == old(piece.vertAlphaMultiplier)
      ensures !old(SideMoveAccepted(axisValue)) ==>
        && piece.currentColumn == old(piece.currentColumn) && piece.isSideMoving == old(piece.isSideMoving)
        && piece.horizontalTime == old(piece.horizontalTime) && piece.verticalTime == old(piece.verticalTime)
        && (forall k :: 0 <= k < piece.blocks.Length && piece.blocks[k] != null ==>
              && piece.blocks[k].finalPosition == old(piece.blocks[k].finalPosition)
              && piece.blocks[k].originalPosition == old(piece.blocks[k].originalPosition)
              && piece.blocks[k].location == old(piece.blocks[k].location)
              && piece.blocks[k].typeId == old(piece.blocks[k].typeId))
        && (state != Playtime || axisValue != 0.0 ==> sideMoveTimer == old(sideMoveTimer))
    {
      if state != Playtime {
        return;
      }
      if axisValue == 0.0 {
        sideMoveTimer := 0.0;
        return;
      }
      if sideMoveTimer > 0.0 {
        return;
      }
      var destCol := piece.GetCurrentColumn() + (if axisValue < 0.0 then -1 else 1);
      if destCol < 0 || destCol >= cols {
        return;
      }
      var target := SideMoveTarget(cols, rows, floors, destCol);
      if target.None? {
        return;
      }
      var destCoord := GetCellLocation(target.value);
      if (piece.GetPieceZ() as real) < destCoord.z {
        return;
      }
      AcceptSideMove(destCol, destCoord);
    }

    /** An accepted side move: the piece moves towards `dest` in column `destCol`, and the repeat delay starts. */
    method AcceptSideMove(destCol: int, dest: Vec)
      requires Valid() && state == Playtime && 0 <= destCol < cols
      modifies this`sideMoveTimer, piece.Repr
      ensures Valid() && piece.blocks == old(piece.blocks) && piece.blocks[..] == old(piece.blocks[..])
      ensures piece.currentColumn == destCol && piece.isSideMoving
      ensures piece.horizontalTime == old(piece.horizontalTime).Set(MoveTime(old(piece.GetHorizDiff(dest.x)), HorizontalMoveTime(config)))
      ensures piece.verticalTime == old(piece.verticalTime).Set(MoveTime(old(piece.GetVertDiff(dest.z)), VerticalMoveTimeNow()))
      ensures forall k :: 0 <= k < piece.blocks.Length ==>
        && piece.blocks[k].finalPosition == old(piece.blocks[k].finalPosition).(x := dest.x,
             z := dest.z + k as real * (old(piece.blocks[1].location.z) - old(piece.blocks[0].location.z)))
        && piece.blocks[k].originalPosition == old(piece.blocks[k].location)
        && piece.blocks[k].location == old(piece.blocks[k].location)
        && piece.blocks[k].typeId == old(piece.blocks[k].typeId)
      ensures piece.hasLanded == old(piece.hasLanded) && piece.vertAlphaMultiplier == old(piece.vertAlphaMultiplier)
      ensures sideMoveTimer == SideMoveDelay(config)
    {
      MovePiece(destCol, dest);
      sideMoveTimer := SideMoveDelay(config);
    }

    /** The moves of an accepted side move: across and down to `dest`, timed by distance in cells, into column `destCol`. */
    method MovePiece(destCol: int, dest: Vec)
      requires Settings() && piece.Valid() && piece.Spawned() && piece.blocks.Length >= 2 && this !in piece.Repr
      modifies piece.Repr
      ensures piece.Valid() && piece.Spawned() && piece.Repr == old(piece.Repr)
      ensures piece.blocks == old(piece.blocks) && piece.blocks[..] == old(piece.blocks[..])
      ensures piece.currentColumn == destCol && piece.isSideMoving
      ensures piece.horizontalTime == old(piece.horizontalTime).Set(MoveTime(old(piece.GetHorizDiff(dest.x)), HorizontalMoveTime(config)))
      ensures piece.verticalTime == old(piece.verticalTime).Set(MoveTime(old(piece.GetVertDiff(dest.z)), VerticalMoveTimeNow()))
      ensures forall k :: 0 <= k < piece.blocks.Length ==>
        && piece.blocks[k].finalPosition == old(piece.blocks[k].finalPosition).(x := dest.x,
             z := dest.z + k as real * (old(piece.blocks[1].location.z) - old(piece.blocks[0].location.z)))
        && piece.blocks[k].originalPosition == old(piece.blocks[k].location)
        && piece.blocks[k].location == old(piece.blocks[k].location)
        && piece.blocks[k].typeId == old(piece.blocks[k].typeId)
      ensures piece.hasLanded == old(piece.hasLanded) && piece.vertAlphaMultiplier == old(piece.vertAlphaMultiplier)
    {
      var htime := MoveTime(piece.GetHorizDiff(dest.x), HorizontalMoveTime(config));
      var vtime := MoveTime(piece.GetVertDiff(dest.z), VerticalMoveTimeNow());
      piece.SideMove(dest.x, htime);
      piece.VerticalMove(dest.z, vtime);
      piece.SetCurrentColumn(destCol);
    }

    /**
     * The landing: each block of the piece, in slot order, goes into the
     * landing column's floor cell, that cell joins the landed list, and the
     * floor rises by one.
     */
    method LandPiece(column: int)
      requires |grid| == cols * rows && |floors| == cols && 0 <= column < cols && 0 <= floors[column]
      requires piece.Spawned() && floors[column] + piece.blocks.Length <= rows
      modifies this`grid, this`floors, this`landed
      ensures Landed(cols, rows, old(grid), old(floors), column, TypeIds(piece.blocks[..]), grid, floors, landed)
    {
      var types := TypeIds(piece.blocks[..]);
      grid, floors, landed := LandTypes(grid, floors, column, types);
      assert TypeIds(piece.blocks[..]) == types;
    }

    /**
     * The landing loop of `LandPiece`, over the blocks' types in slot order:
     * each goes into the column's floor cell, that cell joins the landed
     * list, and the floor rises by one.
     */
    method LandTypes(g0: seq<GridCell>, fl0: seq<int>, column: int, types: seq<int>) returns (g: seq<GridCell>, fl: seq<int>, l: seq<int>)
      requires |g0| == cols * rows && |fl0| == cols && 0 <= column < cols && 0 <= fl0[column]
      requires fl0[column] + |types| <= rows
      ensures Landed(cols, rows, g0, fl0, column, types, g, fl, l)
    {
      g, fl, l := g0, fl0, [];
      assert fl0[column := fl0[column] + 0] == fl0;
      var k := 0;
      while k < |types|
        invariant 0 <= k <= |types| && Landed(cols, rows, g0, fl0, column, types[..k], g, fl, l)
      {
        LandingStep(cols, rows, g0, fl0, column, types[..k], types[k], g, fl, l);
        assert types[..k + 1] == types[..k] + [types[k]];
        var cellIndex := CellIndex(cols, rows, column, fl[column]);
        l := l + [cellIndex];
        // `AddBlockToGridData`, whose bound check the in-grid index passes.
        g := Put(g, cellIndex, Some(types[k]));
        fl := fl[column := fl[column] + 1];
        k := k + 1;
      }
      assert types[..k] == types;
    }

    /**
     * Play: the piece falls for `dt` seconds. Once it has landed its blocks
     * enter the grid on top of its column, the piece's slots are emptied,
     * the traditional mode's speed progress moves up, and the landed blocks
     * are checked for matches.
     */
    method StatePlaytime(dt: real)
      requires Valid() && state == Playtime && dt > 0.0
      requires floors[piece.currentColumn] + PieceSize() <= rows
      modifies this`grid, this`floors, this`landed, this`speedProgress, this`state, piece.Repr
      ensures Valid()
      ensures piece.verticalTime == old(piece.verticalTime).Advance(dt * old(piece.vertAlphaMultiplier))
      ensures piece.hasLanded <==> piece.verticalTime.Progress().Reached()
      ensures !piece.hasLanded ==>
        && state == Playtime && grid == old(grid) && floors == old(floors)
        && landed == old(landed) && speedProgress == old(speedProgress)
      ensures piece.hasLanded ==>
        && state == CheckMatch
        && LandedFrom(old(grid), old(floors), old(TypeIds(piece.blocks[..])), old(piece.currentColumn))
        && speedProgress == SpeedAfterLanding(old(speedProgress), progressDelta)
        && forall k :: 0 <= k < piece.blocks.Length ==> piece.blocks[k] == null
    {
      Fall(dt);
      if piece.HasLanded() {
        PieceLanded();
      }
    }


    /** The piece's own tick during play: it falls (and slides) for `dt` seconds. */
    method Fall(dt: real)
      requires Valid() && state == Playtime && dt > 0.0
      modifies piece.Repr
      ensures Valid() && piece.Repr == old(piece.Repr) && piece.currentColumn == old(piece.currentColumn)
      ensures TypeIds(piece.blocks[..]) == old(TypeIds(piece.blocks[..]))
      ensures piece.verticalTime == old(piece.verticalTime).Advance(dt * old(piece.vertAlphaMultiplier))
      ensures piece.hasLanded <==> piece.verticalTime.Progress().Reached()
    {
      assert dt * piece.vertAlphaMultiplier > 0.0;
      ghost var types := TypeIds(piece.blocks[..]);
      piece.Tick(dt);
      assert TypeIds(piece.blocks[..]) == types;
    }

    /**
     * The blocks with types `types` have landed in column `c` of grid `g0`
     * with floors `fl0`: the landed list holds the cells from the column's
     * old floor up, the grid holds the types there, and the floor rose by the
     * piece size.
     */
    ghost predicate LandedFrom(g0: seq<GridCell>, fl0: seq<int>, types: seq<int>, c: int)
      reads this`grid, this`floors, this`landed
    {
      |types| == PieceSize() && Landed(cols, rows, g0, fl0, c, types, grid, floors, landed)
    }

    /**
     * The landing branch of play: the blocks enter the grid, the piece's
     * slots are emptied, the speed progress moves up and matches are checked
     * next.
     */
    method PieceLanded()
      requires Valid() && state == Playtime && floors[piece.currentColumn] + PieceSize() <= rows
      modifies this`grid, this`floors, this`landed, this`speedProgress, this`state, piece.blocks
      ensures Valid() && state == CheckMatch
      ensures LandedFrom(old(grid), old(floors), old(TypeIds(piece.blocks[..])), piece.currentColumn)
      ensures speedProgress == SpeedAfterLanding(old(speedProgress), progressDelta)
      ensures forall k :: 0 <= k < piece.blocks.Length ==> piece.blocks[k] == null
    {
      LandAndClear();
      // `OnPlayerPieceLanded` of the traditional mode, then the next state.
      speedProgress, state := SpeedAfterLanding(speedProgress, progressDelta), CheckMatch;
    }

    /** The blocks of the piece enter the grid on its column, and its slots are emptied. */
    method LandAndClear()
      requires BoardOk() && piece.Valid() && piece.Spawned() && this !in piece.Repr
      requires 0 <= piece.currentColumn < cols && piece.blocks.Length == PieceSize()
      requires floors[piece.currentColumn] + PieceSize() <= rows
      modifies this`grid, this`floors, this`landed, piece.blocks
      ensures BoardOk() && LandedOk(grid, landed) && piece.Valid()
      ensures LandedFrom(old(grid), old(floors), old(TypeIds(piece.blocks[..])), piece.currentColumn)
      ensures forall k :: 0 <= k < piece.blocks.Length ==> piece.blocks[k] == null
    {
      var column := piece.GetCurrentColumn();
      ghost var types := TypeIds(piece.blocks[..]);
      ghost var g0, fl0 := grid, floors;
      LandingMeaning(grid, cols, rows, floors, column, types);
      LandPiece(column);
      assert LandedFrom(g0, fl0, types, column);
      assert BoardOk() && LandedOk(grid, landed);
      piece.Clear();
    }

    /**
     * The spawning callback, for every slot in order: the slot's block takes
     * the next-piece type there, which is replaced by a new pick, and is
     * spawned (outside the grid data) in the middle column, as many rows
     * above the spawn row as its slot number.
     */
    method BuildPiece() returns (spawned: seq<Block>)
      requires Settings() && |grid| == cols * rows && |floors| == cols && FloorsInRange(floors, rows)
      requires !IsGameLost(cols, rows, floors, PieceSize())
      requires piece.blocks.Length == PieceSize() == |nextBlock|
      requires forall k :: 0 <= k < |nextBlock| ==> 0 <= nextBlock[k] < typeCount
      modifies this`nextBlock, this`drawCount, this`grid
      ensures grid == old(grid) && |nextBlock| == |old(nextBlock)| == |spawned| == PieceSize()
      ensures forall k :: 0 <= k < |spawned| ==>
        && fresh(spawned[k]) && spawned[k].typeId == old(nextBlock)[k]
        && spawned[k].location == GetCellLocation(CellIndex(cols, rows, cols / 2, rows - PieceSize() + k)).Plus(Vec(0.0, 1.0, 0.0))
        && nextBlock[k] == draw(old(drawCount) + k) && 0 <= nextBlock[k] < typeCount
      ensures forall i, j :: 0 <= i < j < |spawned| ==> spawned[i] != spawned[j]
      ensures drawCount == old(drawCount) + |spawned|
    {
      SpawnCellsFree(cols, rows, floors, PieceSize());
      var spawnRow := rows - PieceSize();
      var spawnCol := cols / 2;
      spawned := [];
      var k := 0;
      while k < piece.blocks.Length
        invariant 0 <= k <= piece.blocks.Length == |nextBlock| == |old(nextBlock)|
        invariant grid == old(grid) && |spawned| == k && drawCount == old(drawCount) + k
        invariant forall j :: k <= j < |nextBlock| ==> nextBlock[j] == old(nextBlock)[j]
        invariant forall j :: 0 <= j < k ==>
          && fresh(spawned[j]) && spawned[j].typeId == old(nextBlock)[j]
          && spawned[j].location == GetCellLocation(CellIndex(cols, rows, spawnCol, spawnRow + j)).Plus(Vec(0.0, 1.0, 0.0))
          && nextBlock[j] == draw(old(drawCount) + j) && 0 <= nextBlock[j] < typeCount
        invariant forall i, j :: 0 <= i < j < k ==> spawned[i] != spawned[j]
      {
        var typeId := nextBlock[k];
        var t := PickRandomBlock();
        nextBlock := nextBlock[k := t];
        var b := SpawnBlock(spawnCol, spawnRow + k, typeId, false);
        spawned := spawned + [b];
        k := k + 1;
      }
    }

    /**
     * Spawning. When the middle column has fewer free rows than a piece has
     * blocks the game is lost, and the game-over sweep starts at the top row;
     * otherwise a new piece spawns and play begins.
     */
    method StateSpawning()
      requires Valid() && state == Spawning
      modifies this`nextBlock, this`drawCount, this`grid, this`clearRow, this`clearTime,
               this`shiftTimer, this`sideMoveTimer, this`bonusMultiplier, this`state, piece.Repr
      ensures Valid() && grid == old(grid) && floors == old(floors)
      ensures IsGameLost(cols, rows, floors, PieceSize()) ==>
        && state == GameLost && clearRow == rows - 1 && clearTime == 0.0
        && nextBlock == old(nextBlock) && drawCount == old(drawCount)
      ensures !IsGameLost(cols, rows, floors, PieceSize()) ==>
        && state == Playtime && PieceSpawned(old(nextBlock), old(drawCount))
        && shiftTimer == 0.0 && sideMoveTimer == 0.0 && bonusMultiplier == 1.0
    {
      if IsGameLost(cols, rows, floors, PieceSize()) {
        clearRow := rows - 1;
        clearTime := 0.0;
        state := GameLost;
      } else {
        SpawnNewPiece();
      }
    }

    /**
     * A new piece: built from the next-piece types at the top of the middle
     * column, it starts falling towards that column's floor cell at the
     * current vertical move time per cell; the input delays are cleared, the
     * chain bonus goes back to 1 and play begins.
     */
    method SpawnNewPiece()
      requires Valid() && state == Spawning && !IsGameLost(cols, rows, floors, PieceSize())
      modifies this`nextBlock, this`drawCount, this`grid, this`shiftTimer, this`sideMoveTimer,
               this`bonusMultiplier, this`state, piece.Repr
      ensures Valid() && grid == old(grid) && floors == old(floors)
      ensures state == Playtime && PieceSpawned(old(nextBlock), old(drawCount))
      ensures shiftTimer == 0.0 && sideMoveTimer == 0.0 && bonusMultiplier == 1.0
    {
      PlaceFallingPiece();
      EnterPlaytime();
    }

    /**
     * The piece just spawned: in the middle column, neither landed nor
     * sliding, its blocks of the types `types` in order, the next piece drawn
     * from draw number `firstDraw` on, room for it above the middle column's
     * floor, and block 0 falling from rest towards
     * the middle column's floor cell over the distance from the spawn row at
     * the current vertical move time per cell.
     */
    ghost predicate PieceSpawned(types: seq<int>, firstDraw: nat)
      requires Valid() && state == Playtime
      reads this, piece, piece.blocks, piece.Repr
    {
      && piece.currentColumn == cols / 2 && !piece.hasLanded && !piece.isSideMoving
      && |types| == piece.blocks.Length && floors[cols / 2] <= rows - PieceSize()
      && (forall k :: 0 <= k < piece.blocks.Length ==>
            piece.blocks[k].typeId == types[k] && nextBlock[k] == draw(firstDraw + k))
      && piece.blocks[0].finalPosition.z == SpawnZ(floors[cols / 2])
      && piece.verticalTime.elapsed == 0.0
      && piece.verticalTime.limit ==
           MoveTime(Distance(SpawnZ(floors[cols / 2]), SpawnZ(rows - PieceSize())), VerticalMoveTimeNow())
    }

    /** The new piece stands at the top of the middle column and starts falling towards its floor cell. */
    method PlaceFallingPiece()
      requires Valid() && state == Spawning && !IsGameLost(cols, rows, floors, PieceSize())
      modifies this`nextBlock, this`drawCount, this`grid, piece.Repr
      ensures Valid() && grid == old(grid) && floors == old(floors)
      ensures piece.Spawned() && piece.currentColumn == cols / 2 && !piece.hasLanded && !piece.isSideMoving
      ensures forall k :: 0 <= k < piece.blocks.Length ==>
        piece.blocks[k].typeId == old(nextBlock)[k] && nextBlock[k] == draw(old(drawCount) + k)
      ensures piece.blocks[0].finalPosition.z == SpawnZ(floors[cols / 2])
      ensures piece.verticalTime.elapsed == 0.0
      ensures piece.verticalTime.limit == MoveTime(Distance(SpawnZ(floors[cols / 2]), SpawnZ(rows - PieceSize())), VerticalMoveTimeNow())
    {
      var spawnCol := cols / 2;
      PlaceNewPiece(spawnCol);
      var vertDest := GetCellLocation(CellIndex(cols, rows, spawnCol, floors[spawnCol])).z;
      StartFall(vertDest, SpawnZ(rows - PieceSize()));
    }

    /** The fall of a new piece towards height `dest`, timed by the distance in cells. */
    method StartFall(dest: real, ghost from: real)
      requires Valid() && piece.Spawned() && piece.blocks.Length >= 2
      requires piece.blocks[0].location.z == from
      modifies piece.Repr
      ensures Valid() && piece.Spawned() && piece.Repr == old(piece.Repr)
      ensures piece.blocks == old(piece.blocks) && piece.blocks[..] == old(piece.blocks[..])
      ensures piece.verticalTime.elapsed == 0.0
      ensures piece.verticalTime.limit == MoveTime(Distance(dest, from), VerticalMoveTimeNow())
      ensures piece.blocks[0].finalPosition.z == dest
      ensures forall k :: 0 <= k < piece.blocks.Length ==> piece.blocks[k].typeId == old(piece.blocks[k].typeId)
      ensures piece.currentColumn == old(piece.currentColumn) && piece.hasLanded == old(piece.hasLanded)
      ensures piece.isSideMoving == old(piece.isSideMoving)
    {
      var vertTime := MoveTime(piece.GetVertDiff(dest), VerticalMoveTimeNow());
      piece.VerticalMove(dest, vertTime);
    }

    /** The end of spawning: the side timers and the chain bonus reset, and play begins. */
    method EnterPlaytime()
      requires Valid() && state == Spawning && piece.Spawned() && 0 <= piece.currentColumn < cols
      modifies this`shiftTimer, this`sideMoveTimer, this`bonusMultiplier, this`state
      ensures Valid() && state == Playtime
      ensures shiftTimer == 0.0 && sideMoveTimer == 0.0 && bonusMultiplier == 1.0
    {
      shiftTimer := 0.0;
      sideMoveTimer := 0.0;
      bonusMultiplier := 1.0;
      state := Playtime;
    }

    /** The spawning itself: the piece's slots take the built blocks, and the piece stands in column `spawnCol`. */
    method PlaceNewPiece(spawnCol: int)
      requires Valid() && state == Spawning && !IsGameLost(cols, rows, floors, PieceSize()) && spawnCol == cols / 2
      modifies this`nextBlock, this`drawCount, this`grid, piece.Repr
      ensures Valid() && grid == old(grid) && floors == old(floors)
      ensures piece.Spawned() && piece.blocks == old(piece.blocks)
      ensures fresh(piece.Repr - old(piece.Repr))
      ensures piece.currentColumn == spawnCol && !piece.hasLanded && !piece.isSideMoving
      ensures piece.verticalTime == old(piece.verticalTime)
      ensures forall k :: 0 <= k < piece.blocks.Length ==>
        && piece.blocks[k].typeId == old(nextBlock)[k]
        && piece.blocks[k].location == GetCellLocation(CellIndex(cols, rows, spawnCol, rows - PieceSize() + k)).Plus(Vec(0.0, 1.0, 0.0))
        && nextBlock[k] == draw(old(drawCount) + k) && 0 <= nextBlock[k] < typeCount
      ensures piece.blocks[0].location.z == SpawnZ(rows - PieceSize())
    {
      var spawned := BuildPiece();
      piece.SpawnPiece(spawned);
      assert this !in piece.Repr;
      piece.SetCurrentColumn(spawnCol);
    }

    /** The height of the cell in row `row` of the spawn column. */
    function SpawnZ(row: int): real
      requires |grid| == cols * rows && cols > 0 && 0 <= row < rows
      reads this`grid
    {
      GetCellLocation(CellIndex(cols, rows, cols / 2, row)).z
    }

    /**
     * `SpawnAllowed`: a block of type `t` may go into (column, row) when none
     * of the runs to the left, down-right, down and down-left reaches the
     * minimum run size together with the block itself.
     */
    method SpawnAllowed(column: int, row: int, t: int) returns (ok: bool)
      requires |grid| == cols * rows
      ensures ok == Allowed(grid, cols, rows, MinRun(), column, row, t)
    {
      var matchRun := MinRun();
      var n := GetMatch(column, row, Left, t);
      if n + 1 >= matchRun {
        return false;
      }
      n := GetMatch(column, row, DownRight, t);
      if n + 1 >= matchRun {
        return false;
      }
      n := GetMatch(column, row, Down, t);
      if n + 1 >= matchRun {
        return false;
      }
      n := GetMatch(column, row, DownLeft, t);
      if n + 1 >= matchRun {
        return false;
      }
      return true;
    }

    /**
     * The initial fill's retry loop: picks block types until one is allowed
     * at (column, row). It ends because some type is always allowed there and
     * the picker keeps coming back to every type.
     */
    method PickAllowed(column: int, row: int) returns (t: int)
      requires Settings() && |grid| == cols * rows
      modifies this`drawCount
      ensures 0 <= t < typeCount && Allowed(grid, cols, rows, MinRun(), column, row, t)
      ensures old(drawCount) < drawCount && t == draw(drawCount - 1)
    {
      AllowedTypeExists(grid, cols, rows, MinRun(), column, row, typeCount);
      ghost var allowed :| 0 <= allowed < typeCount && Allowed(grid, cols, rows, MinRun(), column, row, allowed);
      assert Recurs(draw, allowed, drawCount);
      ghost var m: nat :| drawCount <= m && draw(m) == allowed;
      t := PickRandomBlock();
      var ok := SpawnAllowed(column, row, t);
      while !ok
        invariant old(drawCount) < drawCount <= m + 1 && t == draw(drawCount - 1) && 0 <= t < typeCount
        invariant ok == Allowed(grid, cols, rows, MinRun(), column, row, t)
        decreases m + 1 - drawCount
      {
        t := PickRandomBlock();
        ok := SpawnAllowed(column, row, t);
      }
    }

    /** One row of the initial fill: left to right, each cell gets an allowed pick. */
    method FillRow(row: int)
      requires Settings() && |grid| == cols * rows && TileMapOk(grid, cols, rows) && 0 <= row < rows
      requires forall i :: 0 <= i < |grid| ==> (grid[i].occupant.Some? <==> i < cols * row)
      requires AllAllowed(grid, cols, rows, MinRun())
      modifies this`grid, this`drawCount
      ensures |grid| == |old(grid)| && TileMapOk(grid, cols, rows) && AllAllowed(grid, cols, rows, MinRun())
      ensures forall i :: 0 <= i < |grid| ==> (grid[i].occupant.Some? <==> i < cols * (row + 1))
    {
      var col := 0;
      while col < cols
        invariant 0 <= col <= cols && |grid| == cols * rows && TileMapOk(grid, cols, rows)
        invariant forall i :: 0 <= i < |grid| ==> (grid[i].occupant.Some? <==> i < cols * row + col)
        invariant AllAllowed(grid, cols, rows, MinRun())
      {
        var t := PickAllowed(col, row);
        CellIndexRoundTrip(cols, rows, col, row);
        FillKeepsAllowed(grid, cols, rows, MinRun(), CellIndex(cols, rows, col, row), t);
        var _ := SpawnBlock(col, row, t, true);
        col := col + 1;
      }
    }

    /**
     * The traditional mode's board: rows 0 up to the initial floor are
     * filled, row by row, with blocks allowed where they stand, so the board
     * holds no match; the floors are recomputed and the speed progress
     * starts at 0.
     */
    method CustomGameInit()
      requires Settings() && |grid| == cols * rows && |floors| == cols && TileMapOk(grid, cols, rows) && AllEmpty(grid)
      modifies this`grid, this`drawCount, this`floors, this`speedProgress
      ensures |grid| == |old(grid)| && TileMapOk(grid, cols, rows)
      ensures forall c, r :: InGrid(cols, rows, c, r) ==> (Occupant(grid, cols, rows, c, r).Some? <==> r < initialFloor)
      ensures AllAllowed(grid, cols, rows, MinRun())
      ensures forall i, axis :: 0 <= i < |grid| && grid[i].occupant.Some? ==> CellAxisMatch(grid, cols, rows, MinRun(), i, axis) == []
      ensures floors == seq(cols, c => if initialFloor > 0 then initialFloor else 0)
      ensures FloorsInRange(floors, rows) && FloorsHold(grid, cols, rows, floors)
      ensures speedProgress == 0.0
    {
      var h := if initialFloor > 0 then initialFloor else 0;
      var row := 0;
      while row < initialFloor
        invariant 0 <= row <= h && |grid| == cols * rows && |floors| == cols && TileMapOk(grid, cols, rows)
        invariant forall i :: 0 <= i < |grid| ==> (grid[i].occupant.Some? <==> i < cols * row)
        invariant AllAllowed(grid, cols, rows, MinRun())
      {
        FillRow(row);
        row := row + 1;
      }
      CheckGridFloorLevels();
      forall c, r | InGrid(cols, rows, c, r)
        ensures Occupant(grid, cols, rows, c, r).Some? <==> r < h
      {
        RowPrefix(cols, rows, c, r, h);
      }
      forall c | 0 <= c < cols
        ensures floors[c] == h
      {
        ColumnFloorOfFilled(grid, cols, rows, c, h);
      }
      NoMatchWhenAllAllowed(grid, cols, rows, MinRun());
      speedProgress := 0.0;
    }

    /** Fills the next-piece list with `n` picks, in order. */
    method PickNextPiece(n: int) returns (next: seq<int>)
      requires FairDraw(draw, typeCount) && n >= 0
      modifies this`drawCount
      ensures |next| == n && drawCount == old(drawCount) + n
      ensures forall k :: 0 <= k < n ==> next[k] == draw(old(drawCount) + k) && 0 <= next[k] < typeCount
    {
      // `SetNum`; every entry is overwritten below.
      next := seq(n, k => 0);
      var i := 0;
      while i < n
        invariant 0 <= i <= n && |next| == n && drawCount == old(drawCount) + i
        invariant forall k :: 0 <= k < i ==> next[k] == draw(old(drawCount) + k) && 0 <= next[k] < typeCount
      {
        var t := PickRandomBlock();
        next := next[i := t];
        i := i + 1;
      }
    }

    /**
     * Game init: the piece gets as many empty slots as a piece has blocks,
     * the next piece is picked, the player's scores are reset, the initial
     * board is built and the start countdown begins.
     */
    method StateGameInit()
      requires Valid() && state == GameInit
      modifies this`nextBlock, this`drawCount, this`grid, this`floors, this`speedProgress, this`countdown, this`state, piece, pc
      ensures Valid() && state == StartCountdown
      ensures piece.blocks.Length == PieceSize() && forall k :: 0 <= k < piece.blocks.Length ==> piece.blocks[k] == null
      ensures |nextBlock| == PieceSize() && forall k :: 0 <= k < |nextBlock| ==> nextBlock[k] == draw(old(drawCount) + k)
      ensures pc != null ==> pc.currentScore == 0 && pc.displayScore == 0.0
      ensures countdown == initialCountdown as real && speedProgress == 0.0
      ensures forall c, r :: InGrid(cols, rows, c, r) ==> (Occupant(grid, cols, rows, c, r).Some? <==> r < initialFloor)
      ensures AllAllowed(grid, cols, rows, MinRun())
      ensures floors == seq(cols, c => if initialFloor > 0 then initialFloor else 0)
    {
      PrepareRound();
      CustomGameInit();
      countdown := initialCountdown as real;
      state := StartCountdown;
    }

    /** The first half of `StateGameInit`: empty piece slots, the next piece picked, the score reset. */
    method PrepareRound()
      requires Valid() && state == GameInit
      modifies this`nextBlock, this`drawCount, piece, pc
      ensures Valid()
      ensures piece.blocks.Length == PieceSize() && forall k :: 0 <= k < piece.blocks.Length ==> piece.blocks[k] == null
      ensures |nextBlock| == PieceSize() && drawCount == old(drawCount) + PieceSize()
      ensures forall k :: 0 <= k < |nextBlock| ==> nextBlock[k] == draw(old(drawCount) + k) && 0 <= nextBlock[k] < typeCount
      ensures pc != null ==> pc.currentScore == 0 && pc.displayScore == 0.0
    {
      var pieceSize := PieceSize();
      piece.InitArray(pieceSize);
      nextBlock := PickNextPiece(pieceSize);
      if pc != null {
        pc.Reset();
      }
    }

    /**
     * The part of the mode's state that a state function's effect is measured
     * from: everything but the input delays, with the piece's block types,
     * column and fall timer, and the player's score.
     */
    ghost function Snapshot(): Before
      reads this`state, this`grid, this`floors, this`landed, this`matched, this`repositioning,
            this`nextBlock, this`drawCount, this`countdown, this`clearRow, this`clearTime,
            this`bonusMultiplier, this`speedProgress, this`blinkTime, piece, piece.blocks, piece.blocks[..], pc
    {
      Before(state, grid, floors, landed, matched, repositioning, nextBlock, drawCount, countdown,
             clearRow, clearTime, bonusMultiplier, speedProgress, blinkTime,
             if forall k :: 0 <= k < piece.blocks.Length ==> piece.blocks[k] != null then TypeIds(piece.blocks[..]) else [],
             piece.currentColumn, piece.verticalTime, piece.vertAlphaMultiplier,
             if pc != null then pc.currentScore else 0)
    }

    /** What `Valid` says of a snapshot, as far as the effects below need it. */
    ghost predicate SnapshotOk(b: Before) {
      && cols > 0 && rows > 0
      && |b.grid| == cols * rows && |b.floors| == cols && FloorsInRange(b.floors, rows)
      && b.blinkTime.elapsed >= 0.0
      && (b.state != NotStarted && b.state != GameInit ==> |b.nextBlock| == PieceSize())
      && (b.state == CheckMatch || b.state == Repositioning ==> LandedOk(b.grid, b.landed))
      && (b.state == RemovingBlock ==> LandedOk(b.grid, b.matched))
      && (b.state == GameLost ==> 0 <= b.clearRow < rows)
    }

    // What each state function does in one frame, from the snapshot `b` taken
    // before it ran to the current state. Each is what the state method of the
    // same name establishes; the dispatchers and `Tick` carry them outward.

    /** Game init: the next piece drawn, the score reset, the initial board built and the countdown started. */
    ghost predicate GameInitRan(b: Before)
      requires Valid()
      reads this, piece, piece.blocks, pc
    {
      && state == StartCountdown
      && countdown == initialCountdown as real && speedProgress == 0.0
      && (forall k :: 0 <= k < |nextBlock| ==> nextBlock[k] == draw(b.drawCount + k))
      && (forall c, r :: InGrid(cols, rows, c, r) ==> (Occupant(grid, cols, rows, c, r).Some? <==> r < initialFloor))
      && AllAllowed(grid, cols, rows, MinRun())
      && floors == seq(cols, c => if initialFloor > 0 then initialFloor else 0)
      && (pc != null ==> pc.currentScore == 0)
    }

    /** The countdown: it drops by `dt` to no less than 0, and spawning starts exactly when it reaches 0. */
    ghost predicate StartCountdownRan(b: Before, dt: real)
      reads this
    {
      && grid == b.grid && floors == b.floors
      && countdown == (if b.countdown - dt < 0.0 then 0.0 else b.countdown - dt)
      && (state == Spawning <==> countdown == 0.0)
    }

    /**
     * Spawning: the game is lost exactly when the middle column cannot hold a
     * piece, and the sweep starts at the top row; otherwise the piece is made
     * of the old next-piece types, the next piece is the next draws, and it
     * falls in the middle column towards that column's floor cell.
     */
    ghost predicate SpawningRan(b: Before)
      requires Valid() && SnapshotOk(b) && b.state == Spawning
      reads this, piece, piece.blocks, piece.Repr
    {
      && grid == b.grid && floors == b.floors
      && (state == GameLost <==> IsGameLost(cols, rows, b.floors, PieceSize()))
      && (state == GameLost ==> clearRow == rows - 1 && clearTime == 0.0 && nextBlock == b.nextBlock)
      && (state == Playtime ==>
            && bonusMultiplier == 1.0 && shiftTimer == 0.0 && sideMoveTimer == 0.0
            && PieceSpawned(b.nextBlock, b.drawCount))
    }

    /**
     * Play: the piece's fall timer advances; play goes on exactly while it has
     * not landed, and a landing puts its blocks on top of its column and moves
     * the speed progress up.
     */
    ghost predicate PlaytimeRan(b: Before, dt: real)
      reads this, piece, piece.blocks
    {
      && piece.verticalTime == b.fallTime.Advance(dt * b.fallRate)
      && state == (if piece.hasLanded then CheckMatch else Playtime)
      && (state == Playtime ==> grid == b.grid && floors == b.floors && landed == b.landed)
      && (state == CheckMatch ==>
            && LandedFrom(b.grid, b.floors, b.pieceTypes, b.pieceColumn)
            && speedProgress == SpeedAfterLanding(b.speedProgress, progressDelta))
    }

    /**
     * The match check: the matched cells are the matches through the landed
     * blocks; removal follows exactly when there are any, and the player
     * scores them at the old chain bonus.
     */
    ghost predicate CheckMatchRan(b: Before)
      requires SnapshotOk(b) && b.state == CheckMatch
      reads this, pc
    {
      && grid == b.grid && floors == b.floors
      && matched == MatchedSet(b.grid, cols, rows, MinRun(), b.landed)
      && (state == RemovingBlock <==> |matched| > 0)
      && (|matched| > 0 ==> bonusMultiplier == b.bonusMultiplier + chainedMultiDelta)
      && (pc != null ==>
            pc.currentScore == b.score + (if |matched| > 0 then ScoreDelta(|matched|, scorePerBlock, b.bonusMultiplier) else 0))
    }

    /** The blink: once the blink timer reaches its limit the matched cells are emptied and gravity follows. */
    ghost predicate RemovingBlockRan(b: Before, dt: real)
      requires SnapshotOk(b) && dt > 0.0
      reads this
    {
      && floors == b.floors
      && blinkTime == b.blinkTime.Advance(dt)
      && (state == CheckPlayfield <==> blinkTime.Progress().Reached())
      && (state == CheckPlayfield ==> CellsIn(b.matched, |b.grid|) && grid == ClearAll(b.grid, b.matched))
      && (state == RemovingBlock ==> grid == b.grid)
    }

    /** Gravity: the records are the blocks with a gap under them, the columns are compacted and the floors recounted. */
    ghost predicate CheckPlayfieldRan(b: Before)
      requires Valid() && SnapshotOk(b)
      reads this, piece, piece.blocks
    {
      && repositioning == AllRecords(b.grid, cols, rows, b.floors, cols, RepositionMoveTime(config))
      && (state == Repositioning <==> |repositioning| > 0)
      && (forall c :: 0 <= c < cols ==> floors[c] == CountSome(ColumnOf(b.grid, cols, rows, c, b.floors[c])))
      && (forall c, r :: InGrid(cols, rows, c, r) ==>
            Occupant(grid, cols, rows, c, r) ==
              if r < b.floors[c] then Cleared(ColumnOf(b.grid, cols, rows, c, b.floors[c]))[r]
              else Occupant(b.grid, cols, rows, c, r))
    }

    /** The falling blocks: the arrivals enter the grid and the landed list; matching follows once all have arrived. */
    ghost predicate RepositioningRan(b: Before, dt: real)
      reads this
    {
      && floors == b.floors
      && Advanceable(b.repositioning, dt) && CellsIn(ArrivedCells(b.repositioning, dt), |b.grid|)
      && landed == b.landed + ArrivedCells(b.repositioning, dt)
      && grid == PlaceAll(b.grid, ArrivedCells(b.repositioning, dt), ArrivedTypes(b.repositioning, dt))
      && (state == CheckMatch <==> AllFinished(AdvancedAll(b.repositioning, dt)))
    }

    /** The game-over sweep: each time the clear delay is used up the current row is emptied and the sweep moves down. */
    ghost predicate GameLostRan(b: Before, dt: real)
      requires SnapshotOk(b) && b.state == GameLost
      reads this
    {
      && floors == b.floors
      && (b.clearTime + dt < gameOverClearTime ==> grid == b.grid && clearRow == b.clearRow && state == GameLost)
      && (b.clearTime + dt >= gameOverClearTime ==>
            && CellsIn(RowCells(cols, rows, b.clearRow), |b.grid|)
            && grid == ClearAll(b.grid, RowCells(cols, rows, b.clearRow))
            && clearRow == b.clearRow - 1
            && (state == EndGame <==> clearRow < 0))
      && (state == EndGame ==> AllEmpty(grid))
    }

    /** The effect of the state function for the state of snapshot `b`; with none, the board is left alone. */
    ghost predicate StateFunctionRan(b: Before, dt: real)
      requires Valid() && SnapshotOk(b) && dt > 0.0
      reads this, piece, piece.blocks, piece.Repr, pc
    {
      match b.state
      case NotStarted => grid == b.grid && floors == b.floors
      case GameInit => GameInitRan(b)
      case StartCountdown => StartCountdownRan(b, dt)
      case Spawning => SpawningRan(b)
      case Playtime => PlaytimeRan(b, dt)
      case CheckMatch => CheckMatchRan(b)
      case RemovingBlock => RemovingBlockRan(b, dt)
      case CheckPlayfield => CheckPlayfieldRan(b)
      case Repositioning => RepositioningRan(b, dt)
      case GameLost => GameLostRan(b, dt)
      case EndGame => grid == b.grid && floors == b.floors
    }

    /**
     * One frame: the positive input delays count down by `dt`, then the
     * current state function runs and names the next state. Before play
     * begins there is no state function and nothing happens.
     */
    method Tick(dt: real)
      requires Valid() && dt > 0.0
      requires state == Playtime ==> floors[piece.currentColumn] + PieceSize() <= rows
      modifies this, piece.Repr, pc
      ensures Valid() && Successor(old(state), state) && StateFunctionRan(old(Snapshot()), dt)
      ensures old(state) == NotStarted ==> shiftTimer == old(shiftTimer) && sideMoveTimer == old(sideMoveTimer)
      ensures old(state) != NotStarted && old(state) != Spawning ==>
        && shiftTimer == (if old(shiftTimer) > 0.0 then old(shiftTimer) - dt else old(shiftTimer))
        && sideMoveTimer == (if old(sideMoveTimer) > 0.0 then old(sideMoveTimer) - dt else old(sideMoveTimer))
    {
      if state == NotStarted {
        return;
      }
      CountDownDelays(dt);
      label Counted:
      // The countdown changes only the input delays, which the snapshot leaves out.
      assert old@Counted(Snapshot()) == old(Snapshot());
      RunState(dt);
    }

    /** The input delays that are still running count down by `dt`. */
    method CountDownDelays(dt: real)
      requires Valid()
      modifies this`shiftTimer, this`sideMoveTimer
      ensures Valid()
      ensures shiftTimer == if old(shiftTimer) > 0.0 then old(shiftTimer) - dt else old(shiftTimer)
      ensures sideMoveTimer == if old(sideMoveTimer) > 0.0 then old(sideMoveTimer) - dt else old(sideMoveTimer)
    {
      if shiftTimer > 0.0 {
        shiftTimer := shiftTimer - dt;
      }
      if sideMoveTimer > 0.0 {
        sideMoveTimer := sideMoveTimer - dt;
      }
    }

    /** The current state function, chosen by the state. */
    method RunState(dt: real)
      requires Valid() && dt > 0.0
      requires state == Playtime ==> floors[piece.currentColumn] + PieceSize() <= rows
      modifies this, piece.Repr, pc
      ensures Valid() && Successor(old(state), state) && StateFunctionRan(old(Snapshot()), dt)
      ensures old(state) != Spawning ==> shiftTimer == old(shiftTimer) && sideMoveTimer == old(sideMoveTimer)
    {
      if state == GameInit || state == StartCountdown {
        RunStartState(dt);
      } else if state == Spawning || state == Playtime {
        RunPieceState(dt);
      } else if state == CheckMatch || state == RemovingBlock || state == GameLost {
        RunClearState(dt);
      } else if state == CheckPlayfield || state == Repositioning {
        RunGravityState(dt);
      }
    }

    /** The state functions that start a round. */
    method RunStartState(dt: real)
      requires Valid() && dt > 0.0
      requires state == GameInit || state == StartCountdown
      modifies this, piece.Repr, pc
      ensures Valid() && Successor(old(state), state) && StateFunctionRan(old(Snapshot()), dt)
      ensures shiftTimer == old(shiftTimer) && sideMoveTimer == old(sideMoveTimer)
    {
      if state == GameInit {
        RunGameInitState();
      } else {
        ghost var b := Snapshot();
        StateStartCountdown(dt);
        assert StartCountdownRan(b, dt);
      }
    }

    /** The round's set-up, stated on the record of the frame's start. */
    method RunGameInitState()
      requires Valid() && state == GameInit
      modifies this, piece.Repr, pc
      ensures Valid() && Successor(old(state), state) && GameInitRan(old(Snapshot()))
      ensures shiftTimer == old(shiftTimer) && sideMoveTimer == old(sideMoveTimer)
    {
      ghost var b := Snapshot();
      StateGameInit();
      assert GameInitRan(b);
    }

    /** The state functions that bring in a new piece and move it. */
    method RunPieceState(dt: real)
      requires Valid() && dt > 0.0
      requires state == Spawning || state == Playtime
      requires state == Playtime ==> floors[piece.currentColumn] + PieceSize() <= rows
      modifies this, piece.Repr, pc
      ensures Valid() && Successor(old(state), state) && StateFunctionRan(old(Snapshot()), dt)
      ensures old(state) != Spawning ==> shiftTimer == old(shiftTimer) && sideMoveTimer == old(sideMoveTimer)
    {
      ghost var b := Snapshot();
      if state == Spawning {
        StateSpawning();
        assert SpawningRan(b);
      } else {
        RunPlaytimeState(dt);
      }
    }

    /** The falling piece's frame, stated on the record of the frame's start. */
    method RunPlaytimeState(dt: real)
      requires Valid() && state == Playtime && dt > 0.0
      requires floors[piece.currentColumn] + PieceSize() <= rows
      modifies this, piece.Repr, pc
      ensures Valid() && Successor(old(state), state) && PlaytimeRan(old(Snapshot()), dt)
      ensures shiftTimer == old(shiftTimer) && sideMoveTimer == old(sideMoveTimer)
    {
      ghost var b := Snapshot();
      ghost var step := dt * piece.vertAlphaMultiplier;
      assert b.fallTime == piece.verticalTime && step == dt * b.fallRate;
      assert b.pieceTypes == TypeIds(piece.blocks[..]) && b.pieceColumn == piece.currentColumn;
      StatePlaytime(dt);
      assert piece.verticalTime == b.fallTime.Advance(step);
      assert PlaytimeRan(b, dt);
    }

    /** The state functions that look for matches and clear blocks off the grid. */
    method RunClearState(dt: real)
      requires Valid() && dt > 0.0
      requires state == CheckMatch || state == RemovingBlock || state == GameLost
      modifies this, piece.Repr, pc
      ensures Valid() && Successor(old(state), state) && StateFunctionRan(old(Snapshot()), dt)
      ensures shiftTimer == old(shiftTimer) && sideMoveTimer == old(sideMoveTimer)
    {
      if state == CheckMatch {
        StateCheckMatch();
      } else if state == RemovingBlock {
        StateRemovingBlock(dt);
      } else {
        StateGameLost(dt);
      }
    }

    /** The state functions that let the blocks above cleared cells fall. */
    method RunGravityState(dt: real)
      requires Valid() && dt > 0.0
      requires state == CheckPlayfield || state == Repositioning
      modifies this, piece.Repr, pc
      ensures Valid() && Successor(old(state), state) && StateFunctionRan(old(Snapshot()), dt)
      ensures shiftTimer == old(shiftTimer) && sideMoveTimer == old(sideMoveTimer)
    {
      if state == CheckPlayfield {
        StateCheckPlayfield();
      } else {
        StateRepositioning(dt);
      }
    }

    /** The accelerate input: the piece falls at the configured fast multiplier. */
    method OnAccelerate()
      requires Valid()
      modifies piece`vertAlphaMultiplier
      ensures Valid() && piece.vertAlphaMultiplier == VerticalFastMultiplier(config)
    {
      piece.SetVerticalAlphaMultiplier(VerticalFastMultiplier(config));
    }

    /** The decelerate input: the piece falls at normal speed again. */
    method OnDecelerate()
      requires Valid()
      modifies piece`vertAlphaMultiplier
      ensures Valid() && piece.vertAlphaMultiplier == 1.0
    {
      piece.SetVerticalAlphaMultiplier(1.0);
    }
  }
}
