/**
 * The small value structs shared by the game: the countdown/progress timer,
 * the grid cell record, the repositioning record and the high-score record.
 * They are value types in the original program (copied into arrays and
 * members by value), so each is a datatype here; a member that updates the
 * struct returns the updated value, and its owner stores it back.
 */
module Helpers {
  import opened Wrappers

  /**
   * The result of `elapsed / limit` as the engine computes it in floating
   * point. A zero limit with positive elapsed time gives positive infinity,
   * which every caller treats as "finished".
   */
  datatype Alpha = Finite(value: real) | PosInfinity {

    /** The test `alpha >= 1` that every caller uses to detect completion. */
    predicate Reached() {
      PosInfinity? || value >= 1.0
    }
  }

  /** `FTiming`: a time limit and the time elapsed towards it. */
  datatype Timing = Timing(limit: real, elapsed: real) {

    /** The default-constructed timer. */
    static function Default(): (t: Timing)
      ensures t.limit == 0.5 && t.elapsed == 0.0
    {
      Timing(0.5, 0.0)
    }

    /** Stores a new limit and restarts the count. */
    function Set(newLimit: real): (t: Timing)
      ensures t.limit == newLimit && t.elapsed == 0.0
    {
      this.(limit := newLimit).Reset()
    }

    /** Restarts the count, keeping the limit. */
    function Reset(): (t: Timing)
      ensures t.limit == limit && t.elapsed == 0.0
    {
      this.(elapsed := 0.0)
    }

    /** The timer after `Update(delta)`. */
    function Advance(delta: real): (t: Timing)
      ensures t.limit == limit && t.elapsed == elapsed + delta
    {
      this.(elapsed := elapsed + delta)
    }

    /** The progress `elapsed / limit`, uncapped. */
    function Progress(): (a: Alpha)
      requires limit != 0.0 || elapsed > 0.0
      ensures limit != 0.0 ==> a == Finite(elapsed / limit)
      ensures limit == 0.0 ==> a == PosInfinity
    {
      if limit != 0.0 then Finite(elapsed / limit) else PosInfinity
    }

    /**
     * `Update(delta)`: adds `delta` to the elapsed time and returns the new
     * progress. A zero limit is only allowed when the new elapsed time is
     * positive (otherwise the engine would produce NaN or negative infinity).
     */
    function Update(delta: real): (r: (Timing, Alpha))
      requires limit != 0.0 || elapsed + delta > 0.0
      ensures r.0 == Advance(delta)
      ensures r.1 == r.0.Progress()
    {
      var t := Advance(delta);
      (t, t.Progress())
    }
  }

  /** With a positive limit, an update reports completion exactly when the elapsed time reaches the limit. */
  lemma UpdateReachedIff(t: Timing, delta: real)
    requires t.limit > 0.0
    ensures t.Update(delta).1.Reached() <==> t.elapsed + delta >= t.limit
  {
    var e := t.elapsed + delta;
    assert t.Update(delta).1 == Finite(e / t.limit);
    if e >= t.limit {
      assert e / t.limit >= t.limit / t.limit;
    } else {
      assert e / t.limit < t.limit / t.limit;
    }
  }

  /** With a positive limit, the progress never decreases under non-negative updates. */
  lemma UpdateMonotone(t: Timing, delta: real)
    requires t.limit > 0.0 && delta >= 0.0
    ensures t.Update(delta).1.value >= t.elapsed / t.limit
  {
    assert (t.elapsed + delta) / t.limit == t.elapsed / t.limit + delta / t.limit;
  }

  /** Two successive updates leave the timer where one update by their sum does. */
  lemma UpdatesCompose(t: Timing, d1: real, d2: real)
    ensures t.Advance(d1).Advance(d2) == t.Advance(d1 + d2)
  {
  }

  /** `FGridCellData`: the tile-map coordinates of a cell and the type id of its occupant, if any. */
  datatype GridCell = GridCell(tileMapColumn: int, tileMapRow: int, occupant: Option<int>)

  /** A freshly constructed cell record: the given tile-map coordinates and no occupant. */
  function EmptyCell(mapColumn: int, mapRow: int): (c: GridCell)
    ensures c.tileMapColumn == mapColumn && c.tileMapRow == mapRow
    ensures c.occupant.None?
  {
    GridCell(mapColumn, mapRow, None)
  }

  /**
   * `FRepositioningBlock`: a block descending to `cellIndex` after a removal.
   * `block` is the type id of the block being moved.
   */
  datatype RepositioningBlock = RepositioningBlock(timing: Timing, cellIndex: int, block: int, finished: bool)

  /** A freshly constructed repositioning record: timer set to `timeLimit`, not finished. */
  function NewRepositioning(timeLimit: real, index: int, block: int): (r: RepositioningBlock)
    ensures r.timing.limit == timeLimit && r.timing.elapsed == 0.0
    ensures r.cellIndex == index && r.block == block
    ensures !r.finished
  {
    RepositioningBlock(Timing.Default().Set(timeLimit), index, block, false)
  }

  /** `FHighScoreContainer`: the scores of one game mode, by score name. */
  datatype HighScoreContainer = HighScoreContainer(scoreCollection: map<string, int>)
}
