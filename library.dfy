/**
 * The function library the game mode reads its settings through, the score
 * wrapper around the player controller, and the high-score table update.
 */
module Library {
  import opened Wrappers
  import opened Helpers
  import opened Controller

  /** The gameplay settings the game instance holds. */
  datatype Config = Config(
    matchRunSize: int,
    pieceSize: int,
    shiftDelay: real,
    sideMoveDelay: real,
    horizontalMoveTime: real,
    verticalMoveTime: real,
    verticalFastMultiplier: real,
    repositionMoveTime: real,
    blinkingSpeed: real,
    blinkingTime: real)

  /** The settings of a freshly constructed game instance. */
  function InstanceDefaults(): (c: Config)
    ensures c.matchRunSize == 3 && c.pieceSize == 3
  {
    Config(3, 3, 0.2, 0.35, 0.2, 0.5, 5.0, 0.35, 5.0, 0.8)
  }

  // Each getter reads the game instance when there is one and falls back to
  // a built-in value otherwise.

  function MinimumMatchRunSize(gi: Option<Config>): (n: int)
    ensures gi.None? ==> n == 3
    ensures gi.Some? ==> n == gi.value.matchRunSize
  {
    if gi.Some? then gi.value.matchRunSize else 3
  }

  function PlayerPieceSize(gi: Option<Config>): (n: int)
    ensures gi.None? ==> n == 3
    ensures gi.Some? ==> n == gi.value.pieceSize
  {
    if gi.Some? then gi.value.pieceSize else 3
  }

  function InputShiftDelay(gi: Option<Config>): (t: real)
    ensures gi.None? ==> t == 0.2
    ensures gi.Some? ==> t == gi.value.shiftDelay
  {
    if gi.Some? then gi.value.shiftDelay else 0.2
  }

  function SideMoveDelay(gi: Option<Config>): (t: real)
    ensures gi.None? ==> t == 0.35
    ensures gi.Some? ==> t == gi.value.sideMoveDelay
  {
    if gi.Some? then gi.value.sideMoveDelay else 0.35
  }

  function HorizontalMoveTime(gi: Option<Config>): (t: real)
    ensures gi.None? ==> t == 0.2
    ensures gi.Some? ==> t == gi.value.horizontalMoveTime
  {
    if gi.Some? then gi.value.horizontalMoveTime else 0.2
  }

  function VerticalMoveTime(gi: Option<Config>): (t: real)
    ensures gi.None? ==> t == 0.5
    ensures gi.Some? ==> t == gi.value.verticalMoveTime
  {
    if gi.Some? then gi.value.verticalMoveTime else 0.5
  }

  function VerticalFastMultiplier(gi: Option<Config>): (t: real)
    ensures gi.None? ==> t == 5.0
    ensures gi.Some? ==> t == gi.value.verticalFastMultiplier
  {
    if gi.Some? then gi.value.verticalFastMultiplier else 5.0
  }

  function RepositionMoveTime(gi: Option<Config>): (t: real)
    ensures gi.None? ==> t == 0.35
    ensures gi.Some? ==> t == gi.value.repositionMoveTime
  {
    if gi.Some? then gi.value.repositionMoveTime else 0.35
  }

  function BlinkingSpeed(gi: Option<Config>): (t: real)
    ensures gi.None? ==> t == 5.0
    ensures gi.Some? ==> t == gi.value.blinkingSpeed
  {
    if gi.Some? then gi.value.blinkingSpeed else 5.0
  }

  function BlinkingTime(gi: Option<Config>): (t: real)
    ensures gi.None? ==> t == 0.8
    ensures gi.Some? ==> t == gi.value.blinkingTime
  {
    if gi.Some? then gi.value.blinkingTime else 0.8
  }

  /**
   * The library's fallbacks are the game instance's own defaults: a missing
   * game instance reads the same settings as a freshly constructed one.
   */
  lemma FallbacksAreInstanceDefaults()
    ensures var d := Some(InstanceDefaults());
      && MinimumMatchRunSize(None) == MinimumMatchRunSize(d)
      && PlayerPieceSize(None) == PlayerPieceSize(d)
      && InputShiftDelay(None) == InputShiftDelay(d)
      && SideMoveDelay(None) == SideMoveDelay(d)
      && HorizontalMoveTime(None) == HorizontalMoveTime(d)
      && VerticalMoveTime(None) == VerticalMoveTime(d)
      && VerticalFastMultiplier(None) == VerticalFastMultiplier(d)
      && RepositionMoveTime(None) == RepositionMoveTime(d)
      && BlinkingSpeed(None) == BlinkingSpeed(d)
      && BlinkingTime(None) == BlinkingTime(d)
  {
  }

  /** Changes the player's score; -1 when there is no player controller. */
  method ChangeScore(pc: PlayerController?, delta: int) returns (r: int)
    modifies pc
    ensures pc == null ==> r == -1
    ensures pc != null ==> r == pc.currentScore == old(pc.currentScore) + delta
    ensures pc != null ==> pc.displayScore == old(pc.displayScore) && pc.displayUpdateRate == old(pc.displayUpdateRate)
  {
    if pc != null {
      r := pc.ChangeScore(delta);
    } else {
      r := -1;
    }
  }

  /**
   * The high-score table after recording `score` under `name` for `mode`: a
   * mode the table does not know is left alone.
   */
  function UpdatedHighScores(m: map<string, HighScoreContainer>, mode: string, name: string, score: int): (r: map<string, HighScoreContainer>)
    ensures r.Keys == m.Keys
    ensures mode in m ==> r[mode].scoreCollection.Keys == m[mode].scoreCollection.Keys + {name}
  {
    if mode in m then m[mode := HighScoreContainer(m[mode].scoreCollection[name := score])] else m
  }

  /**
   * What recording a score does: nothing for an unknown mode; for a known one
   * the name reads the new score afterwards, whether it was there or not, and
   * every other mode and every other name of the same mode is unchanged.
   */
  lemma UpdatedHighScoresMeaning(m: map<string, HighScoreContainer>, mode: string, name: string, score: int)
    ensures var r := UpdatedHighScores(m, mode, name, score);
      && (mode !in m ==> r == m)
      && (mode in m ==> r[mode].scoreCollection[name] == score)
      && (forall k :: k in m && k != mode ==> r[k] == m[k])
      && (forall n :: mode in m && n in m[mode].scoreCollection && n != name ==>
            r[mode].scoreCollection[n] == m[mode].scoreCollection[n])
  {
  }

  /** Recording the same score twice is recording it once. */
  lemma UpdatedHighScoresIdempotent(m: map<string, HighScoreContainer>, mode: string, name: string, score: int)
    ensures UpdatedHighScores(UpdatedHighScores(m, mode, name, score), mode, name, score) == UpdatedHighScores(m, mode, name, score)
  {
    if mode in m {
      var once := m[mode].scoreCollection[name := score];
      assert once[name := score] == once;
    }
  }

  /** The high-score table of the save game, updated in place. */
  class HighScoreTable {
    var modes: map<string, HighScoreContainer>

    constructor (modes: map<string, HighScoreContainer>)
      ensures this.modes == modes
    {
      this.modes := modes;
    }

    method UpdateHighScore(mode: string, name: string, score: int)
      modifies this
      ensures modes == UpdatedHighScores(old(modes), mode, name, score)
    {
      if mode in modes {
        var inner := modes[mode];
        modes := modes[mode := HighScoreContainer(inner.scoreCollection[name := score])];
      }
    }
  }
}
