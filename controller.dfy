/**
 * The player controller's score keeping: the current score, and the score on
 * display, which climbs towards the current score by a fixed amount per frame.
 */
module Controller {

  /** The displayed score after one frame: one step up, but never past the current score. */
  function DisplayStep(display: real, current: int, rate: real): (d: real)
    ensures d <= current as real
    ensures display + rate <= current as real ==> d == display + rate
  {
    if display + rate > current as real then current as real else display + rate
  }

  /** The displayed score after `n` frames. */
  function DisplayAfter(display: real, current: int, rate: real, n: nat): real
    decreases n
  {
    if n == 0 then display else DisplayAfter(DisplayStep(display, current, rate), current, rate, n - 1)
  }

  /**
   * With a positive rate, a display at or below the score catches up with it
   * within any number of frames whose steps cover the distance, and never
   * passes it.
   */
  lemma {:induction false} DisplayCatchesUp(display: real, current: int, rate: real, n: nat)
    requires rate > 0.0 && display <= current as real
    requires n as real * rate >= current as real - display
    ensures DisplayAfter(display, current, rate, n) == current as real
    decreases n
  {
    if n > 0 {
      var d := DisplayStep(display, current, rate);
      assert (n - 1) as real * rate == n as real * rate - rate;
      DisplayCatchesUp(d, current, rate, n - 1);
    }
  }

  class PlayerController {
    var currentScore: int
    var displayScore: real
    var displayUpdateRate: real

    /** A new controller: both scores 0, the display climbing 0.1 per frame. */
    constructor ()
      ensures currentScore == 0 && displayScore == 0.0 && displayUpdateRate == 0.1
    {
      currentScore := 0;
      displayScore := 0.0;
      displayUpdateRate := 0.1;
    }

    /** One frame: the display moves one step towards the current score. */
    method Tick(dt: real)
      modifies this`displayScore
      ensures displayScore == DisplayStep(old(displayScore), currentScore, displayUpdateRate)
      ensures displayScore <= currentScore as real
    {
      displayScore := displayScore + displayUpdateRate;
      if displayScore > currentScore as real {
        displayScore := currentScore as real;
      }
    }

    method Reset()
      modifies this`currentScore, this`displayScore
      ensures currentScore == 0 && displayScore == 0.0
    {
      currentScore := 0;
      displayScore := 0.0;
    }

    /** Adds `delta` to the score and returns the new score. */
    method ChangeScore(delta: int) returns (score: int)
      modifies this`currentScore
      ensures currentScore == old(currentScore) + delta
      ensures score == currentScore
    {
      currentScore := currentScore + delta;
      score := currentScore;
    }
  }
}
