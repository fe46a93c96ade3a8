/**
 * The score counter of `Score.cs`: a 32-bit `int` that is never negative,
 * changed by `AddScore` (the `OnScoreAdded` handler) and `HandleScoreReset`.
 * The label text is presentation and is not modelled.
 */
module Score {

  newtype int32 = x: int | -0x8000_0000 <= x < 0x8000_0000

  /** C#'s unchecked `int` addition: the exact sum reduced to 32 bits,
      two's complement. */
  function Wrap32(x: int): (r: int32)
    ensures -0x8000_0000 <= x < 0x8000_0000 ==> r as int == x
    ensures (r as int - x) % 0x1_0000_0000 == 0
  {
    var m := (x + 0x8000_0000) % 0x1_0000_0000;
    (m - 0x8000_0000) as int32
  }

  /** `CurrentScore` only ever receives the output of the clamp. */
  type score32 = x: int32 | 0 <= x

  datatype ScoreState = ScoreState(currentScore: score32)

  /** The state right after `Awake`, which calls `SetScore(0)`. */
  function Awake(): (s: ScoreState)
    ensures s.currentScore == 0
  {
    SetScore(0)
  }

  /** `SetScore`: negative requests are clamped to zero. */
  function SetScore(value: int32): (s: ScoreState)
    ensures value >= 0 ==> s.currentScore == value
    ensures value < 0 ==> s.currentScore == 0
  {
    ScoreState(if value < 0 then 0 else value)
  }

  /** `AddScore` (and `HandleScoreAdded`): `SetScore(CurrentScore + delta)`
      with the sum computed in 32-bit arithmetic. */
  function AddScore(s: ScoreState, delta: int32): (s': ScoreState)
    ensures 0 <= s.currentScore as int + delta as int < 0x8000_0000 ==>
              s'.currentScore as int == s.currentScore as int + delta as int
    ensures s.currentScore as int + delta as int < 0 ==> s'.currentScore == 0
    ensures s.currentScore as int + delta as int >= 0x8000_0000 ==> s'.currentScore == 0
  {
    SetScore(Wrap32(s.currentScore as int + delta as int))
  }

  /** `HandleScoreReset`. */
  function HandleScoreReset(s: ScoreState): (s': ScoreState)
    ensures s'.currentScore == 0
  {
    SetScore(0)
  }

  /** A non-negative delta that does not overflow raises the score by exactly
      that delta. */
  lemma AddNonNegativeIsExact(s: ScoreState, delta: int32)
    requires delta >= 0
    requires s.currentScore as int + delta as int < 0x8000_0000
    ensures AddScore(s, delta).currentScore as int == s.currentScore as int + delta as int
  {
  }

  /** Adding two deltas in turn is adding their sum, as long as the running
      score never drops below zero on the way (and nothing overflows). */
  lemma AddTwiceIsAddSum(s: ScoreState, d1: int32, d2: int32)
    requires 0 <= s.currentScore as int + d1 as int < 0x8000_0000
    requires 0 <= s.currentScore as int + d1 as int + d2 as int < 0x8000_0000
    requires -0x8000_0000 <= d1 as int + d2 as int < 0x8000_0000
    ensures AddScore(AddScore(s, d1), d2) == AddScore(s, (d1 as int + d2 as int) as int32)
  {
  }

  /** The clamp loses information: from 3, adding -5 then +5 gives 5, not 3. */
  lemma ClampIsLossy()
    ensures AddScore(AddScore(ScoreState(3), -5), 5) == ScoreState(5)
  {
  }

  /** A score at the top of the range wraps to a negative sum, which the
      clamp then turns into zero. */
  lemma OverflowResetsToZero()
    ensures AddScore(ScoreState(0x7FFF_FFFF), 1) == ScoreState(0)
  {
  }
}
