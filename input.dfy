/**
 * Key-state classification shared by the three games (pool, asteroids, physics): given whether a key
 * was held in the previous frame and whether it is held now, the frame's button state.
 * The three games carry behaviourally identical copies of `InputData::ProcessKey` (the pool game's is
 * `constexpr`); it is modelled once.
 */
module Input {

  datatype ButtonState = NONE | DOWN | HOLD | UP

  /**
   * `InputData::ProcessKey`: the tests are made in the source's order (DOWN, UP, HOLD, else NONE).
   * The contract is the truth table read in both directions, so the state also recovers both samples.
   */
  function ProcessKey(prevKey: bool, nowKey: bool): (r: ButtonState)
    ensures r == DOWN <==> !prevKey && nowKey
    ensures r == UP <==> prevKey && !nowKey
    ensures r == HOLD <==> prevKey && nowKey
    ensures r == NONE <==> !prevKey && !nowKey
    ensures nowKey <==> r in {DOWN, HOLD}
    ensures prevKey <==> r in {UP, HOLD}
  {
    if !prevKey && nowKey then DOWN
    else if prevKey && !nowKey then UP
    else if prevKey && nowKey then HOLD
    else NONE
  }
}
