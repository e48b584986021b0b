/**
 * Pre-drawn randomness. Every random cell decision in the generator is one
 * Bernoulli draw, followed, when the cell comes alive, by one uniform
 * integer draw `pick` in 0..numStates-2; the cell's state is then
 * `1 + pick`. The model receives these outcomes as input sequences,
 * consumed in the order the source draws them.
 */
module Draws {

  datatype CellDraw = Dead | Live(pick: int)

  /** The uniform draw for `numStates - 1` outcomes lies in 0..numStates-2;
      with a single state there is no valid live draw at all. */
  predicate ValidDraw(d: CellDraw, numStates: int) {
    d.Live? ==> 0 <= d.pick < numStates - 1
  }

  predicate ValidDraws(draws: seq<CellDraw>, numStates: int) {
    forall d :: d in draws ==> ValidDraw(d, numStates)
  }

  /** The state a draw produces: 0 for a dead cell, `1 + pick` otherwise. */
  function DrawnState(d: CellDraw, numStates: int): (s: int)
    requires ValidDraw(d, numStates)
    ensures 0 <= s < if numStates > 0 then numStates else 1
    ensures s == 0 <==> d.Dead?
  {
    if d.Dead? then 0 else 1 + d.pick
  }
}
