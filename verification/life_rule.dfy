/**
  The birth/survival rule table applied by `calcNextGen` to one cell.
 */
module LifeRule {

  /**
    Next state of a cell that is `alive` now and has `n` live neighbours,
    decided by the same four-way branch as the source: fewer than two
    neighbours kills a live cell, two or three keep it, more than three
    kill it; a dead cell is born with exactly three.
   */
  function NextState(alive: bool, n: int): (live: bool)
    ensures alive ==> (live <==> n in {2, 3})
    ensures !alive ==> (live <==> n == 3)
  {
    if alive then
      if n < 2 then false
      else if n == 2 || n == 3 then true
      else false
    else
      if n == 3 then true else false
  }
}
