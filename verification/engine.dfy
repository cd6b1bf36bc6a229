/**
  The in-place engine of Game.java on two-dimensional arrays: the nested
  loops of `calcNumNeighbors`, `calcNextGen`, `copyArray` and the
  generation loop of `run`, each specified against the pure model. The
  ghost grid parameters name the contents the arrays hold on entry.
  `current` and `next` are distinct arrays of `sizeY` rows and `sizeX`
  columns, as `setup` leaves them.
 */
module Engine {
  import opened Cells
  import opened LifeRule
  import opened Neighbours
  import opened Stepper
  import Simulation

  /**
    The two nested loops of `calcNumNeighbors(x, y)` over the array holding
    `g`. A read outside the array is the caught
    `ArrayIndexOutOfBoundsException`: the loops are abandoned and the
    partial count is returned with `crashed` set (the caller adds it to the
    crash counter).
   */
  method CalcNumNeighbors(current: array2<bool>, ghost g: Grid, sizeX: int, sizeY: int, x: int, y: int)
    returns (numNeighbors: nat, crashed: bool)
    requires Holds(g, current)
    ensures numNeighbors <= 8
    ensures numNeighbors == NumNeighbours(g, sizeX, sizeY, x, y).n
    ensures crashed <==> HasFault(g, sizeX, sizeY, x, y)
  {
    numNeighbors := 0;
    crashed := false;
    ghost var k: nat := 0;
    var i := -1;
    while i <= 1
      invariant -1 <= i <= 2 && k == (i + 1) * 3
      invariant Scan(g, sizeX, sizeY, x, y, k, numNeighbors) == NumNeighbours(g, sizeX, sizeY, x, y)
    {
      var j := -1;
      while j <= 1
        invariant -1 <= j <= 2 && k == (i + 1) * 3 + (j + 1)
        invariant Scan(g, sizeX, sizeY, x, y, k, numNeighbors) == NumNeighbours(g, sizeX, sizeY, x, y)
      {
        ghost var before := numNeighbors;
        ScanStep(g, sizeX, sizeY, x, y, i, j, k, before);
        if i == 0 && j == 0 {
          // the cell itself is not a neighbour
        } else if y + i >= 0 && y + i < sizeY && x + j >= 0 && x + j < sizeX {
          if x + j >= current.Length0 || y + i >= current.Length1 {
            assert !InGrid(g, (x + j, y + i));
            crashed := true;
            FaultedIffHasFault(g, sizeX, sizeY, x, y);
            return;
          }
          assert InGrid(g, (x + j, y + i)) && g[x + j][y + i] == current[x + j, y + i];
          if current[x + j, y + i] {
            numNeighbors := numNeighbors + 1;
          }
        }
        assert Scan(g, sizeX, sizeY, x, y, k + 1, numNeighbors) == Scan(g, sizeX, sizeY, x, y, k, before);
        j := j + 1;
        k := k + 1;
      }
      i := i + 1;
    }
    FaultedIffHasFault(g, sizeX, sizeY, x, y);
  }

  /**
    The nested loops of `calcNextGen`: row `y` outer, column `x` inner, the
    count taken with `calcNumNeighbors(x, y)`, the rule table applied to
    `current[y][x]`. Every cell of `next` is written, from `current` alone;
    the crash counter grows by the number of faulting calls.
   */
  method CalcNextGen(current: array2<bool>, next: array2<bool>, ghost g: Grid, sizeX: nat, sizeY: nat, crashCounter: nat)
    returns (crashCounter': nat)
    requires current != next
    requires current.Length0 == sizeY && current.Length1 == sizeX
    requires next.Length0 == sizeY && next.Length1 == sizeX
    requires Holds(g, current)
    modifies next
    ensures Holds(g, current)
    ensures Holds(NextGrid(g, sizeX, sizeY), next)
    ensures crashCounter' == crashCounter + Faults(g, sizeX, sizeY, sizeY)
  {
    // The target grid is known to the loops only cell by cell, through `NextCell`.
    ghost var want := NextGridCells(g, sizeX, sizeY);
    crashCounter' := crashCounter;
    var y := 0;
    while y < sizeY
      invariant 0 <= y <= sizeY
      invariant Holds(g, current)
      invariant forall r, c :: 0 <= r < y && 0 <= c < sizeX ==> next[r, c] == want[r][c]
      invariant crashCounter' == crashCounter + Faults(g, sizeX, sizeY, y)
    {
      var x := 0;
      while x < sizeX
        invariant 0 <= x <= sizeX
        invariant Holds(g, current)
        invariant forall r, c :: 0 <= r < sizeY && 0 <= c < sizeX && (r < y || (r == y && c < x)) ==> next[r, c] == want[r][c]
        invariant crashCounter' == crashCounter + Faults(g, sizeX, sizeY, y) + RowFaults(g, sizeX, sizeY, y, x)
      {
        var live, crashed := DecideCell(current, g, want, sizeX, sizeY, x, y);
        if crashed {
          crashCounter' := crashCounter' + 1;
        }
        next[y, x] := live;
        x := x + 1;
      }
      y := y + 1;
    }
    NextCellsMakeNextGrid(want, g, sizeX, sizeY);
  }

  /**
    The body of the inner loop of `calcNextGen` for row `y`, column `x`,
    apart from the store into `next`: the count from
    `calcNumNeighbors(x, y)`, then the rule table on `current[y][x]`.
    `want` is any grid whose cells are the ones `calcNextGen` writes.
   */
  method DecideCell(current: array2<bool>, ghost g: Grid, ghost want: Grid, sizeX: nat, sizeY: nat, x: nat, y: nat)
    returns (live: bool, crashed: bool)
    requires current.Length0 == sizeY && current.Length1 == sizeX
    requires Holds(g, current) && IsRect(want, sizeY, sizeX)
    requires forall r, c :: 0 <= r < sizeY && 0 <= c < sizeX ==> NextCell(want, g, sizeX, sizeY, r, c)
    requires y < sizeY && x < sizeX
    ensures live == want[y][x]
    ensures crashed <==> HasFault(g, sizeX, sizeY, x, y)
  {
    var numNeighbors;
    numNeighbors, crashed := CalcNumNeighbors(current, g, sizeX, sizeY, x, y);
    if current[y, x] {
      if numNeighbors < 2 {
        live := false;
      } else if numNeighbors == 2 || numNeighbors == 3 {
        live := true;
      } else {
        live := false;
      }
    } else {
      if numNeighbors == 3 {
        live := true;
      } else {
        live := false;
      }
    }
    assert NextCell(want, g, sizeX, sizeY, y, x);
  }

  /**
    The next grid, described cell by cell. Returned through an out-parameter so
    that the loops of `CalcNextGen` see only `NextCell`, not the definition.
   */
  lemma NextGridCells(g: Grid, sizeX: nat, sizeY: nat) returns (w: Grid)
    requires IsRect(g, sizeY, sizeX)
    ensures IsRect(w, sizeY, sizeX)
    ensures forall y, x :: 0 <= y < sizeY && 0 <= x < sizeX ==> NextCell(w, g, sizeX, sizeY, y, x)
  {
    w := NextGrid(g, sizeX, sizeY);
  }

  /** The nested loops of `copyArray`: every cell of `next`, holding `h`, copied into `current`. */
  method CopyArray(current: array2<bool>, next: array2<bool>, ghost h: Grid, sizeX: nat, sizeY: nat)
    requires current != next
    requires current.Length0 == sizeY && current.Length1 == sizeX
    requires next.Length0 == sizeY && next.Length1 == sizeX
    requires Holds(h, next)
    modifies current
    ensures Holds(h, next) && Holds(h, current)
  {
    var y := 0;
    while y < sizeY
      invariant 0 <= y <= sizeY
      invariant Holds(h, next)
      invariant forall r, c :: 0 <= r < y && 0 <= c < sizeX ==> current[r, c] == h[r][c]
    {
      var x := 0;
      while x < sizeX
        invariant 0 <= x <= sizeX
        invariant Holds(h, next)
        invariant forall r, c :: 0 <= r < y && 0 <= c < sizeX ==> current[r, c] == h[r][c]
        invariant forall c :: 0 <= c < x ==> current[y, c] == h[y][c]
      {
        current[y, x] := next[y, x];
        x := x + 1;
      }
      y := y + 1;
    }
  }

  /** The state the arrays and fields of a `Game` stand for. */
  function StateOf(current: array2<bool>, next: array2<bool>, crashCounter: nat): Simulation.State
    reads current, next
  {
    Simulation.State(Snapshot(current), Snapshot(next), current.Length1, current.Length0, crashCounter)
  }

  /** The generation loop of `run`: `MaxGenerations` rounds of `calcNextGen` then `copyArray`. */
  method Run(current: array2<bool>, next: array2<bool>, crashCounter: nat) returns (crashCounter': nat)
    requires current != next
    requires next.Length0 == current.Length0 && next.Length1 == current.Length1
    modifies current, next
    ensures StateOf(current, next, crashCounter') ==
            Simulation.Run(old(StateOf(current, next, crashCounter)), Simulation.MaxGenerations)
  {
    ghost var s := StateOf(current, next, crashCounter);
    HoldsSnapshot(s.current, current);
    HoldsSnapshot(s.next, next);
    var sizeX := current.Length1;
    var sizeY := current.Length0;
    crashCounter' := crashCounter;
    ghost var t := s;
    var numGeneration := 0;
    while numGeneration < Simulation.MaxGenerations
      invariant 0 <= numGeneration <= Simulation.MaxGenerations
      invariant t == Simulation.Run(s, numGeneration)
      invariant Holds(t.current, current) && Holds(t.next, next) && crashCounter' == t.crashCounter
    {
      assert Simulation.Run(s, numGeneration + 1) == Simulation.CopyArray(Simulation.CalcNextGen(t));
      crashCounter' := CalcNextGen(current, next, t.current, sizeX, sizeY, crashCounter');
      t := Simulation.CalcNextGen(t);
      CopyArray(current, next, t.next, sizeX, sizeY);
      Simulation.CopyArrayEqualises(t);
      t := Simulation.CopyArray(t);
      numGeneration := numGeneration + 1;
    }
    HoldsSnapshot(t.current, current);
    HoldsSnapshot(t.next, next);
  }
}
