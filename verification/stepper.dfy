/**
  The generation stepper `calcNextGen` of Game.java, as a pure function of
  the `current` grid.

  For every row `y` and column `x` the source calls `calcNumNeighbors(x, y)`,
  i.e. with the COLUMN as first argument, while the counter treats its first
  argument as the row. The count that decides cell (row `y`, column `x`) is
  therefore the neighbourhood of the transposed cell (row `x`, column `y`).
  This is what the source does and what is modelled here.
 */
module Stepper {
  import opened Cells
  import opened LifeRule
  import opened Neighbours

  /** The `next` grid that `calcNextGen` writes, cell by cell, from `current` alone. */
  function NextGrid(g: Grid, sizeX: nat, sizeY: nat): (r: Grid)
    requires IsRect(g, sizeY, sizeX)
    ensures IsRect(r, sizeY, sizeX)
  {
    seq(sizeY, y requires 0 <= y < sizeY =>
      seq(sizeX, x requires 0 <= x < sizeX =>
        NextState(g[y][x], NumNeighbours(g, sizeX, sizeY, x, y).n)))
  }

  /** Cell (row `y`, column `x`) of `w` is the one `calcNextGen` writes there. */
  predicate NextCell(w: Grid, g: Grid, sizeX: nat, sizeY: nat, y: int, x: int)
    requires IsRect(w, sizeY, sizeX) && IsRect(g, sizeY, sizeX)
    requires 0 <= y < sizeY && 0 <= x < sizeX
  {
    w[y][x] == NextState(g[y][x], NumNeighbours(g, sizeX, sizeY, x, y).n)
  }

  /** A grid whose every cell is the one `calcNextGen` writes is the next grid. */
  lemma NextCellsMakeNextGrid(w: Grid, g: Grid, sizeX: nat, sizeY: nat)
    requires IsRect(w, sizeY, sizeX) && IsRect(g, sizeY, sizeX)
    requires forall y, x :: 0 <= y < sizeY && 0 <= x < sizeX ==> NextCell(w, g, sizeX, sizeY, y, x)
    ensures w == NextGrid(g, sizeX, sizeY)
  {
    forall y, x | 0 <= y < sizeY && 0 <= x < sizeX
      ensures w[y][x] == NextGrid(g, sizeX, sizeY)[y][x]
    {
      assert NextCell(w, g, sizeX, sizeY, y, x);
    }
    SameCells(w, NextGrid(g, sizeX, sizeY), sizeY, sizeX);
  }

  /**
    How many of the calls for columns `0..w-1` of row `y` hit a caught bounds
    fault (a call faults exactly when `HasFault` holds of its arguments).
   */
  function RowFaults(g: Grid, sizeX: nat, sizeY: nat, y: int, w: nat): nat
    decreases w
  {
    if w == 0 then 0
    else RowFaults(g, sizeX, sizeY, y, w - 1) + (if HasFault(g, sizeX, sizeY, w - 1, y) then 1 else 0)
  }

  /** How many of the calls for rows `0..h-1` hit a caught bounds fault: the crash-counter increase. */
  function Faults(g: Grid, sizeX: nat, sizeY: nat, h: nat): nat
    decreases h
  {
    if h == 0 then 0
    else Faults(g, sizeX, sizeY, h - 1) + RowFaults(g, sizeX, sizeY, h - 1, sizeX)
  }

  /** Each call adds at most one, and a row adds nothing exactly when none of its calls faults. */
  lemma {:induction false} RowFaultsCount(g: Grid, sizeX: nat, sizeY: nat, y: int, w: nat)
    ensures RowFaults(g, sizeX, sizeY, y, w) <= w
    ensures RowFaults(g, sizeX, sizeY, y, w) == 0 <==> forall x :: 0 <= x < w ==> !HasFault(g, sizeX, sizeY, x, y)
    decreases w
  {
    if w > 0 {
      RowFaultsCount(g, sizeX, sizeY, y, w - 1);
    }
  }

  /**
    The crash-counter increase of `calcNextGen` is at most one per call, and
    zero exactly when no call over the first `h` rows faults.
   */
  lemma {:induction false} FaultsCount(g: Grid, sizeX: nat, sizeY: nat, h: nat)
    ensures Faults(g, sizeX, sizeY, h) <= h * sizeX
    ensures Faults(g, sizeX, sizeY, h) == 0 <==>
      forall y, x :: 0 <= y < h && 0 <= x < sizeX ==> !HasFault(g, sizeX, sizeY, x, y)
    decreases h
  {
    if h > 0 {
      FaultsCount(g, sizeX, sizeY, h - 1);
      RowFaultsCount(g, sizeX, sizeY, h - 1, sizeX);
      assert (h - 1) * sizeX + sizeX == h * sizeX;
    }
  }

  /** Standard Life: every cell decided by its OWN eight neighbours. */
  function LifeStep(g: Grid, rows: nat, cols: nat): (r: Grid)
    requires IsRect(g, rows, cols)
    ensures IsRect(r, rows, cols)
  {
    seq(rows, y requires 0 <= y < rows =>
      seq(cols, x requires 0 <= x < cols =>
        NextState(g[y][x], |LiveAround(g, y, x)|)))
  }

  /**
    On a square grid, `calcNextGen` never faults and decides cell (row `y`,
    column `x`) from its own state and the live neighbours of row `x`,
    column `y`: a live cell survives iff that count is 2 or 3, a dead one is
    born iff it is 3.
   */
  lemma SquareNextGrid(g: Grid, n: nat)
    requires IsRect(g, n, n)
    ensures Faults(g, n, n, n) == 0
    ensures forall y, x :: 0 <= y < n && 0 <= x < n ==>
      var c := |LiveAround(g, x, y)|;
      NextGrid(g, n, n)[y][x] == (if g[y][x] then c == 2 || c == 3 else c == 3)
  {
    forall y, x | 0 <= y < n && 0 <= x < n
      ensures var c := |LiveAround(g, x, y)|;
        NextGrid(g, n, n)[y][x] == (if g[y][x] then c == 2 || c == 3 else c == 3)
    {
      SquareGridCount(g, n, x, y);
    }
    NoFaultsOnSquare(g, n, n);
  }

  lemma {:induction false} NoFaultsOnSquare(g: Grid, n: nat, h: nat)
    requires IsRect(g, n, n)
    ensures Faults(g, n, n, h) == 0
    decreases h
  {
    if h > 0 {
      NoFaultsOnSquare(g, n, h - 1);
      NoRowFaultsOnSquare(g, n, h - 1, n);
    }
  }

  lemma {:induction false} NoRowFaultsOnSquare(g: Grid, n: nat, y: int, w: nat)
    requires IsRect(g, n, n)
    ensures RowFaults(g, n, n, y, w) == 0
    decreases w
  {
    if w > 0 {
      NoRowFaultsOnSquare(g, n, y, w - 1);
    }
  }

  /** The transposition of a set of positions. */
  function Swap(s: set<Pos>): set<Pos> {
    set p | p in s :: (p.1, p.0)
  }

  lemma {:induction false} SwapCardinality(s: set<Pos>)
    ensures |Swap(s)| == |s|
    decreases |s|
  {
    if s != {} {
      var p :| p in s;
      var rest := s - {p};
      SwapCardinality(rest);
      assert Swap(s) == Swap(rest) + {(p.1, p.0)};
      assert (p.1, p.0) !in Swap(rest);
    }
  }

  /** In a symmetric square grid, the neighbourhood of the transposed cell is the transposed neighbourhood. */
  lemma SymmetricNeighbourhood(g: Grid, n: nat, x: int, y: int)
    requires IsRect(g, n, n) && IsSymmetric(g, n)
    ensures |LiveAround(g, x, y)| == |LiveAround(g, y, x)|
  {
    var a := LiveAround(g, x, y);
    var b := LiveAround(g, y, x);
    forall q | q in b
      ensures q in Swap(a)
    {
      assert (q.1, q.0) in a;
    }
    forall q | q in Swap(a)
      ensures q in b
    {
      var p :| p in a && q == (p.1, p.0);
      assert g[p.0][p.1] == g[p.1][p.0];
    }
    assert b == Swap(a);
    SwapCardinality(a);
  }

  /** When the grid is symmetric about its diagonal, the transposed count is harmless: `calcNextGen` is standard Life. */
  lemma SymmetricIsLife(g: Grid, n: nat)
    requires IsRect(g, n, n) && IsSymmetric(g, n)
    ensures NextGrid(g, n, n) == LifeStep(g, n, n)
  {
    SquareNextGrid(g, n);
    forall y, x | 0 <= y < n && 0 <= x < n
      ensures NextGrid(g, n, n)[y][x] == LifeStep(g, n, n)[y][x]
    {
      SymmetricNeighbourhood(g, n, x, y);
    }
    SameCells(NextGrid(g, n, n), LifeStep(g, n, n), n, n);
  }

  /** A horizontal blinker: the middle row of a 3x3 grid is live. */
  const Blinker: Grid := [[false, false, false], [true, true, true], [false, false, false]]

  /**
    Without the symmetry the result can differ; a horizontal blinker is one
    example. Its left cell has one live neighbour of its own and dies in
    standard Life, but the transposed cell (row 0, column 1) has three, so
    `calcNextGen` keeps it alive.
   */
  lemma BlinkerDiverges()
    ensures IsRect(Blinker, 3, 3)
    ensures NextGrid(Blinker, 3, 3)[1][0] && !LifeStep(Blinker, 3, 3)[1][0]
    ensures NextGrid(Blinker, 3, 3) != LifeStep(Blinker, 3, 3)
  {
    assert IsRect(Blinker, 3, 3);
    assert LiveAround(Blinker, 0, 1) == {(1, 0), (1, 1), (1, 2)};
    assert LiveAround(Blinker, 1, 0) == {(1, 1)};
    SquareGridCount(Blinker, 3, 0, 1);
    SquareGridCount(Blinker, 3, 1, 0);
  }

  /**
    On a grid of 2 rows and 3 columns the check lets column index 2 through as
    a row index: counting around row 1, column 0 reads one live cell and then
    faults, returning the partial count 1.
   */
  lemma WideGridFaults()
    ensures NumNeighbours([[true, true, true], [true, true, true]], 3, 2, 1, 0) == Count(1, true)
  {
  }
}
