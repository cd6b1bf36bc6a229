/**
  The data grid `setup` of Game.java installs, and the neighbour counts its
  unit tests expect of `calcNumNeighbors` on it.
 */
module SeedPattern {
  import opened Cells
  import opened Neighbours
  import Simulation

  /**
    The live columns of each row of the 23 x 23 data grid `setup` assigns
    to `current` (Game.java, lines 86-108).
   */
  function LiveColumns(r: int): set<int> {
    if r == 0 then {1}
    else if r == 1 then {0, 2, 22}
    else if r == 2 then {3, 17, 18, 19}
    else if r == 3 then {1, 2, 3, 17, 18, 19}
    else if r == 4 then {17}
    else if r == 5 then {}
    else if r == 6 then {17, 18, 19}
    else if r == 7 then {17, 18, 19}
    else if r == 8 then {17, 18}
    else if r == 9 then {8, 9, 18}
    else if r == 10 then {17, 18, 19}
    else if r == 11 then {17, 18, 19}
    else if r == 12 then {17, 18, 19}
    else if r == 13 then {5}
    else if r == 14 then {3, 4, 13, 14, 15}
    else if r == 15 then {5, 16}
    else if r == 16 then {6, 13, 15, 16}
    else if r == 17 then {3, 5, 7, 14, 15, 17}
    else if r == 18 then {15, 17}
    else if r == 19 then {15}
    else if r == 20 then {}
    else if r == 21 then {1, 21, 22}
    else if r == 22 then {1, 21}
    else {}
  }

  /** The data grid: row `r` is live exactly in the columns `LiveColumns(r)`. */
  const Seed: Grid := seq(23, r => seq(23, c => c in LiveColumns(r)))

  /** `setup` on the data grid: 23 columns, 23 rows, `next` dead, no crashes. */
  lemma SeedSetup()
    ensures IsRect(Seed, 23, 23)
    ensures Simulation.Setup(Seed).Some?
    ensures var s := Simulation.Setup(Seed).value;
      Simulation.Valid(s) && s.sizeX == 23 && s.sizeY == 23 && s.crashCounter == 0
  {
    assert IsRect(Seed, 23, 23);
  }

  /** 1 when row `r`, column `c` is a live cell of the data grid, 0 otherwise (including outside it). */
  function SeedAlive(r: int, c: int): nat {
    if 0 <= r < 23 && 0 <= c < 23 && c in LiveColumns(r) then 1 else 0
  }

  lemma SeedAliveIsAlive(r: int, c: int)
    ensures SeedAlive(r, c) == Alive(Seed, (r, c))
  {
  }

  /**
    On the data grid the count is the number of live cells among the eight
    around row `x`, column `y`, and no call faults.
   */
  lemma SeedCount(x: int, y: int)
    ensures NumNeighbours(Seed, 23, 23, x, y) == Count(
      SeedAlive(x - 1, y - 1) + SeedAlive(x, y - 1) + SeedAlive(x + 1, y - 1) +
      SeedAlive(x - 1, y) + SeedAlive(x + 1, y) +
      SeedAlive(x - 1, y + 1) + SeedAlive(x, y + 1) + SeedAlive(x + 1, y + 1), false)
  {
    assert IsRect(Seed, 23, 23);
    SquareGridCount(Seed, 23, x, y);
    LiveAroundCount(Seed, x, y);
    SeedAliveIsAlive(x - 1, y - 1); SeedAliveIsAlive(x, y - 1); SeedAliveIsAlive(x + 1, y - 1);
    SeedAliveIsAlive(x - 1, y); SeedAliveIsAlive(x + 1, y);
    SeedAliveIsAlive(x - 1, y + 1); SeedAliveIsAlive(x, y + 1); SeedAliveIsAlive(x + 1, y + 1);
  }

  /** The count around row `x`, column `y` is `e` when `e` live cells surround it. */
  lemma CountIs(x: int, y: int, e: nat)
    requires e == SeedAlive(x - 1, y - 1) + SeedAlive(x, y - 1) + SeedAlive(x + 1, y - 1) +
                 SeedAlive(x - 1, y) + SeedAlive(x + 1, y) +
                 SeedAlive(x - 1, y + 1) + SeedAlive(x, y + 1) + SeedAlive(x + 1, y + 1)
    ensures NumNeighbours(Seed, 23, 23, x, y) == Count(e, false)
  {
    SeedCount(x, y);
  }

  /** `testUpperLeftCorner`: the upper-left corner: `calcNumNeighbors(0, 0)` is 2 right after `setup`. */
  lemma UpperLeftCorner()
    ensures NumNeighbours(Seed, 23, 23, 0, 0) == Count(2, false)
  {
    CountIs(0, 0, 2);
  }

  /** `testLowerLeftCorner`: row 22, column 0: `calcNumNeighbors(22, 0)` is 2 right after `setup`. */
  lemma LowerLeftCorner()
    ensures NumNeighbours(Seed, 23, 23, 22, 0) == Count(2, false)
  {
    CountIs(22, 0, 2);
  }

  /** `testUpperRightCorner`: row 0, column 22: `calcNumNeighbors(0, 22)` is 1 right after `setup`. */
  lemma UpperRightCorner()
    ensures NumNeighbours(Seed, 23, 23, 0, 22) == Count(1, false)
  {
    CountIs(0, 22, 1);
  }

  /** `testLowerRight`: the lower-right corner: `calcNumNeighbors(22, 22)` is 3 right after `setup`. */
  lemma LowerRightCorner()
    ensures NumNeighbours(Seed, 23, 23, 22, 22) == Count(3, false)
  {
    CountIs(22, 22, 3);
  }

  /** `test0Neighbors`: `calcNumNeighbors(4, 5)` is 0 right after `setup`. */
  lemma ZeroNeighbours()
    ensures NumNeighbours(Seed, 23, 23, 4, 5) == Count(0, false)
  {
    CountIs(4, 5, 0);
  }

  /** `test1Neighbors`: `calcNumNeighbors(4, 4)` is 1 right after `setup`. */
  lemma OneNeighbour()
    ensures NumNeighbours(Seed, 23, 23, 4, 4) == Count(1, false)
  {
    CountIs(4, 4, 1);
  }

  /** `test2Neighbors`: `calcNumNeighbors(4, 3)` is 2 right after `setup`. */
  lemma TwoNeighbours()
    ensures NumNeighbours(Seed, 23, 23, 4, 3) == Count(2, false)
  {
    CountIs(4, 3, 2);
  }

  /** `test3Neighbors`: `calcNumNeighbors(4, 2)` is 3 right after `setup`. */
  lemma ThreeNeighbours()
    ensures NumNeighbours(Seed, 23, 23, 4, 2) == Count(3, false)
  {
    CountIs(4, 2, 3);
  }

  /** `test4Neighbors`: `calcNumNeighbors(2, 1)` is 4 right after `setup`. */
  lemma FourNeighbours()
    ensures NumNeighbours(Seed, 23, 23, 2, 1) == Count(4, false)
  {
    CountIs(2, 1, 4);
  }

  /** `test5Neighbors`: `calcNumNeighbors(2, 2)` is 5 right after `setup`. */
  lemma FiveNeighbours()
    ensures NumNeighbours(Seed, 23, 23, 2, 2) == Count(5, false)
  {
    CountIs(2, 2, 5);
  }

  /** `test6Neighbors`: `calcNumNeighbors(3, 18)` is 6 right after `setup`. */
  lemma SixNeighbours()
    ensures NumNeighbours(Seed, 23, 23, 3, 18) == Count(6, false)
  {
    CountIs(3, 18, 6);
  }

  /** `test7Neighbors`: `calcNumNeighbors(7, 18)` is 7 right after `setup`. */
  lemma SevenNeighbours()
    ensures NumNeighbours(Seed, 23, 23, 7, 18) == Count(7, false)
  {
    CountIs(7, 18, 7);
  }

  /** `test8Neighbors`: `calcNumNeighbors(11, 18)` is 8 right after `setup`. */
  lemma EightNeighbours()
    ensures NumNeighbours(Seed, 23, 23, 11, 18) == Count(8, false)
  {
    CountIs(11, 18, 8);
  }
}
