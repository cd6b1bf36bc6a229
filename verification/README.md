# Conway's Game of Life engine of `Game.java`, in Dafny

This project models the computing core of the `Game` class: the neighbour
counter `calcNumNeighbors`, the generation stepper `calcNextGen`, the copy
`copyArray`, the grid dimensions and allocation done by `setup`, and the
generation loop of `run`, which runs `MAX_GENERATIONS` (100) rounds.

The model follows the code as written, including two quirks.

- **Transposed count.** `calcNextGen` decides the cell at row `y`, column `x`
  by calling `calcNumNeighbors(x, y)`. The counter reads
  `current[x + j][y + i]`, so it treats its first argument as the row. Each
  cell is therefore decided from its own state plus the neighbourhood of the
  transposed cell (row `x`, column `y`). On a grid that is symmetric about
  its diagonal this is standard Life. On other grids the result can
  differ; a horizontal blinker is one example.
- **Mismatched bounds check.** The counter checks `y + i` against `SIZE_Y`
  and `x + j` against `SIZE_X`, but uses `x + j` as the row index. On a grid
  that is not square, the check can pass while the array read is out of
  bounds. The `ArrayIndexOutOfBoundsException` is caught, both loops are
  abandoned, `crashCounter` goes up by one, and the count so far is
  returned. The model returns `Count(n, faulted)` and states exactly when
  `faulted` holds and what `n` is then.

Layout:

- `cells.dfy` (`Cells`): grids as `seq<seq<bool>>` indexed `[row][column]`.
- `life_rule.dfy` (`LifeRule`): the rule table.
- `neighbours.dfy` (`Neighbours`): the counter as a scan over the nine loop
  steps, with a set-based reference definition.
- `stepper.dfy` (`Stepper`): `calcNextGen` as a function on grids.
- `simulation.dfy` (`Simulation`): the object state and `setup`, the
  counter with its side effect, `calcNextGen`, `copyArray` and `run`, as
  state-to-state functions.
- `engine.dfy` (`Engine`): the nested loops themselves, on `array2<bool>`,
  each specified against the pure layer.
- `seed.dfy` (`SeedPattern`): the 23 x 23 data grid `setup` installs, and the
  counts the unit tests in `GameTest.java` expect on it.

Java `int` arithmetic is modelled as unbounded integers. The indices never
come near the 32-bit limits for grids that fit in memory.

## Model

| member | source | states |
|---|---|---|
| LifeRule.NextState | Game.java:292-310 | A live cell survives exactly when it has 2 or 3 neighbours; a dead cell is born exactly when it has 3. |
| Neighbours.Scan | Game.java:238-251 | The nested loops from step `k` on, starting from count `acc`. The count never drops and gains at most one per remaining non-centre step. Its full behaviour is stated by `Neighbours.NumNeighboursMeetsReference`. |
| Neighbours.NumNeighbours | Game.java:228-264 | `calcNumNeighbors(x, y)` without its side effect. The result is between 0 and 8, as the method's documentation promises. The rest of its behaviour is stated by `Neighbours.NumNeighboursMeetsReference`. |
| Neighbours.ScanStep | Game.java:238-249 | One iteration `(i, j)` of the nested loops. The centre is skipped. A position failing the bounds check is skipped. A checked position outside the array ends the scan, faulted, with the count so far. Otherwise the count goes up by one exactly when the cell `[x + j][y + i]` is live. |
| Neighbours.NumNeighboursMeetsReference | Game.java:228-264 | For every grid, size pair and coordinates, the call faults if and only if some neighbour passes the bounds check but lies outside the array. Without a fault the result is the number of live neighbours that pass the check. With a fault it is the number of those read before the first faulting position in loop order. |
| Neighbours.FaultedIffHasFault | Game.java:243-253 | The exception is raised exactly when one of the eight neighbour positions passes the bounds check but lies outside the array. |
| Neighbours.SquareGridCount | Game.java:238-249 | On an n x n grid with both sizes n, no call faults, and the result is the number of live cells among the eight around row `x`, column `y`. |
| Neighbours.CentreIgnored | Game.java:241-242 | The queried cell itself is never counted: changing it leaves the result, including the fault flag, unchanged. |
| Neighbours.CornerAtMostThree | Game.java:243-244 | On a square grid, a corner cell has at most 3 counted neighbours. |
| Neighbours.BorderAtMostFive | Game.java:243-244 | On a square grid, a border cell has at most 5 counted neighbours. |
| Stepper.NextGrid | Game.java:283-313 | `calcNextGen` as a function of `current`: the result has the dimensions of `current`. What each cell holds is stated by `Stepper.SquareNextGrid`, `Simulation.CalcNextGen` and `Engine.CalcNextGen`. |
| Stepper.RowFaultsCount | Game.java:252-253 | The calls for one row add at most one crash each, and nothing exactly when none of them faults. |
| Stepper.FaultsCount | Game.java:252-253 | One pass of `calcNextGen` adds at most one crash per call, `SIZE_Y * SIZE_X` in all, and nothing exactly when no call faults. |
| Stepper.LifeStep | Game.java:266-273 | The reference rules as the documentation states them, each cell decided by its own eight neighbours; the result has the grid's dimensions. |
| Stepper.SquareNextGrid | Game.java:283-313 | On a square grid, `calcNextGen` never faults. Cell (row `y`, column `x`) survives or is born by the rule table applied to the live-neighbour count of the transposed cell (row `x`, column `y`). |
| Stepper.SymmetricIsLife | Game.java:289 | On a grid symmetric about its diagonal, the transposed call gives exactly standard Life. |
| Stepper.BlinkerDiverges | Game.java:289 | On a horizontal blinker, `calcNextGen` keeps the left cell alive where standard Life kills it. So the transposition changes the outcome. |
| Stepper.WideGridFaults | Game.java:243-253 | On a 2-row, 3-column grid, counting around row 1, column 0 reads one live cell, then faults and returns the partial count 1. |
| Simulation.Setup | Game.java:112-120 | `SIZE_X` is the length of the first row and `SIZE_Y` the number of rows. `next` is an all-dead `SIZE_Y` x `SIZE_X` grid. The crash counter starts at 0. An empty seed has no first row, and `setup` fails. |
| Simulation.CalcNumNeighbors | Game.java:228-264 | The crash counter goes up by exactly one when, and only when, the count faults. Nothing else in the state changes. The result is the count of `Neighbours.NumNeighbours`, at most 8. |
| Simulation.CalcNextGen | Game.java:275-314 | Every cell of `next` is the rule table applied to the same cell of `current` and the transposed count. `current` and the sizes are unchanged. The crash counter never drops, and on a square grid it does not move. |
| Simulation.Generation | Game.java:160-166 | One round of the loop, `calcNextGen` then `copyArray`, keeps both grids at the sizes. |
| Simulation.Run | Game.java:144-177 | The state after a number of rounds keeps both grids at the sizes, and the crash counter never drops. |
| Simulation.Evolve | Game.java:160-166 | The seed stepped a number of times by `calcNextGen`, keeping the dimensions; `Simulation.RunEvolves` ties the loop to it. |
| Simulation.CopyArray | Game.java:319-333 | `current` takes every cell of `next`; `next`, the sizes and the crash counter stay. |
| Simulation.CopyArrayEqualises | Game.java:319-333 | After the copy, `current` and `next` are the same grid. |
| Simulation.RunLoop | Game.java:144-177 | The loop performs exactly `MAX_GENERATIONS` rounds of compute-then-copy, with no early exit. |
| Simulation.RunEvolves | Game.java:160-166 | After `gens` rounds, `current` is the seed stepped `gens` times. After at least one round, `next` equals it. |
| Simulation.RunIgnoresNext | Game.java:163-166 | The rounds never read the old contents of `next`. Two states that differ only in `next` give the same result after one round or more. |
| Simulation.SquareRunNeverCrashes | Game.java:252-253 | On a square grid, the crash counter never moves, however many rounds run. |
| Engine.CalcNumNeighbors | Game.java:228-264 | The nested loops on the array return the modelled count. The crashed flag is set exactly when a neighbour passes the check but lies outside the array. The count is at most 8. |
| Engine.DecideCell | Game.java:289-310 | For one cell, the count followed by the four-way rule branch yields the cell of the next grid. It reports a crash exactly when the count faulted. |
| Engine.CalcNextGen | Game.java:283-313 | The loops fill `next` with the next grid, leave `current` as it was, and add the number of faulting calls to the crash counter. |
| Engine.CopyArray | Game.java:324-332 | The loops make `current` hold every cell of `next`, and `next` is not changed. |
| Engine.Run | Game.java:144-177 | The generation loop on the arrays leaves them, and the crash counter, in the state `MAX_GENERATIONS` rounds of the pure model give. |
| SeedPattern.SeedSetup | Game.java:85-120 | `setup` on the data grid gives 23 columns, 23 rows, a dead `next` and no crashes. |
| SeedPattern.UpperLeftCorner | GameTest.java:53-55 | `calcNumNeighbors(0, 0)` on the data grid is 2, with no fault. |
| SeedPattern.LowerLeftCorner | GameTest.java:63-65 | `calcNumNeighbors(22, 0)` is 2. |
| SeedPattern.UpperRightCorner | GameTest.java:73-75 | `calcNumNeighbors(0, 22)` is 1. |
| SeedPattern.LowerRightCorner | GameTest.java:83-85 | `calcNumNeighbors(22, 22)` is 3. |
| SeedPattern.ZeroNeighbours | GameTest.java:93-95 | `calcNumNeighbors(4, 5)` is 0. |
| SeedPattern.OneNeighbour | GameTest.java:102-104 | `calcNumNeighbors(4, 4)` is 1. |
| SeedPattern.TwoNeighbours | GameTest.java:111-113 | `calcNumNeighbors(4, 3)` is 2. |
| SeedPattern.ThreeNeighbours | GameTest.java:120-122 | `calcNumNeighbors(4, 2)` is 3. |
| SeedPattern.FourNeighbours | GameTest.java:129-131 | `calcNumNeighbors(2, 1)` is 4. |
| SeedPattern.FiveNeighbours | GameTest.java:138-140 | `calcNumNeighbors(2, 2)` is 5. |
| SeedPattern.SixNeighbours | GameTest.java:147-149 | `calcNumNeighbors(3, 18)` is 6. |
| SeedPattern.SevenNeighbours | GameTest.java:156-158 | `calcNumNeighbors(7, 18)` is 7. |
| SeedPattern.EightNeighbours | GameTest.java:165-167 | `calcNumNeighbors(11, 18)` is 8. |

## Left out

- The Swing display (`DrawCanvas`, `drawImage`, image loading): user interface only.
- `clearScreen`: console output only.
- The output of `printArray`, the diagnostic `println`s in the catch block, `Thread.sleep`, and the `currentTimeMillis` timing: output and wall-clock effects.
- The unused `Random` field.
- Simulation.Run, Simulation.RunLoop: the crash counter counts only the faults of `calcNextGen`. In debug mode, `run` also calls `printArray`, which calls `calcNumNeighbors(row, col)` for every live cell, and on a non-square grid those calls can fault too. This is not modelled, because `printArray` is display code. On square grids no call faults, so the two counters agree.
- Engine.Run: the same omission as `Simulation.Run` and `Simulation.RunLoop`.
- Simulation.Setup: the seed is a parameter instead of the fixed literal. `SeedPattern.Seed` holds that literal, written as the set of live columns of each row.
- Ragged seeds: the source does not check that every row of the seed has `SIZE_X` cells. The array layer requires a rectangular grid; the pure counter still handles ragged grids, because a short row is simply outside the array.
- Java's 32-bit `int` arithmetic: modelled as unbounded integers.
- The comment at `run` that says `next` is re-initialised after the copy: the code does not do this. The model keeps `next` as it is, and `Simulation.RunIgnoresNext` shows the old contents are never read.
