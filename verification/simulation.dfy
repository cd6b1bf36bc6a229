/**
  The state of a `Game` object and the operations `setup`, `calcNumNeighbors`
  (with its crash-counter side effect), `calcNextGen`, `copyArray` and the
  generation loop of `run`, each as a function from state to state.
 */
module Simulation {
  import opened Cells
  import opened LifeRule
  import opened Neighbours
  import opened Stepper

  /** The fixed number of generations `run` performs. */
  const MaxGenerations: nat := 100

  /** The fields of a `Game` that the engine touches. */
  datatype State = State(current: Grid, next: Grid, sizeX: nat, sizeY: nat, crashCounter: nat)

  datatype Option<T> = None | Some(value: T)

  /** Both grids have `sizeY` rows of `sizeX` cells. */
  predicate Valid(s: State) {
    IsRect(s.current, s.sizeY, s.sizeX) && IsRect(s.next, s.sizeY, s.sizeX)
  }

  /**
    `setup` on a fresh `Game` with seed `seed`: the column count is taken
    from the first row, the row count from the number of rows, and `next` is
    allocated dead. An empty seed has no first row, so `setup` throws.
   */
  function Setup(seed: Grid): (r: Option<State>)
    ensures r.None? <==> |seed| == 0
    ensures r.Some? ==>
      && r.value.current == seed
      && r.value.sizeY == |seed| && r.value.sizeX == |seed[0]|
      && IsRect(r.value.next, |seed|, |seed[0]|)
      && (forall y, x :: 0 <= y < r.value.sizeY && 0 <= x < r.value.sizeX ==> !r.value.next[y][x])
      && r.value.crashCounter == 0
    ensures r.Some? && IsRect(seed, |seed|, |seed[0]|) ==> Valid(r.value)
  {
    if |seed| == 0 then None
    else Some(State(seed, Blank(|seed|, |seed[0]|), |seed[0]|, |seed|, 0))
  }

  /**
    `calcNumNeighbors(x, y)` with its side effect: the crash counter goes up
    by exactly one when, and only when, some neighbour passes the bounds
    check but lies outside the array; nothing else in the state changes.
   */
  function CalcNumNeighbors(s: State, x: int, y: int): (r: (State, nat))
    ensures r.0 == s.(crashCounter := r.0.crashCounter)
    ensures r.1 <= 8
    ensures r.1 == NumNeighbours(s.current, s.sizeX, s.sizeY, x, y).n
    ensures r.0.crashCounter == s.crashCounter || r.0.crashCounter == s.crashCounter + 1
    ensures r.0.crashCounter == s.crashCounter + 1 <==> HasFault(s.current, s.sizeX, s.sizeY, x, y)
  {
    NumNeighboursMeetsReference(s.current, s.sizeX, s.sizeY, x, y);
    var c := NumNeighbours(s.current, s.sizeX, s.sizeY, x, y);
    (s.(crashCounter := s.crashCounter + if c.faulted then 1 else 0), c.n)
  }

  /**
    `calcNextGen`: every cell of `next` is decided by the rule table from the
    same cell of `current` and the transposed count; `current` is untouched,
    and the old contents of `next` play no part.
   */
  function CalcNextGen(s: State): (r: State)
    requires Valid(s)
    ensures Valid(r)
    ensures r.current == s.current && r.sizeX == s.sizeX && r.sizeY == s.sizeY
    ensures r.crashCounter >= s.crashCounter
    ensures s.sizeX == s.sizeY ==> r.crashCounter == s.crashCounter
    ensures forall y, x :: 0 <= y < s.sizeY && 0 <= x < s.sizeX ==>
      var n := NumNeighbours(s.current, s.sizeX, s.sizeY, x, y).n;
      r.next[y][x] == (if s.current[y][x] then n == 2 || n == 3 else n == 3)
  {
    assert s.sizeX == s.sizeY ==> Faults(s.current, s.sizeX, s.sizeY, s.sizeY) == 0 by {
      if s.sizeX == s.sizeY {
        NoFaultsOnSquare(s.current, s.sizeX, s.sizeY);
      }
    }
    s.(next := NextGrid(s.current, s.sizeX, s.sizeY),
       crashCounter := s.crashCounter + Faults(s.current, s.sizeX, s.sizeY, s.sizeY))
  }

  /** `copyArray`: `current` takes every cell of `next`; `next` and the sizes stay. */
  function CopyArray(s: State): (r: State)
    requires Valid(s)
    ensures Valid(r)
    ensures r.next == s.next && r.sizeX == s.sizeX && r.sizeY == s.sizeY
    ensures r.crashCounter == s.crashCounter
    ensures forall y, x :: 0 <= y < s.sizeY && 0 <= x < s.sizeX ==> r.current[y][x] == s.next[y][x]
  {
    s.(current := seq(s.sizeY, y requires 0 <= y < s.sizeY =>
                    seq(s.sizeX, x requires 0 <= x < s.sizeX => s.next[y][x])))
  }

  /** A copied state holds two equal grids. */
  lemma CopyArrayEqualises(s: State)
    requires Valid(s)
    ensures CopyArray(s).current == CopyArray(s).next == s.next
  {
    SameCells(CopyArray(s).current, s.next, s.sizeY, s.sizeX);
  }

  /** One round of the `run` loop: compute, then copy. */
  function Generation(s: State): (r: State)
    requires Valid(s)
    ensures Valid(r)
    ensures r.sizeX == s.sizeX && r.sizeY == s.sizeY
  {
    CopyArray(CalcNextGen(s))
  }

  /** The state after the first `gens` rounds of the `run` loop. */
  function Run(s: State, gens: nat): (r: State)
    requires Valid(s)
    ensures Valid(r)
    ensures r.sizeX == s.sizeX && r.sizeY == s.sizeY
    ensures r.crashCounter >= s.crashCounter
    decreases gens
  {
    if gens == 0 then s else Generation(Run(s, gens - 1))
  }

  /** `gens` generations of the stepper applied to a bare grid. */
  function Evolve(g: Grid, sizeX: nat, sizeY: nat, gens: nat): (r: Grid)
    requires IsRect(g, sizeY, sizeX)
    ensures IsRect(r, sizeY, sizeX)
    decreases gens
  {
    if gens == 0 then g else NextGrid(Evolve(g, sizeX, sizeY, gens - 1), sizeX, sizeY)
  }

  /**
    After `gens` rounds, `current` is the seed grid evolved `gens` times by the
    stepper, and (after at least one round) `next` equals it.
   */
  lemma {:induction false} RunEvolves(s: State, gens: nat)
    requires Valid(s)
    ensures Run(s, gens).current == Evolve(s.current, s.sizeX, s.sizeY, gens)
    ensures gens > 0 ==> Run(s, gens).next == Run(s, gens).current
    decreases gens
  {
    if gens > 0 {
      var before := Run(s, gens - 1);
      RunEvolves(s, gens - 1);
      var computed := CalcNextGen(before);
      assert Run(s, gens) == CopyArray(computed);
      assert computed.next == NextGrid(before.current, s.sizeX, s.sizeY);
      CopyArrayEqualises(computed);
    }
  }

  /** The rounds never consult the previous contents of `next`. */
  lemma {:induction false} RunIgnoresNext(s: State, t: State, gens: nat)
    requires Valid(s) && Valid(t)
    requires s.(next := t.next) == t
    ensures gens > 0 ==> Run(s, gens) == Run(t, gens)
    ensures Run(s, gens) == Run(t, gens).(next := Run(s, gens).next)
    decreases gens
  {
    if gens > 0 {
      RunIgnoresNext(s, t, gens - 1);
      var a := Run(s, gens - 1);
      var b := Run(t, gens - 1);
      assert Run(s, gens) == CopyArray(CalcNextGen(a));
      assert Run(t, gens) == CopyArray(CalcNextGen(b));
      assert CalcNextGen(a) == CalcNextGen(b);
    }
  }

  /** On a square grid the crash counter never moves. */
  lemma {:induction false} SquareRunNeverCrashes(s: State, gens: nat)
    requires Valid(s) && s.sizeX == s.sizeY
    ensures Run(s, gens).crashCounter == s.crashCounter
    decreases gens
  {
    if gens > 0 {
      SquareRunNeverCrashes(s, gens - 1);
      var before := Run(s, gens - 1);
      assert Run(s, gens) == CopyArray(CalcNextGen(before));
      assert CalcNextGen(before).crashCounter == before.crashCounter;
    }
  }

  /** The `run` loop: exactly `MaxGenerations` rounds of compute-then-copy, no early exit. */
  method RunLoop(s: State) returns (t: State)
    requires Valid(s)
    ensures t == Run(s, MaxGenerations)
  {
    var numGeneration := 0;
    t := s;
    while numGeneration < MaxGenerations
      invariant 0 <= numGeneration <= MaxGenerations
      invariant t == Run(s, numGeneration)
    {
      assert Run(s, numGeneration + 1) == CopyArray(CalcNextGen(t));
      t := CalcNextGen(t);
      t := CopyArray(t);
      numGeneration := numGeneration + 1;
    }
  }
}
