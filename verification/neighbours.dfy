/**
  The neighbour counter `calcNumNeighbors(x, y)` of Game.java.

  The source scans the 3x3 block with two nested loops, `i` (outer) and `j`
  (inner), each running -1, 0, 1. Step `k` (0..8) of the scan is
  `k == (i + 1) * 3 + (j + 1)`. The centre step (`k == 4`) is
  skipped; every other step is bounds-checked with `y + i` against `sizeY`
  and `x + j` against `sizeX`, and then reads `current[x + j][y + i]`. So the
  FIRST argument `x` is the row of the cell whose neighbours are counted, yet
  it is checked against the column count. On a grid that is not square the
  check can pass while the array read is out of bounds; the source catches
  that fault, abandons both loops, bumps its crash counter and returns the
  count accumulated so far.
 */
module Neighbours {
  import opened Cells

  /** What one call of the counter produces: the count, and whether the scan was cut short by a caught bounds fault. */
  datatype Count = Count(n: nat, faulted: bool)

  /** The loop step at which `i == 0 && j == 0`. */
  const Centre := 4

  /** The outer loop variable `i` at step `k`. */
  function OuterAt(k: int): int {
    if k < 3 then -1 else if k < 6 then 0 else 1
  }

  /** The inner loop variable `j` at step `k`. */
  function InnerAt(k: int): int {
    k - 3 * OuterAt(k) - 4
  }

  /** The array cell `current[x + j][y + i]` read at loop step `k`. */
  function Probe(x: int, y: int, k: int): Pos {
    (x + InnerAt(k), y + OuterAt(k))
  }

  /** The loop step at which position `p` is read when counting around `(x, y)`. */
  function StepOf(x: int, y: int, p: Pos): int {
    (p.1 - y + 1) * 3 + (p.0 - x + 1)
  }

  /** The source's bounds check: the second index against `sizeY`, the first against `sizeX`. */
  predicate Checked(sizeX: int, sizeY: int, p: Pos) {
    0 <= p.1 < sizeY && 0 <= p.0 < sizeX
  }

  /** How many non-centre steps remain from step `k` on. */
  function Remaining(k: int): int {
    if k <= Centre then 8 - k else 9 - k
  }

  /**
    Loop steps `k..8` of the scan, with `acc` live neighbours counted so far:
    the skipped centre, the skipped out-of-range positions, the caught fault
    (which ends the scan with the partial count) and the live-cell increment.
   */
  function Scan(g: Grid, sizeX: int, sizeY: int, x: int, y: int, k: nat, acc: nat): (r: Count)
    requires k <= 9
    ensures acc <= r.n <= acc + Remaining(k)
    decreases 9 - k
  {
    if k == 9 then Count(acc, false)
    else
      var p := Probe(x, y, k);
      if k == Centre then Scan(g, sizeX, sizeY, x, y, k + 1, acc)
      else if !Checked(sizeX, sizeY, p) then Scan(g, sizeX, sizeY, x, y, k + 1, acc)
      else if !InGrid(g, p) then Count(acc, true)
      else Scan(g, sizeX, sizeY, x, y, k + 1, if g[p.0][p.1] then acc + 1 else acc)
  }

  /** `calcNumNeighbors(x, y)` on the grid `g`, without its crash-counter side effect. */
  function NumNeighbours(g: Grid, sizeX: int, sizeY: int, x: int, y: int): (r: Count)
    ensures r.n <= 8
  {
    Scan(g, sizeX, sizeY, x, y, 0, 0)
  }

  /**
    One step of the scan written with the loop variables `i` and `j` of the
    source instead of the step number.
   */
  lemma ScanStep(g: Grid, sizeX: int, sizeY: int, x: int, y: int, i: int, j: int, k: nat, acc: nat)
    requires -1 <= i <= 1 && -1 <= j <= 1 && k == (i + 1) * 3 + (j + 1)
    ensures i == 0 && j == 0 ==> Scan(g, sizeX, sizeY, x, y, k, acc) == Scan(g, sizeX, sizeY, x, y, k + 1, acc)
    ensures !(0 <= y + i < sizeY && 0 <= x + j < sizeX) ==>
      Scan(g, sizeX, sizeY, x, y, k, acc) == Scan(g, sizeX, sizeY, x, y, k + 1, acc)
    ensures !(i == 0 && j == 0) && 0 <= y + i < sizeY && 0 <= x + j < sizeX && !InGrid(g, (x + j, y + i)) ==>
      Scan(g, sizeX, sizeY, x, y, k, acc) == Count(acc, true)
    ensures !(i == 0 && j == 0) && 0 <= y + i < sizeY && 0 <= x + j < sizeX && InGrid(g, (x + j, y + i)) ==>
      Scan(g, sizeX, sizeY, x, y, k, acc) == Scan(g, sizeX, sizeY, x, y, k + 1, if g[x + j][y + i] then acc + 1 else acc)
  {
    assert OuterAt(k) == i && InnerAt(k) == j;
    if i == 0 && j == 0 {
      assert k == Centre;
    } else if !(0 <= y + i < sizeY && 0 <= x + j < sizeX) {
      assert !Checked(sizeX, sizeY, Probe(x, y, k));
    } else {
      assert k != Centre && Checked(sizeX, sizeY, Probe(x, y, k));
    }
  }

  // ---------------------------------------------------------------------------
  // Reference definitions: which cells are neighbours, which of them count.
  // ---------------------------------------------------------------------------

  /** The eight positions around row `r`, column `c`; the position itself is not among them. */
  function Around(r: int, c: int): set<Pos> {
    {(r - 1, c - 1), (r, c - 1), (r + 1, c - 1),
     (r - 1, c),                 (r + 1, c),
     (r - 1, c + 1), (r, c + 1), (r + 1, c + 1)}
  }

  /** The live cells of `g` around row `r`, column `c`: the standard Life neighbourhood. */
  function LiveAround(g: Grid, r: int, c: int): set<Pos> {
    set p | p in Around(r, c) && InGrid(g, p) && g[p.0][p.1]
  }

  /** Position `p` passes the bounds check but lies outside the array. */
  predicate Escapes(g: Grid, sizeX: int, sizeY: int, p: Pos) {
    Checked(sizeX, sizeY, p) && !InGrid(g, p)
  }

  /** A neighbour position of row `r`, column `c` that escapes. */
  predicate Fault(g: Grid, sizeX: int, sizeY: int, r: int, c: int, p: Pos) {
    p in Around(r, c) && Escapes(g, sizeX, sizeY, p)
  }

  /** Some neighbour of row `r`, column `c` passes the bounds check but lies outside the array. */
  predicate HasFault(g: Grid, sizeX: int, sizeY: int, r: int, c: int) {
    || Escapes(g, sizeX, sizeY, (r - 1, c - 1)) || Escapes(g, sizeX, sizeY, (r, c - 1))
    || Escapes(g, sizeX, sizeY, (r + 1, c - 1)) || Escapes(g, sizeX, sizeY, (r - 1, c))
    || Escapes(g, sizeX, sizeY, (r + 1, c)) || Escapes(g, sizeX, sizeY, (r - 1, c + 1))
    || Escapes(g, sizeX, sizeY, (r, c + 1)) || Escapes(g, sizeX, sizeY, (r + 1, c + 1))
  }

  /** The fault the scan meets first. */
  ghost predicate FirstFault(g: Grid, sizeX: int, sizeY: int, r: int, c: int, p: Pos) {
    Fault(g, sizeX, sizeY, r, c, p) &&
    forall q :: Fault(g, sizeX, sizeY, r, c, q) ==> StepOf(r, c, p) <= StepOf(r, c, q)
  }

  /** The live neighbours that pass the bounds check and are read before loop step `k`. */
  function CountedBefore(g: Grid, sizeX: int, sizeY: int, r: int, c: int, k: int): set<Pos> {
    set p | p in Around(r, c) && StepOf(r, c, p) < k && Checked(sizeX, sizeY, p) && InGrid(g, p) && g[p.0][p.1]
  }

  // ---------------------------------------------------------------------------
  // The scan against the reference.
  // ---------------------------------------------------------------------------

  /** The scan visits exactly the eight neighbours, once each, at steps other than the centre. */
  lemma ProbeIsNeighbour(x: int, y: int, k: int)
    requires 0 <= k < 9 && k != Centre
    ensures Probe(x, y, k) in Around(x, y)
    ensures StepOf(x, y, Probe(x, y, k)) == k
  {
  }

  lemma NeighbourIsProbed(x: int, y: int, p: Pos)
    requires p in Around(x, y)
    ensures 0 <= StepOf(x, y, p) < 9 && StepOf(x, y, p) != Centre
    ensures Probe(x, y, StepOf(x, y, p)) == p
  {
  }

  /** One scan step adds at most the probed cell to the counted set, and only if it is new. */
  lemma CountedStep(g: Grid, sizeX: int, sizeY: int, x: int, y: int, k: int)
    requires 0 <= k < 9
    ensures var p := Probe(x, y, k);
      var hit := k != Centre && Checked(sizeX, sizeY, p) && InGrid(g, p) && g[p.0][p.1];
      && p !in CountedBefore(g, sizeX, sizeY, x, y, k)
      && CountedBefore(g, sizeX, sizeY, x, y, k + 1)
         == CountedBefore(g, sizeX, sizeY, x, y, k) + (if hit then {p} else {})
  {
    var p := Probe(x, y, k);
    var before := CountedBefore(g, sizeX, sizeY, x, y, k);
    var after := CountedBefore(g, sizeX, sizeY, x, y, k + 1);
    var hit := k != Centre && Checked(sizeX, sizeY, p) && InGrid(g, p) && g[p.0][p.1];
    if p in before {
      NeighbourIsProbed(x, y, p);
      assert false;
    }
    forall q | q in after
      ensures q in before + (if hit then {p} else {})
    {
      NeighbourIsProbed(x, y, q);
      if StepOf(x, y, q) == k {
        assert q == p;
      }
    }
    if hit {
      ProbeIsNeighbour(x, y, k);
      assert p in after;
    }
  }

  /** A step that does not fault moves the earliest possible fault one step later. */
  lemma NoFaultAtStep(g: Grid, sizeX: int, sizeY: int, x: int, y: int, k: int)
    requires 0 <= k < 9
    requires forall q :: Fault(g, sizeX, sizeY, x, y, q) ==> StepOf(x, y, q) >= k
    requires k == Centre || !Checked(sizeX, sizeY, Probe(x, y, k)) || InGrid(g, Probe(x, y, k))
    ensures forall q :: Fault(g, sizeX, sizeY, x, y, q) ==> StepOf(x, y, q) >= k + 1
  {
    forall q | Fault(g, sizeX, sizeY, x, y, q)
      ensures StepOf(x, y, q) >= k + 1
    {
      NeighbourIsProbed(x, y, q);
    }
  }

  /**
    From step `k` on, with the counted set so far in hand and no fault met
    yet, the scan faults exactly when some neighbour faults, and it returns
    the size of the counted set up to the end or up to the first fault.
   */
  lemma {:induction false} ScanMeetsReference(g: Grid, sizeX: int, sizeY: int, x: int, y: int, k: nat, acc: nat)
    requires k <= 9
    requires acc == |CountedBefore(g, sizeX, sizeY, x, y, k)|
    requires forall p :: Fault(g, sizeX, sizeY, x, y, p) ==> StepOf(x, y, p) >= k
    ensures var r := Scan(g, sizeX, sizeY, x, y, k, acc);
      && (r.faulted <==> exists p :: Fault(g, sizeX, sizeY, x, y, p))
      && (!r.faulted ==> r.n == |CountedBefore(g, sizeX, sizeY, x, y, 9)|)
      && (r.faulted ==> exists p :: FirstFault(g, sizeX, sizeY, x, y, p)
                                   && r.n == |CountedBefore(g, sizeX, sizeY, x, y, StepOf(x, y, p))|)
    decreases 9 - k
  {
    if k == 9 {
      forall p | Fault(g, sizeX, sizeY, x, y, p)
        ensures false
      {
        NeighbourIsProbed(x, y, p);
      }
    } else {
      var p := Probe(x, y, k);
      CountedStep(g, sizeX, sizeY, x, y, k);
      var skip := k == Centre || !Checked(sizeX, sizeY, p);
      if skip || InGrid(g, p) {
        NoFaultAtStep(g, sizeX, sizeY, x, y, k);
        var acc' := if !skip && g[p.0][p.1] then acc + 1 else acc;
        ScanMeetsReference(g, sizeX, sizeY, x, y, k + 1, acc');
      } else {
        ProbeIsNeighbour(x, y, k);
        assert Fault(g, sizeX, sizeY, x, y, p);
        assert FirstFault(g, sizeX, sizeY, x, y, p);
      }
    }
  }

  /**
    The full behaviour of `calcNumNeighbors(x, y)` for every grid, sizes and
    coordinates: it faults iff some neighbour passes the bounds check but is
    outside the array; without a fault it returns the number of live
    neighbours that pass the check; with one, the number of those read
    before the first faulting position.
   */
  lemma NumNeighboursMeetsReference(g: Grid, sizeX: int, sizeY: int, x: int, y: int)
    ensures var r := NumNeighbours(g, sizeX, sizeY, x, y);
      && (r.faulted <==> HasFault(g, sizeX, sizeY, x, y))
      && (!r.faulted ==> r.n == |CountedBefore(g, sizeX, sizeY, x, y, 9)|)
      && (r.faulted ==> exists p :: FirstFault(g, sizeX, sizeY, x, y, p)
                                   && r.n == |CountedBefore(g, sizeX, sizeY, x, y, StepOf(x, y, p))|)
  {
    assert CountedBefore(g, sizeX, sizeY, x, y, 0) == {} by {
      forall p | p in Around(x, y)
        ensures StepOf(x, y, p) >= 0
      {
        NeighbourIsProbed(x, y, p);
      }
    }
    forall p | Fault(g, sizeX, sizeY, x, y, p)
      ensures StepOf(x, y, p) >= 0
    {
      NeighbourIsProbed(x, y, p);
    }
    ScanMeetsReference(g, sizeX, sizeY, x, y, 0, 0);
    HasFaultMeansFault(g, sizeX, sizeY, x, y);
  }

  /** The fault flag alone: the scan is cut short exactly when some neighbour passes the check but is outside the array. */
  lemma FaultedIffHasFault(g: Grid, sizeX: int, sizeY: int, x: int, y: int)
    ensures NumNeighbours(g, sizeX, sizeY, x, y).faulted <==> HasFault(g, sizeX, sizeY, x, y)
  {
    NumNeighboursMeetsReference(g, sizeX, sizeY, x, y);
  }

  lemma HasFaultMeansFault(g: Grid, sizeX: int, sizeY: int, x: int, y: int)
    ensures HasFault(g, sizeX, sizeY, x, y) <==> exists p :: Fault(g, sizeX, sizeY, x, y, p)
  {
    if HasFault(g, sizeX, sizeY, x, y) {
      assert || Fault(g, sizeX, sizeY, x, y, (x - 1, y - 1)) || Fault(g, sizeX, sizeY, x, y, (x, y - 1))
             || Fault(g, sizeX, sizeY, x, y, (x + 1, y - 1)) || Fault(g, sizeX, sizeY, x, y, (x - 1, y))
             || Fault(g, sizeX, sizeY, x, y, (x + 1, y)) || Fault(g, sizeX, sizeY, x, y, (x - 1, y + 1))
             || Fault(g, sizeX, sizeY, x, y, (x, y + 1)) || Fault(g, sizeX, sizeY, x, y, (x + 1, y + 1));
    }
    if p :| Fault(g, sizeX, sizeY, x, y, p) {
      assert Escapes(g, sizeX, sizeY, p);
    }
  }


  /**
    On a square grid whose sizes are its dimensions, the bounds check and the
    array bounds coincide: no fault, and the count is exactly the number of
    live cells among the eight positions around row `x`, column `y`.
   */
  lemma SquareGridCount(g: Grid, n: nat, x: int, y: int)
    requires IsRect(g, n, n)
    ensures NumNeighbours(g, n, n, x, y) == Count(|LiveAround(g, x, y)|, false)
  {
    NumNeighboursMeetsReference(g, n, n, x, y);
    assert CountedBefore(g, n, n, x, y, 9) == LiveAround(g, x, y) by {
      forall p | p in Around(x, y)
        ensures StepOf(x, y, p) < 9
      {
        NeighbourIsProbed(x, y, p);
      }
    }
  }

  /** 1 when position `p` is a live cell of `g`, 0 otherwise (including outside the grid). */
  function Alive(g: Grid, p: Pos): (r: nat)
    ensures r == 1 <==> InGrid(g, p) && g[p.0][p.1]
    ensures r <= 1
  {
    if InGrid(g, p) && g[p.0][p.1] then 1 else 0
  }

  /** The eight positions around row `r`, column `c`, in the order the nested loops visit them. */
  function AroundSeq(r: int, c: int): seq<Pos> {
    [(r - 1, c - 1), (r, c - 1), (r + 1, c - 1),
     (r - 1, c),                 (r + 1, c),
     (r - 1, c + 1), (r, c + 1), (r + 1, c + 1)]
  }

  predicate Distinct(ps: seq<Pos>) {
    forall a, b :: 0 <= a < b < |ps| ==> ps[a] != ps[b]
  }

  /** The live cells of `g` listed in `ps`. */
  function LiveIn(g: Grid, ps: seq<Pos>): set<Pos> {
    set p | p in ps && InGrid(g, p) && g[p.0][p.1]
  }

  /** How many entries of `ps` are live cells of `g`. */
  function AliveSum(g: Grid, ps: seq<Pos>): nat
    decreases |ps|
  {
    if |ps| == 0 then 0 else AliveSum(g, ps[..|ps| - 1]) + Alive(g, ps[|ps| - 1])
  }

  /** Over a list without repeats, the number of live cells listed is the sum of their indicators. */
  lemma {:induction false} LiveInCount(g: Grid, ps: seq<Pos>)
    requires Distinct(ps)
    ensures |LiveIn(g, ps)| == AliveSum(g, ps)
    decreases |ps|
  {
    if |ps| > 0 {
      var init := ps[..|ps| - 1];
      var last := ps[|ps| - 1];
      LiveInCount(g, init);
      assert last !in init;
      if Alive(g, last) == 1 {
        assert LiveIn(g, ps) == LiveIn(g, init) + {last};
      } else {
        assert LiveIn(g, ps) == LiveIn(g, init);
      }
    }
  }

  lemma AliveSumPrefix(g: Grid, ps: seq<Pos>, k: nat)
    requires k < |ps|
    ensures AliveSum(g, ps[..k + 1]) == AliveSum(g, ps[..k]) + Alive(g, ps[k])
  {
    assert ps[..k + 1][..k] == ps[..k];
  }

  /** The size of the live neighbourhood, cell by cell. */
  lemma LiveAroundCount(g: Grid, r: int, c: int)
    ensures |LiveAround(g, r, c)| ==
      Alive(g, (r - 1, c - 1)) + Alive(g, (r, c - 1)) + Alive(g, (r + 1, c - 1)) +
      Alive(g, (r - 1, c)) + Alive(g, (r + 1, c)) +
      Alive(g, (r - 1, c + 1)) + Alive(g, (r, c + 1)) + Alive(g, (r + 1, c + 1))
  {
    var ps := AroundSeq(r, c);
    assert forall a :: 0 <= a < 8 ==> StepOf(r, c, ps[a]) == if a < 4 then a else a + 1;
    assert Distinct(ps);
    LiveInCount(g, ps);
    assert LiveIn(g, ps) == LiveAround(g, r, c);
    AliveSumPrefix(g, ps, 0); AliveSumPrefix(g, ps, 1); AliveSumPrefix(g, ps, 2); AliveSumPrefix(g, ps, 3);
    AliveSumPrefix(g, ps, 4); AliveSumPrefix(g, ps, 5); AliveSumPrefix(g, ps, 6); AliveSumPrefix(g, ps, 7);
    assert ps[..8] == ps;
  }

  /** Overwriting the centre cell leaves every other cell, and the shape of the grid, as it was. */
  lemma CentreUpdateInvisible(g: Grid, x: int, y: int, v: bool, p: Pos)
    requires InGrid(g, (x, y)) && p != (x, y)
    ensures var h := g[x := g[x][y := v]];
      InGrid(h, p) == InGrid(g, p) && (InGrid(g, p) ==> h[p.0][p.1] == g[p.0][p.1])
  {
  }

  /** The scan never reads the centre cell: changing it leaves every step's result alone. */
  lemma {:induction false} ScanIgnoresCentre(g: Grid, sizeX: int, sizeY: int, x: int, y: int, v: bool, k: nat, acc: nat)
    requires InGrid(g, (x, y)) && k <= 9
    ensures Scan(g[x := g[x][y := v]], sizeX, sizeY, x, y, k, acc) == Scan(g, sizeX, sizeY, x, y, k, acc)
    decreases 9 - k
  {
    var h := g[x := g[x][y := v]];
    if k < 9 {
      var p := Probe(x, y, k);
      if k == Centre || !Checked(sizeX, sizeY, p) {
        ScanIgnoresCentre(g, sizeX, sizeY, x, y, v, k + 1, acc);
        assert Scan(h, sizeX, sizeY, x, y, k, acc) == Scan(h, sizeX, sizeY, x, y, k + 1, acc);
      } else {
        ProbeIsNeighbour(x, y, k);
        CentreUpdateInvisible(g, x, y, v, p);
        if InGrid(g, p) {
          var acc' := if g[p.0][p.1] then acc + 1 else acc;
          ScanIgnoresCentre(g, sizeX, sizeY, x, y, v, k + 1, acc');
          assert Scan(h, sizeX, sizeY, x, y, k, acc) == Scan(h, sizeX, sizeY, x, y, k + 1, acc');
        }
      }
    }
  }

  /** The cell at the queried position is never counted: its state does not affect the result. */
  lemma CentreIgnored(g: Grid, sizeX: int, sizeY: int, x: int, y: int, v: bool)
    requires InGrid(g, (x, y))
    ensures NumNeighbours(g[x := g[x][y := v]], sizeX, sizeY, x, y) == NumNeighbours(g, sizeX, sizeY, x, y)
  {
    ScanIgnoresCentre(g, sizeX, sizeY, x, y, v, 0, 0);
  }

  /** A corner of a square grid has at most three neighbours. */
  lemma CornerAtMostThree(g: Grid, n: nat, x: int, y: int)
    requires IsRect(g, n, n)
    requires x == 0 || x == n - 1
    requires y == 0 || y == n - 1
    ensures NumNeighbours(g, n, n, x, y).n <= 3
  {
    SquareGridCount(g, n, x, y);
    CornerLiveAtMostThree(g, n, x, y);
  }

  lemma CornerLiveAtMostThree(g: Grid, n: nat, r: int, c: int)
    requires IsRect(g, n, n)
    requires r == 0 || r == n - 1
    requires c == 0 || c == n - 1
    ensures |LiveAround(g, r, c)| <= 3
  {
    var dr := if r == 0 then 1 else -1;
    var dc := if c == 0 then 1 else -1;
    var candidates: set<Pos> := {(r + dr, c), (r, c + dc), (r + dr, c + dc)};
    forall p | p in LiveAround(g, r, c)
      ensures p in candidates
    {
      assert p.0 != r - dr && p.1 != c - dc;
    }
    CardinalityAtMost3(r + dr, c, r, c + dc, r + dr, c + dc);
    SubsetCardinality(LiveAround(g, r, c), candidates);
  }

  /** A cell on the border of a square grid has at most five neighbours. */
  lemma BorderAtMostFive(g: Grid, n: nat, x: int, y: int)
    requires IsRect(g, n, n)
    requires x == 0 || x == n - 1 || y == 0 || y == n - 1
    ensures NumNeighbours(g, n, n, x, y).n <= 5
  {
    SquareGridCount(g, n, x, y);
    if x == 0 || x == n - 1 {
      RowBorderAtMostFive(g, n, x, y);
    } else {
      ColumnBorderAtMostFive(g, n, x, y);
    }
  }

  lemma RowBorderAtMostFive(g: Grid, n: nat, r: int, c: int)
    requires IsRect(g, n, n)
    requires r == 0 || r == n - 1
    ensures |LiveAround(g, r, c)| <= 5
  {
    var outside := if r == 0 then r - 1 else r + 1;
    var inside := if r == 0 then r + 1 else r - 1;
    var candidates: set<Pos> := {(r, c - 1), (r, c + 1), (inside, c - 1), (inside, c), (inside, c + 1)};
    forall p | p in LiveAround(g, r, c)
      ensures p in candidates
    {
      assert p.0 != outside;
    }
    SubsetCardinality(LiveAround(g, r, c), candidates);
  }

  lemma ColumnBorderAtMostFive(g: Grid, n: nat, r: int, c: int)
    requires IsRect(g, n, n)
    requires c == 0 || c == n - 1
    ensures |LiveAround(g, r, c)| <= 5
  {
    var outside := if c == 0 then c - 1 else c + 1;
    var inside := if c == 0 then c + 1 else c - 1;
    var candidates: set<Pos> := {(r - 1, c), (r + 1, c), (r - 1, inside), (r, inside), (r + 1, inside)};
    forall p | p in LiveAround(g, r, c)
      ensures p in candidates
    {
      assert p.1 != outside;
    }
    SubsetCardinality(LiveAround(g, r, c), candidates);
  }

  lemma SubsetCardinality<T>(a: set<T>, b: set<T>)
    requires a <= b
    ensures |a| <= |b|
  {
    assert b == a + (b - a);
  }

  lemma CardinalityAtMost3(a0: int, a1: int, b0: int, b1: int, c0: int, c1: int)
    ensures |{(a0, a1), (b0, b1), (c0, c1)}| <= 3
  {
  }
}
