/**
  The cell matrix of the Game of Life.

  A grid is a row-major matrix of booleans, `g[row][col]`, exactly like the
  `boolean[][]` arrays `current` and `next` of Game.java: `g` holds the rows,
  and each row holds the cells of that row (true = live).
 */
module Cells {

  type Grid = seq<seq<bool>>

  /** A position (row, column). */
  type Pos = (int, int)

  /** `g` has `rows` rows, each of exactly `cols` cells. */
  predicate IsRect(g: Grid, rows: int, cols: int) {
    |g| == rows && forall r :: 0 <= r < |g| ==> |g[r]| == cols
  }

  /** Indexing `g[p.0][p.1]` stays inside the (possibly ragged) arrays. */
  predicate InGrid(g: Grid, p: Pos) {
    0 <= p.0 < |g| && 0 <= p.1 < |g[p.0]|
  }

  /** A square grid equal to its own transpose. */
  predicate IsSymmetric(g: Grid, n: nat)
    requires IsRect(g, n, n)
  {
    forall r, c :: 0 <= r < n && 0 <= c < n ==> g[r][c] == g[c][r]
  }

  /** A freshly allocated `new boolean[rows][cols]`: every cell dead. */
  function Blank(rows: nat, cols: nat): (g: Grid)
    ensures IsRect(g, rows, cols)
    ensures forall r, c :: 0 <= r < rows && 0 <= c < cols ==> !g[r][c]
  {
    seq(rows, _ => seq(cols, _ => false))
  }

  /** The contents of a two-dimensional array, row by row. */
  function Snapshot(a: array2<bool>): (g: Grid)
    reads a
    ensures IsRect(g, a.Length0, a.Length1)
    ensures forall r, c :: 0 <= r < a.Length0 && 0 <= c < a.Length1 ==> g[r][c] == a[r, c]
  {
    seq(a.Length0, r requires 0 <= r < a.Length0 reads a =>
      seq(a.Length1, c requires 0 <= c < a.Length1 reads a => a[r, c]))
  }

  /** Grid `g` is the contents of array `a`: same shape, same cells. */
  predicate Holds(g: Grid, a: array2<bool>)
    reads a
  {
    IsRect(g, a.Length0, a.Length1) &&
    forall r, c :: 0 <= r < a.Length0 && 0 <= c < a.Length1 ==> g[r][c] == a[r, c]
  }

  /** The snapshot is the one grid an array holds. */
  lemma HoldsSnapshot(g: Grid, a: array2<bool>)
    ensures Holds(g, a) <==> g == Snapshot(a)
  {
    if Holds(g, a) {
      SameCells(g, Snapshot(a), a.Length0, a.Length1);
    }
  }

  /** Two grids of the same shape that agree on every cell are equal. */
  lemma {:induction false} SameCells(a: Grid, b: Grid, rows: nat, cols: nat)
    requires IsRect(a, rows, cols) && IsRect(b, rows, cols)
    requires forall r, c :: 0 <= r < rows && 0 <= c < cols ==> a[r][c] == b[r][c]
    ensures a == b
  {
    forall r | 0 <= r < rows
      ensures a[r] == b[r]
    {
      assert forall c :: 0 <= c < cols ==> a[r][c] == b[r][c];
    }
  }
}
