/**
 The torus the board lives on: a square of side CELLS whose opposite edges
 are glued together, so that every integer index names one row or column.
 */
module Torus {

  /** The square root of the number of cells on the board. */
  const CELLS: nat := 20

  /**
   Where index v lands on the torus: the one value in [0, CELLS - 1] that is
   congruent to v modulo CELLS. Dafny's % is Euclidean, so this is that value
   for negative v as well.
   */
  function Wrap(v: int): int
  {
    v % CELLS
  }

  /**
   `fit` in life.ts: add CELLS while the index is negative, then subtract
   CELLS while it is past the last row. Both loops stop because CELLS > 0.
   The result is on the board and congruent to n modulo CELLS.
   */
  method Fit(n: int) returns (r: int)
    ensures 0 <= r < CELLS
    ensures (n - r) % CELLS == 0
    ensures r == Wrap(n)
  {
    r := n;
    while r < 0
      invariant (n - r) % CELLS == 0
      decreases -r
    {
      r := r + CELLS;
    }
    while r > CELLS - 1
      invariant 0 <= r
      invariant (n - r) % CELLS == 0
      decreases r
    {
      r := r - CELLS;
    }
    WrapUnique(n, r);
  }

  /** Range and congruence pin the wrapped index down: there is only one such value. */
  lemma WrapUnique(v: int, r: int)
    requires 0 <= r < CELLS
    requires (v - r) % CELLS == 0
    ensures r == Wrap(v)
  {
    var k := (v - r) / CELLS;
    assert v == k * CELLS + r;
    assert (k * CELLS + r) % CELLS == r;
  }

  /** An index already on the board is left alone: neither loop of fit runs. */
  lemma WrapOnBoard(v: int)
    requires 0 <= v < CELLS
    ensures Wrap(v) == v
  {
  }

  /** Stepping off either edge comes back on at the opposite one. */
  lemma WrapEdges()
    ensures Wrap(-1) == CELLS - 1
    ensures Wrap(CELLS) == 0
  {
  }

  /** Wrapping an index first and then moving it lands where moving it first would. */
  lemma WrapThenAdd(a: int, b: int)
    ensures Wrap(Wrap(a) + b) == Wrap(a + b)
  {
    var k := (a - Wrap(a)) / CELLS;
    assert a == Wrap(a) + k * CELLS;
    assert (Wrap(a) + b) - (a + b) == -k * CELLS;
    WrapUnique(a + b, Wrap(Wrap(a) + b));
  }
}
