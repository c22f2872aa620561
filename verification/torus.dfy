/**
 * Geometry of the square toroidal grid used by life.c: row-major indexing
 * (the BOARD macro), non-negative wrap-around (the mod macro) and the eight
 * neighbour offsets, in the order the source touches them:
 * NW, N, NE, W, E, SW, S, SE.  With this numbering the offset opposite to d
 * is 7 - d.
 */
module Torus {

  /** `mod(x, size)`: the remainder in [0, n). */
  function Wrap(x: int, n: nat): (r: nat)
    requires n > 0
    ensures r < n
    ensures 0 <= x < n ==> r == x
    ensures x == -1 ==> r == n - 1
    ensures x == n ==> r == 0
  {
    x % n
  }

  /** `BOARD(b, i, j)` for a size-by-size board stored row by row. */
  function Idx(n: nat, i: nat, j: nat): (r: nat)
    requires i < n && j < n
    ensures r < n * n
  {
    IdxBound(n, i, j);
    i * n + j
  }

  lemma IdxBound(n: nat, i: nat, j: nat)
    requires i < n && j < n
    ensures i * n + j < n * n
  {
    assert i * n <= (n - 1) * n;
  }

  /** Distinct coordinates give distinct flat indices. */
  lemma {:induction false} IdxInjective(n: nat, a: nat, b: nat, c: nat, d: nat)
    requires a < n && b < n && c < n && d < n
    ensures Idx(n, a, b) == Idx(n, c, d) <==> a == c && b == d
  {
    if a > c {
      RowsApart(n, c, a);
    } else if a < c {
      RowsApart(n, a, c);
    }
  }

  /** Two different rows start at least n apart. */
  lemma {:induction false} RowsApart(n: nat, lo: nat, hi: nat)
    requires lo < hi
    ensures lo * n + n <= hi * n
  {
    if hi > lo + 1 {
      RowsApart(n, lo, hi - 1);
    }
  }

  /** Every flat index of the board is the index of one coordinate pair. */
  lemma FlatIndex(n: nat, q: nat)
    requires q < n * n
    ensures q / n < n && q % n < n && Idx(n, q / n, q % n) == q
  {
    var r := q / n;
    if r >= n {
      RowsApart(n, n - 1, r);
    }
  }

  /** Row offset of neighbour d. */
  function Di(d: nat): (r: int)
    requires d < 8
    ensures -1 <= r <= 1
  {
    if d < 3 then -1 else if d < 5 then 0 else 1
  }

  /** Column offset of neighbour d. */
  function Dj(d: nat): (r: int)
    requires d < 8
    ensures -1 <= r <= 1
  {
    if d == 0 || d == 3 || d == 5 then -1
    else if d == 1 || d == 6 then 0
    else 1
  }

  /** Flat index of neighbour d of (i, j) on the torus. */
  function Nb(n: nat, i: nat, j: nat, d: nat): (r: nat)
    requires i < n && j < n && d < 8
    ensures r < n * n
  {
    IdxBound(n, Wrap(i + Di(d), n), Wrap(j + Dj(d), n));
    Wrap(i + Di(d), n) * n + Wrap(j + Dj(d), n)
  }

  /**
   * Nb is written out rather than through Idx so that a quantifier over
   * Idx(n, a, b) is not re-triggered by the neighbours it mentions; this
   * lemma connects the two.
   */
  lemma NbIdx(n: nat, i: nat, j: nat, d: nat)
    requires i < n && j < n && d < 8
    ensures Nb(n, i, j, d) == Idx(n, Wrap(i + Di(d), n), Wrap(j + Dj(d), n))
  {
  }

  /** The eight slots are the cells the source names inorth/i/isouth by jwest/j/jeast. */
  lemma SlotNames(n: nat, i: nat, j: nat)
    requires i < n && j < n
    ensures Nb(n, i, j, 0) == Idx(n, Wrap(i - 1, n), Wrap(j - 1, n))
    ensures Nb(n, i, j, 1) == Idx(n, Wrap(i - 1, n), j)
    ensures Nb(n, i, j, 2) == Idx(n, Wrap(i - 1, n), Wrap(j + 1, n))
    ensures Nb(n, i, j, 3) == Idx(n, i, Wrap(j - 1, n))
    ensures Nb(n, i, j, 4) == Idx(n, i, Wrap(j + 1, n))
    ensures Nb(n, i, j, 5) == Idx(n, Wrap(i + 1, n), Wrap(j - 1, n))
    ensures Nb(n, i, j, 6) == Idx(n, Wrap(i + 1, n), j)
    ensures Nb(n, i, j, 7) == Idx(n, Wrap(i + 1, n), Wrap(j + 1, n))
  {
    SlotsAbove(n, i, j);
    SlotsBeside(n, i, j);
    SlotsBelow(n, i, j);
  }

  lemma SlotsAbove(n: nat, i: nat, j: nat)
    requires i < n && j < n
    ensures Nb(n, i, j, 0) == Idx(n, Wrap(i - 1, n), Wrap(j - 1, n))
    ensures Nb(n, i, j, 1) == Idx(n, Wrap(i - 1, n), j)
    ensures Nb(n, i, j, 2) == Idx(n, Wrap(i - 1, n), Wrap(j + 1, n))
  {
    NbIdx(n, i, j, 0);
    NbIdx(n, i, j, 1);
    NbIdx(n, i, j, 2);
  }

  lemma SlotsBeside(n: nat, i: nat, j: nat)
    requires i < n && j < n
    ensures Nb(n, i, j, 3) == Idx(n, i, Wrap(j - 1, n))
    ensures Nb(n, i, j, 4) == Idx(n, i, Wrap(j + 1, n))
  {
    NbIdx(n, i, j, 3);
    NbIdx(n, i, j, 4);
  }

  lemma SlotsBelow(n: nat, i: nat, j: nat)
    requires i < n && j < n
    ensures Nb(n, i, j, 5) == Idx(n, Wrap(i + 1, n), Wrap(j - 1, n))
    ensures Nb(n, i, j, 6) == Idx(n, Wrap(i + 1, n), j)
    ensures Nb(n, i, j, 7) == Idx(n, Wrap(i + 1, n), Wrap(j + 1, n))
  {
    NbIdx(n, i, j, 5);
    NbIdx(n, i, j, 6);
    NbIdx(n, i, j, 7);
  }

  function Ind(b: bool): nat
  {
    if b then 1 else 0
  }

  /**
   * How many of the eight neighbour slots of (i, j) land on flat index q.
   * On a board of side 1 or 2 several slots land on the same cell, and the
   * source updates such a cell once per slot.
   */
  function Hits(n: nat, i: nat, j: nat, q: nat): (r: nat)
    requires i < n && j < n
    ensures r <= 8
  {
    Ind(Nb(n, i, j, 0) == q) + Ind(Nb(n, i, j, 1) == q) + Ind(Nb(n, i, j, 2) == q)
    + Ind(Nb(n, i, j, 3) == q) + Ind(Nb(n, i, j, 4) == q) + Ind(Nb(n, i, j, 5) == q)
    + Ind(Nb(n, i, j, 6) == q) + Ind(Nb(n, i, j, 7) == q)
  }

  /** Live cells among the eight toroidal neighbours of (i, j), slot by slot. */
  function LiveAround(g: seq<bool>, n: nat, i: nat, j: nat): (r: nat)
    requires |g| == n * n && i < n && j < n
    ensures r <= 8
  {
    Ind(g[Nb(n, i, j, 0)]) + Ind(g[Nb(n, i, j, 1)]) + Ind(g[Nb(n, i, j, 2)])
    + Ind(g[Nb(n, i, j, 3)]) + Ind(g[Nb(n, i, j, 4)]) + Ind(g[Nb(n, i, j, 5)])
    + Ind(g[Nb(n, i, j, 6)]) + Ind(g[Nb(n, i, j, 7)])
  }

  /** Stepping by x and stepping back by x undo each other on the ring Z/n. */
  lemma WrapShift(n: nat, a: nat, i: nat, x: int)
    requires a < n && i < n && -1 <= x <= 1
    ensures Wrap(a + x, n) == i <==> Wrap(i - x, n) == a
  {
    if n == 1 {
      assert Wrap(a + x, n) == 0 && Wrap(i - x, n) == 0;
    } else {
      assert Wrap(a + x, n) == if a + x < 0 then n - 1 else if a + x == n then 0 else a + x;
      assert Wrap(i - x, n) == if i - x < 0 then n - 1 else if i - x == n then 0 else i - x;
    }
  }

  /** Neighbour slot d of (a, b) is (i, j) exactly when slot 7 - d of (i, j) is (a, b). */
  lemma NbSymmetric(n: nat, a: nat, b: nat, i: nat, j: nat, d: nat)
    requires a < n && b < n && i < n && j < n && d < 8
    ensures Nb(n, a, b, d) == Idx(n, i, j) <==> Nb(n, i, j, 7 - d) == Idx(n, a, b)
    ensures Ind(Nb(n, a, b, d) == Idx(n, i, j)) == Ind(Nb(n, i, j, 7 - d) == Idx(n, a, b))
  {
    NbIdx(n, a, b, d);
    NbIdx(n, i, j, 7 - d);
    IdxInjective(n, Wrap(a + Di(d), n), Wrap(b + Dj(d), n), i, j);
    IdxInjective(n, Wrap(i + Di(7 - d), n), Wrap(j + Dj(7 - d), n), a, b);
    WrapShift(n, a, i, Di(d));
    WrapShift(n, b, j, Dj(d));
  }

  /**
   * The neighbour relation is symmetric with multiplicities: (i, j) occupies
   * as many neighbour slots of (a, b) as (a, b) occupies of (i, j).
   */
  lemma {:induction false} HitsSymmetric(n: nat, a: nat, b: nat, i: nat, j: nat)
    requires a < n && b < n && i < n && j < n
    ensures Hits(n, a, b, Idx(n, i, j)) == Hits(n, i, j, Idx(n, a, b))
  {
    var p, q := Idx(n, i, j), Idx(n, a, b);
    NbSymmetric(n, a, b, i, j, 0);
    NbSymmetric(n, a, b, i, j, 1);
    NbSymmetric(n, a, b, i, j, 2);
    NbSymmetric(n, a, b, i, j, 3);
    NbSymmetric(n, a, b, i, j, 4);
    NbSymmetric(n, a, b, i, j, 5);
    NbSymmetric(n, a, b, i, j, 6);
    NbSymmetric(n, a, b, i, j, 7);
  }

  /** Flipping one cell moves the live count of (a, b) by the slots that cell occupies. */
  lemma LiveAroundFlip(g: seq<bool>, n: nat, a: nat, b: nat, p: nat, v: bool)
    requires |g| == n * n && a < n && b < n && p < n * n && g[p] != v
    ensures LiveAround(g[p := v], n, a, b)
         == if v then LiveAround(g, n, a, b) + Hits(n, a, b, p)
            else LiveAround(g, n, a, b) - Hits(n, a, b, p)
  {
    var x0, x1, x2, x3 := Nb(n, a, b, 0), Nb(n, a, b, 1), Nb(n, a, b, 2), Nb(n, a, b, 3);
    var x4, x5, x6, x7 := Nb(n, a, b, 4), Nb(n, a, b, 5), Nb(n, a, b, 6), Nb(n, a, b, 7);
    SlotFlip(g, p, v, x0);
    SlotFlip(g, p, v, x1);
    SlotFlip(g, p, v, x2);
    SlotFlip(g, p, v, x3);
    SlotFlip(g, p, v, x4);
    SlotFlip(g, p, v, x5);
    SlotFlip(g, p, v, x6);
    SlotFlip(g, p, v, x7);
  }

  lemma SlotFlip(g: seq<bool>, p: nat, v: bool, x: nat)
    requires p < |g| && x < |g| && g[p] != v
    ensures v ==> Ind(g[p := v][x]) == Ind(g[x]) + Ind(x == p)
    ensures !v ==> Ind(g[p := v][x]) == Ind(g[x]) - Ind(x == p)
  {
  }

  /** A live cell at (0, 0) is a neighbour of the three opposite corners. */
  lemma CornerWraps(n: nat)
    requires n >= 3
    ensures Nb(n, n - 1, n - 1, 7) == Idx(n, 0, 0)
    ensures Nb(n, n - 1, 0, 6) == Idx(n, 0, 0)
    ensures Nb(n, 0, n - 1, 4) == Idx(n, 0, 0)
  {
  }

  /** On a torus of side at least 3, the three row (or column) offsets reach three different rows. */
  lemma WrapDistinct(n: nat, a: nat, x: int, y: int)
    requires n >= 3 && a < n && -1 <= x <= 1 && -1 <= y <= 1
    ensures Wrap(a + x, n) == Wrap(a + y, n) <==> x == y
  {
    assert Wrap(a + x, n) == if a + x < 0 then n - 1 else if a + x == n then 0 else a + x;
    assert Wrap(a + y, n) == if a + y < 0 then n - 1 else if a + y == n then 0 else a + y;
  }

  /** On a torus of side at least 3, the eight slots of a cell are eight different cells, none of them the cell. */
  lemma SlotsDistinct(n: nat, a: nat, b: nat, d: nat, e: nat)
    requires n >= 3 && a < n && b < n && d < 8 && e < 8
    ensures Nb(n, a, b, d) != Idx(n, a, b)
    ensures d != e ==> Nb(n, a, b, d) != Nb(n, a, b, e)
  {
    NbIdx(n, a, b, d);
    NbIdx(n, a, b, e);
    WrapDistinct(n, a, Di(d), 0);
    WrapDistinct(n, b, Dj(d), 0);
    WrapDistinct(n, a, Di(d), Di(e));
    WrapDistinct(n, b, Dj(d), Dj(e));
    IdxInjective(n, Wrap(a + Di(d), n), Wrap(b + Dj(d), n), a, b);
    IdxInjective(n, Wrap(a + Di(d), n), Wrap(b + Dj(d), n), Wrap(a + Di(e), n), Wrap(b + Dj(e), n));
  }

  /** On a torus of side at least 3 a cell occupies at most one slot of another cell and none of its own. */
  lemma HitsAtMostOne(n: nat, a: nat, b: nat, p: nat)
    requires n >= 3 && a < n && b < n
    ensures Hits(n, a, b, p) <= 1
    ensures Hits(n, a, b, Idx(n, a, b)) == 0
  {
    forall d: nat, e: nat | d < 8 && e < 8
      ensures Nb(n, a, b, d) != Idx(n, a, b)
      ensures d != e ==> Nb(n, a, b, d) != Nb(n, a, b, e)
    {
      SlotsDistinct(n, a, b, d, e);
    }
  }
}
