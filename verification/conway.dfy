/**
 * The reference semantics the packed engine must agree with: Conway's Game
 * of Life (birth on 3 live neighbours, survival on 2 or 3) on a square torus,
 * stated directly on the grid of alive flags.
 */
module Conway {
  import opened Torus

  /** Whether cell (a, b) is alive one generation after g. */
  function NextAlive(g: seq<bool>, n: nat, a: nat, b: nat): (r: bool)
    requires |g| == n * n && a < n && b < n
    ensures r ==> LiveAround(g, n, a, b) == 2 || LiveAround(g, n, a, b) == 3
    ensures LiveAround(g, n, a, b) == 3 ==> r
    ensures LiveAround(g, n, a, b) == 2 ==> (r <==> g[Idx(n, a, b)])
  {
    var c := LiveAround(g, n, a, b);
    if g[Idx(n, a, b)] then c == 2 || c == 3 else c == 3
  }

  /** The coordinates of flat index q. */
  ghost function Coords(n: nat, q: nat): (rc: (nat, nat))
    requires q < n * n
    ensures rc.0 < n && rc.1 < n && Idx(n, rc.0, rc.1) == q
  {
    FlatIndex(n, q);
    var a: nat, b: nat :| a < n && b < n && Idx(n, a, b) == q; (a, b)
  }

  /** One generation of the whole grid. */
  ghost function Step(g: seq<bool>, n: nat): (r: seq<bool>)
    requires |g| == n * n
    ensures |r| == |g|
  {
    seq(|g|, q requires 0 <= q < |g| => NextAlive(g, n, Coords(n, q).0, Coords(n, q).1))
  }

  /** `k` generations. */
  ghost function Evolve(g: seq<bool>, n: nat, k: nat): (r: seq<bool>)
    requires |g| == n * n
    ensures |r| == |g|
  {
    if k == 0 then g else Step(Evolve(g, n, k - 1), n)
  }

  /** Cell (a, b) of the next generation follows the birth/survival rule. */
  lemma StepAt(g: seq<bool>, n: nat, a: nat, b: nat)
    requires |g| == n * n && a < n && b < n
    ensures Step(g, n)[Idx(n, a, b)] == NextAlive(g, n, a, b)
  {
    var q := Idx(n, a, b);
    IdxInjective(n, Coords(n, q).0, Coords(n, q).1, a, b);
  }

  /** A grid is the next generation of g when it agrees with NextAlive everywhere. */
  lemma StepUnique(g: seq<bool>, n: nat, h: seq<bool>)
    requires |g| == n * n && |h| == n * n
    requires forall a, b :: 0 <= a < n && 0 <= b < n ==> h[Idx(n, a, b)] == NextAlive(g, n, a, b)
    ensures h == Step(g, n)
  {
    forall q | 0 <= q < n * n
      ensures h[q] == Step(g, n)[q]
    {
      var (a, b) := Coords(n, q);
      StepAt(g, n, a, b);
    }
  }

  /** An all-dead grid stays all-dead. */
  lemma {:induction false} DeadStaysDead(g: seq<bool>, n: nat, k: nat)
    requires |g| == n * n && AllDead(g)
    ensures AllDead(Evolve(g, n, k))
  {
    if k > 0 {
      DeadStaysDead(g, n, k - 1);
      StepOfDead(Evolve(g, n, k - 1), n);
    }
  }

  ghost predicate AllDead(g: seq<bool>)
  {
    forall q :: 0 <= q < |g| ==> !g[q]
  }

  lemma StepOfDead(h: seq<bool>, n: nat)
    requires |h| == n * n && AllDead(h)
    ensures AllDead(Step(h, n))
  {
    forall q | 0 <= q < |h|
      ensures !Step(h, n)[q]
    {
      var (a, b) := Coords(n, q);
      StepAt(h, n, a, b);
      assert LiveAround(h, n, a, b) == 0;
    }
  }

  /** A cell with fewer than two live neighbours is dead in the next generation. */
  lemma LonelyDies(g: seq<bool>, n: nat, a: nat, b: nat)
    requires |g| == n * n && a < n && b < n
    requires LiveAround(g, n, a, b) < 2
    ensures !Step(g, n)[Idx(n, a, b)]
  {
    StepAt(g, n, a, b);
  }

  /**
   * A single live cell on a torus of side at least 3 dies in the next
   * generation, and no cell is born.
   */
  lemma SingleCellVanishes(g: seq<bool>, n: nat, p: nat)
    requires n >= 3 && |g| == n * n && p < n * n
    requires forall q :: 0 <= q < |g| ==> (g[q] <==> q == p)
    ensures AllDead(Step(g, n))
  {
    forall q | 0 <= q < |g|
      ensures !Step(g, n)[q]
    {
      var (a, b) := Coords(n, q);
      StepAt(g, n, a, b);
      HitsAtMostOne(n, a, b, p);
      assert LiveAround(g, n, a, b) == Hits(n, a, b, p);
    }
  }

  /** The cell before x on a ring of n, without `%`: `mod(x - 1, size)`. */
  function Before(x: nat, n: nat): (r: nat)
    requires x < n
    ensures r < n && r == Wrap(x - 1, n)
  {
    if x == 0 then n - 1 else x - 1
  }

  /** The cell after x on a ring of n, without `%`: `mod(x + 1, size)`. */
  function After(x: nat, n: nat): (r: nat)
    requires x < n
    ensures r < n && r == Wrap(x + 1, n)
  {
    if x + 1 == n then 0 else x + 1
  }

  /** The live-neighbour count of (a, b) read off the eight named neighbours. */
  lemma Around(g: seq<bool>, n: nat, a: nat, b: nat)
    requires |g| == n * n && a < n && b < n
    ensures LiveAround(g, n, a, b) ==
      Ind(g[Idx(n, Before(a, n), Before(b, n))]) + Ind(g[Idx(n, Before(a, n), b)]) +
      Ind(g[Idx(n, Before(a, n), After(b, n))]) + Ind(g[Idx(n, a, Before(b, n))]) +
      Ind(g[Idx(n, a, After(b, n))]) + Ind(g[Idx(n, After(a, n), Before(b, n))]) +
      Ind(g[Idx(n, After(a, n), b)]) + Ind(g[Idx(n, After(a, n), After(b, n))])
  {
    SlotNames(n, a, b);
  }

  /**
   * A bar of three live cells through the centre of a 5-by-5 torus: row 2,
   * columns 1 to 3 when `horizontal`, column 2, rows 1 to 3 otherwise.
   */
  ghost predicate Bar(g: seq<bool>, horizontal: bool)
  {
    |g| == 25 && forall x: nat, y: nat :: x < 5 && y < 5 ==>
      (g[Idx(5, x, y)] <==> if horizontal then x == 2 && 1 <= y <= 3 else y == 2 && 1 <= x <= 3)
  }

  /** The two phases of the blinker as flat grids. */
  function Blinker(horizontal: bool): (g: seq<bool>)
    ensures Bar(g, horizontal)
  {
    seq(25, q requires 0 <= q < 25 => if horizontal then 11 <= q <= 13 else q == 7 || q == 12 || q == 17)
  }

  /** A bar turns a quarter turn in one generation. */
  lemma BarTurns(g: seq<bool>, h: seq<bool>, horizontal: bool)
    requires Bar(g, horizontal) && Bar(h, !horizontal)
    ensures Step(g, 5) == h
  {
    forall a, b | 0 <= a < 5 && 0 <= b < 5
      ensures h[Idx(5, a, b)] == NextAlive(g, 5, a, b)
    {
      Around(g, 5, a, b);
    }
    StepUnique(g, 5, h);
  }

  /** The blinker oscillates with period 2: it changes in one generation and is back after two. */
  lemma BlinkerPeriod(horizontal: bool)
    ensures Step(Blinker(horizontal), 5) == Blinker(!horizontal)
    ensures Evolve(Blinker(horizontal), 5, 2) == Blinker(horizontal)
    ensures Blinker(horizontal) != Blinker(!horizontal)
  {
    var g, h := Blinker(horizontal), Blinker(!horizontal);
    BarTurns(g, h, horizontal);
    BarTurns(h, g, !horizontal);
    assert Evolve(g, 5, 1) == h;
    assert g[Idx(5, 2, 1)] != h[Idx(5, 2, 1)];
  }
}
