/**
 * The incremental cell updates of life.c: kill_cell, spawn_cell and do_cell,
 * together with the count invariant they maintain.  A board is a flat array
 * of size * size chars (the source's `char *`), indexed row by row.
 */
module Board {
  import opened Torus
  import opened Cells

  /** A packed size-by-size board. */
  ghost predicate Shaped(s: seq<Cell>, n: nat)
  {
    n > 0 && |s| == n * n && Encoded(s)
  }

  /**
   * The invariant of the packed encoding: every stored count equals the
   * number of live cells among the cell's eight toroidal neighbours.
   */
  ghost predicate CountsOk(s: seq<Cell>, n: nat): (r: bool)
    requires Shaped(s, n)
    ensures r ==> forall a, b :: 0 <= a < n && 0 <= b < n ==> s[Idx(n, a, b)].count <= 8
  {
    forall a, b :: 0 <= a < n && 0 <= b < n ==> s[Idx(n, a, b)].count == LiveAround(Flags(s), n, a, b)
  }

  /**
   * The board after N_INC (when `up`) or N_DEC was applied to each of the
   * eight wrapped neighbours of (i, j): a cell reached through k slots moves
   * by k, every flag and every other count stays.
   */
  ghost function Spread(s: seq<Cell>, n: nat, i: nat, j: nat, up: bool): (r: seq<Cell>)
    requires Shaped(s, n) && i < n && j < n
    ensures Shaped(r, n) && Flags(r) == Flags(s)
  {
    seq(|s|, q requires 0 <= q < |s| =>
      Packed(s[q].alive, if up then s[q].count + Hits(n, i, j, q) else s[q].count - Hits(n, i, j, q)))
  }

  /**
   * The effect of spawn_cell (live) or kill_cell (not live) at (i, j): the
   * flag of (i, j) becomes `live` and the counts of its eight neighbours move
   * towards the new flag.
   */
  ghost function Toggle(s: seq<Cell>, n: nat, i: nat, j: nat, live: bool): (r: seq<Cell>)
    requires Shaped(s, n) && i < n && j < n
    ensures Shaped(r, n)
  {
    var p := Idx(n, i, j);
    Spread(s[p := Packed(live, s[p].count)], n, i, j, live)
  }

  /** The change do_cell makes to `out` for cell (i, j), judged on `inb`. */
  ghost function CellStep(out: seq<Cell>, inb: seq<Cell>, n: nat, i: nat, j: nat): (r: seq<Cell>)
    requires Shaped(out, n) && Shaped(inb, n) && i < n && j < n
    ensures Shaped(r, n)
  {
    var c := inb[Idx(n, i, j)];
    if c.alive then
      (if ToKill(c) then Toggle(out, n, i, j, false) else out)
    else
      (if ToSpawn(c) then Toggle(out, n, i, j, true) else out)
  }

  /** Frame of kill_cell / spawn_cell: only (i, j) and its eight neighbours change. */
  lemma ToggleFrame(s: seq<Cell>, n: nat, i: nat, j: nat, live: bool, q: nat)
    requires Shaped(s, n) && i < n && j < n && q < n * n
    ensures Toggle(s, n, i, j, live)[q].alive == if q == Idx(n, i, j) then live else s[q].alive
    ensures Toggle(s, n, i, j, live)[q].count
         == if live then s[q].count + Hits(n, i, j, q) else s[q].count - Hits(n, i, j, q)
    ensures q != Idx(n, i, j) && Hits(n, i, j, q) == 0 ==> Toggle(s, n, i, j, live)[q] == s[q]
  {
  }

  /**
   * kill_cell on a live cell and spawn_cell on a dead cell keep every count
   * equal to its cell's live-neighbour count.
   */
  lemma {:induction false} ToggleKeepsCounts(s: seq<Cell>, n: nat, i: nat, j: nat, live: bool)
    requires Shaped(s, n) && i < n && j < n && CountsOk(s, n)
    requires s[Idx(n, i, j)].alive != live
    ensures CountsOk(Toggle(s, n, i, j, live), n)
  {
    var r := Toggle(s, n, i, j, live);
    forall a, b | 0 <= a < n && 0 <= b < n
      ensures r[Idx(n, a, b)].count == LiveAround(Flags(r), n, a, b)
    {
      ToggleKeepsCountAt(s, n, i, j, live, a, b);
    }
  }

  /** The flags after kill_cell / spawn_cell: only (i, j) changed. */
  lemma ToggleFlags(s: seq<Cell>, n: nat, i: nat, j: nat, live: bool)
    requires Shaped(s, n) && i < n && j < n
    ensures Flags(Toggle(s, n, i, j, live)) == Flags(s)[Idx(n, i, j) := live]
  {
    var r := Toggle(s, n, i, j, live);
    forall q | 0 <= q < n * n
      ensures Flags(r)[q] == Flags(s)[Idx(n, i, j) := live][q]
    {
      ToggleFrame(s, n, i, j, live, q);
    }
  }

  lemma ToggleKeepsCountAt(s: seq<Cell>, n: nat, i: nat, j: nat, live: bool, a: nat, b: nat)
    requires Shaped(s, n) && i < n && j < n && CountsOk(s, n)
    requires s[Idx(n, i, j)].alive != live
    requires a < n && b < n
    ensures Toggle(s, n, i, j, live)[Idx(n, a, b)].count == LiveAround(Flags(Toggle(s, n, i, j, live)), n, a, b)
  {
    var p, q := Idx(n, i, j), Idx(n, a, b);
    var g := Flags(s);
    var r := Toggle(s, n, i, j, live);
    var g2 := Flags(r);
    ToggleFlags(s, n, i, j, live);
    assert g2 == g[p := live];
    ToggleFrame(s, n, i, j, live, q);
    var h1 := Hits(n, i, j, q);
    assert r[q].count == if live then s[q].count + h1 else s[q].count - h1;
    var l0 := LiveAround(g, n, a, b);
    assert s[q].count == l0;
    LiveAroundFlip(g, n, a, b, p, live);
    var h2 := Hits(n, a, b, p);
    var l2 := LiveAround(g2, n, a, b);
    assert l2 == if live then l0 + h2 else l0 - h2;
    HitsSymmetric(n, a, b, i, j);
    assert h1 == h2;
  }

  /** Two updates at different cells commute: each only adds to counts. */
  lemma ToggleCommute(s: seq<Cell>, n: nat, i1: nat, j1: nat, v1: bool, i2: nat, j2: nat, v2: bool)
    requires Shaped(s, n) && i1 < n && j1 < n && i2 < n && j2 < n
    requires Idx(n, i1, j1) != Idx(n, i2, j2)
    ensures Toggle(Toggle(s, n, i1, j1, v1), n, i2, j2, v2)
         == Toggle(Toggle(s, n, i2, j2, v2), n, i1, j1, v1)
  {
    var s1, s2 := Toggle(s, n, i1, j1, v1), Toggle(s, n, i2, j2, v2);
    var l, r := Toggle(s1, n, i2, j2, v2), Toggle(s2, n, i1, j1, v1);
    forall q | 0 <= q < n * n
      ensures l[q] == r[q]
    {
      ToggleFrame(s, n, i1, j1, v1, q);
      ToggleFrame(s, n, i2, j2, v2, q);
      ToggleFrame(s1, n, i2, j2, v2, q);
      ToggleFrame(s2, n, i1, j1, v1, q);
    }
  }

  /** do_cell calls on different cells commute: they read only `inb` and only add to `out`. */
  lemma CellStepCommute(out: seq<Cell>, inb: seq<Cell>, n: nat, i1: nat, j1: nat, i2: nat, j2: nat)
    requires Shaped(out, n) && Shaped(inb, n) && i1 < n && j1 < n && i2 < n && j2 < n
    requires Idx(n, i1, j1) != Idx(n, i2, j2)
    ensures CellStep(CellStep(out, inb, n, i1, j1), inb, n, i2, j2)
         == CellStep(CellStep(out, inb, n, i2, j2), inb, n, i1, j1)
  {
    var c1, c2 := inb[Idx(n, i1, j1)], inb[Idx(n, i2, j2)];
    var v1, v2 := !c1.alive, !c2.alive;
    if (c1.alive && ToKill(c1)) || (!c1.alive && ToSpawn(c1)) {
      if (c2.alive && ToKill(c2)) || (!c2.alive && ToSpawn(c2)) {
        ToggleCommute(out, n, i1, j1, v1, i2, j2, v2);
      }
    }
  }

  /** N_INC / N_DEC of one char. */
  method Adjust(board: array<Cell>, q: nat, up: bool)
    requires q < board.Length && board[q].Packed?
    modifies board
    ensures board[..] == old(board[..])[q := Bump(old(board[q]), up)]
  {
    board[q] := Bump(board[q], up);
  }

  /** The eight N_INC (up) or N_DEC lines shared by preprocessing_board, do_cell, kill_cell and spawn_cell. */
  method TouchNeighbours(board: array<Cell>, n: nat, i: nat, j: nat, up: bool)
    requires Shaped(board[..], n) && i < n && j < n
    modifies board
    ensures board[..] == Spread(old(board[..]), n, i, j, up)
  {
    ghost var s := board[..];
    var jwest := Wrap(j - 1, n);
    var jeast := Wrap(j + 1, n);
    var inorth := Wrap(i - 1, n);
    var isouth := Wrap(i + 1, n);
    SlotNames(n, i, j);
    assert board[..] == Partial(s, n, i, j, up, 0);
    TouchSlot(board, s, n, i, j, up, 0, Idx(n, inorth, jwest));
    TouchSlot(board, s, n, i, j, up, 1, Idx(n, inorth, j));
    TouchSlot(board, s, n, i, j, up, 2, Idx(n, inorth, jeast));
    TouchSlot(board, s, n, i, j, up, 3, Idx(n, i, jwest));
    TouchSlot(board, s, n, i, j, up, 4, Idx(n, i, jeast));
    TouchSlot(board, s, n, i, j, up, 5, Idx(n, isouth, jwest));
    TouchSlot(board, s, n, i, j, up, 6, Idx(n, isouth, j));
    TouchSlot(board, s, n, i, j, up, 7, Idx(n, isouth, jeast));
    PartialAll(s, n, i, j, up);
  }

  /** Slots 0 .. k-1 of (i, j) that land on q. */
  function HitsBelow(n: nat, i: nat, j: nat, q: nat, k: nat): (r: nat)
    requires i < n && j < n && k <= 8
    ensures r <= k
  {
    if k == 0 then 0 else HitsBelow(n, i, j, q, k - 1) + Ind(Nb(n, i, j, k - 1) == q)
  }

  /** One `N_INC`/`N_DEC` line: the update of slot k, at flat index q. */
  method TouchSlot(board: array<Cell>, ghost s: seq<Cell>, n: nat, i: nat, j: nat, up: bool, k: nat, q: nat)
    requires Shaped(s, n) && i < n && j < n && k < 8 && q == Nb(n, i, j, k)
    requires board[..] == Partial(s, n, i, j, up, k)
    modifies board
    ensures board[..] == Partial(s, n, i, j, up, k + 1)
  {
    Adjust(board, q, up);
    PartialStep(s, n, i, j, up, k);
  }

  /** The board after the first k of the eight neighbour updates. */
  ghost function Partial(s: seq<Cell>, n: nat, i: nat, j: nat, up: bool, k: nat): (r: seq<Cell>)
    requires Shaped(s, n) && i < n && j < n && k <= 8
    ensures Shaped(r, n)
  {
    seq(|s|, q requires 0 <= q < |s| =>
      Packed(s[q].alive, if up then s[q].count + HitsBelow(n, i, j, q, k) else s[q].count - HitsBelow(n, i, j, q, k)))
  }

  lemma PartialStep(s: seq<Cell>, n: nat, i: nat, j: nat, up: bool, k: nat)
    requires Shaped(s, n) && i < n && j < n && k < 8
    ensures var x := Nb(n, i, j, k);
      Partial(s, n, i, j, up, k + 1) == Partial(s, n, i, j, up, k)[x := Bump(Partial(s, n, i, j, up, k)[x], up)]
  {
  }

  lemma PartialAll(s: seq<Cell>, n: nat, i: nat, j: nat, up: bool)
    requires Shaped(s, n) && i < n && j < n
    ensures Partial(s, n, i, j, up, 8) == Spread(s, n, i, j, up)
  {
    forall q | 0 <= q < n * n
      ensures HitsBelow(n, i, j, q, 8) == Hits(n, i, j, q)
    {
      assert HitsBelow(n, i, j, q, 1) == Ind(Nb(n, i, j, 0) == q);
      assert HitsBelow(n, i, j, q, 2) == HitsBelow(n, i, j, q, 1) + Ind(Nb(n, i, j, 1) == q);
      assert HitsBelow(n, i, j, q, 3) == HitsBelow(n, i, j, q, 2) + Ind(Nb(n, i, j, 2) == q);
      assert HitsBelow(n, i, j, q, 4) == HitsBelow(n, i, j, q, 3) + Ind(Nb(n, i, j, 3) == q);
      assert HitsBelow(n, i, j, q, 5) == HitsBelow(n, i, j, q, 4) + Ind(Nb(n, i, j, 4) == q);
      assert HitsBelow(n, i, j, q, 6) == HitsBelow(n, i, j, q, 5) + Ind(Nb(n, i, j, 5) == q);
      assert HitsBelow(n, i, j, q, 7) == HitsBelow(n, i, j, q, 6) + Ind(Nb(n, i, j, 6) == q);
      assert HitsBelow(n, i, j, q, 8) == HitsBelow(n, i, j, q, 7) + Ind(Nb(n, i, j, 7) == q);
    }
  }

  /** kill_cell: mark (i, j) dead and decrement its eight neighbours' counts. */
  method KillCell(outboard: array<Cell>, i: nat, j: nat, size: nat)
    requires Shaped(outboard[..], size) && i < size && j < size
    modifies outboard
    ensures outboard[..] == Toggle(old(outboard[..]), size, i, j, false)
  {
    var p := Idx(size, i, j);
    outboard[p] := Kill(outboard[p]);
    TouchNeighbours(outboard, size, i, j, false);
  }

  /** spawn_cell: mark (i, j) alive and increment its eight neighbours' counts. */
  method SpawnCell(outboard: array<Cell>, i: nat, j: nat, size: nat)
    requires Shaped(outboard[..], size) && i < size && j < size
    modifies outboard
    ensures outboard[..] == Toggle(old(outboard[..]), size, i, j, true)
  {
    var p := Idx(size, i, j);
    outboard[p] := Spawn(outboard[p]);
    TouchNeighbours(outboard, size, i, j, true);
  }

  /**
   * do_cell: decide on the packed cell (i, j) of `inboard` and apply the
   * kill or spawn to `outboard`.  do_cell repeats the statements of
   * kill_cell and spawn_cell inline; here it calls them.
   */
  method DoCell(outboard: array<Cell>, inboard: array<Cell>, i: nat, j: nat, size: nat)
    requires outboard != inboard
    requires Shaped(outboard[..], size) && Shaped(inboard[..], size) && i < size && j < size
    modifies outboard
    ensures outboard[..] == CellStep(old(outboard[..]), inboard[..], size, i, j)
  {
    var cell := inboard[Idx(size, i, j)];
    if cell.alive {
      if ToKill(cell) {
        KillCell(outboard, i, j, size);
      }
    } else {
      if ToSpawn(cell) {
        SpawnCell(outboard, i, j, size);
      }
    }
  }

  /**
   * `memcpy` / `memmove(dst + lo, src + lo, len)`: copy a run of chars.
   * Reading the source before writing makes an overlapping (even identical)
   * source and destination safe, as memmove promises.
   */
  method MemCopy(dst: array<Cell>, src: array<Cell>, lo: nat, len: nat)
    requires dst.Length == src.Length && lo + len <= dst.Length
    modifies dst
    ensures dst[..] == old(dst[..lo]) + old(src[lo..lo + len]) + old(dst[lo + len..])
  {
    forall q | lo <= q < lo + len {
      dst[q] := src[q];
    }
  }
}
