/**
 * The generation step of life.c's worker_fuction_by_rows_encoding with the
 * threads taken out: every slice is swept (upper band, interior, lower band,
 * column by column) writing only `outboard`, and only then every slice is
 * copied back into `inboard`.  That order is what the two barrier waits of
 * each generation enforce between the workers.
 */
module Engine {
  import opened Torus
  import opened Cells
  import opened Board
  import opened Conway
  import opened Partition

  /**
   * Whether cell (a, b) has been processed when the sweep of slice
   * [start, end) is about to process row i of column j.  Rows above the slice
   * belong to slices swept earlier.
   */
  predicate Done(a: nat, b: nat, start: nat, end: nat, j: nat, i: nat)
  {
    a < start || (a < end && (b < j || (b == j && a < i)))
  }

  /**
   * The sweep invariant: `o` keeps its own counts right, and its flags are the
   * next generation of `s` on the processed cells and those of `s` elsewhere.
   */
  ghost predicate Swept(o: seq<Cell>, s: seq<Cell>, n: nat, start: nat, end: nat, j: nat, i: nat)
  {
    Shaped(o, n) && Shaped(s, n) && CountsOk(o, n) && FlagsSwept(Flags(o), Flags(s), n, start, end, j, i)
  }

  /** The flag part of Swept, on the grids of flags. */
  ghost predicate FlagsSwept(h: seq<bool>, g: seq<bool>, n: nat, start: nat, end: nat, j: nat, i: nat)
  {
    |h| == n * n && |g| == n * n &&
    forall a, b :: 0 <= a < n && 0 <= b < n ==>
      h[Idx(n, a, b)] == if Done(a, b, start, end, j, i) then NextAlive(g, n, a, b) else g[Idx(n, a, b)]
  }

  /** Setting the flag of the cell at the sweep position to its next state advances FlagsSwept. */
  lemma FlagsAdvance(h: seq<bool>, g: seq<bool>, n: nat, start: nat, end: nat, j: nat, i: nat)
    requires FlagsSwept(h, g, n, start, end, j, i)
    requires start <= i < end <= n && j < n
    ensures FlagsSwept(h[Idx(n, i, j) := NextAlive(g, n, i, j)], g, n, start, end, j, i + 1)
  {
    var h' := h[Idx(n, i, j) := NextAlive(g, n, i, j)];
    forall a, b | 0 <= a < n && 0 <= b < n
      ensures h'[Idx(n, a, b)] == if Done(a, b, start, end, j, i + 1) then NextAlive(g, n, a, b) else g[Idx(n, a, b)]
    {
      IdxInjective(n, a, b, i, j);
    }
  }

  /** Two sweep positions that have processed the same cells describe the same boards. */
  lemma SweptRebase(o: seq<Cell>, s: seq<Cell>, n: nat, start: nat, end: nat, j: nat, i: nat,
                    start': nat, end': nat, j': nat, i': nat)
    requires Swept(o, s, n, start, end, j, i)
    requires forall a, b :: 0 <= a < n && 0 <= b < n ==> Done(a, b, start, end, j, i) == Done(a, b, start', end', j', i')
    ensures Swept(o, s, n, start', end', j', i')
  {
    assert FlagsSwept(Flags(o), Flags(s), n, start', end', j', i');
  }

  /**
   * TOKILL on a live cell and TOSPAWN on a dead cell fire exactly when the
   * cell's next state differs from its current one, provided the counts are
   * right.
   */
  lemma RuleMatches(s: seq<Cell>, n: nat, a: nat, b: nat)
    requires Shaped(s, n) && CountsOk(s, n) && a < n && b < n
    ensures var c := s[Idx(n, a, b)];
      (if c.alive then ToKill(c) else ToSpawn(c)) <==> NextAlive(Flags(s), n, a, b) != c.alive
  {
    assert s[Idx(n, a, b)].count == LiveAround(Flags(s), n, a, b);
  }

  /** Processing cell (i, j) with do_cell's decision advances the sweep by one cell. */
  lemma SweptStep(o: seq<Cell>, s: seq<Cell>, n: nat, start: nat, end: nat, j: nat, i: nat)
    requires Swept(o, s, n, start, end, j, i) && CountsOk(s, n)
    requires start <= i < end <= n && j < n
    ensures Swept(CellStep(o, s, n, i, j), s, n, start, end, j, i + 1)
  {
    var p := Idx(n, i, j);
    var c := s[p];
    var h, g := Flags(o), Flags(s);
    assert !Done(i, j, start, end, j, i);
    assert h[p] == g[p];
    RuleMatches(s, n, i, j);
    FlagsAdvance(h, g, n, start, end, j, i);
    if (if c.alive then ToKill(c) else ToSpawn(c)) {
      ToggleKeepsCounts(o, n, i, j, !c.alive);
      ToggleFlags(o, n, i, j, !c.alive);
    } else {
      assert h[p := NextAlive(g, n, i, j)] == h;
    }
  }

  /**
   * One worker's sweep of its slice for one generation (life.c, the column
   * loop inside the generation loop).
   */
  method SweepSlice(outboard: array<Cell>, inboard: array<Cell>, nrows: nat, workers: nat, ith_slice: nat)
    requires outboard != inboard
    requires workers > 0 && ith_slice < workers && nrows % workers == 0 && SliceSize(nrows, workers) >= 4
    requires Shaped(inboard[..], nrows) && CountsOk(inboard[..], nrows)
    requires var start := SliceStart(nrows, workers, ith_slice);
      Swept(outboard[..], inboard[..], nrows, start, start, 0, start)
    modifies outboard
    ensures var end := SliceEnd(nrows, workers, ith_slice);
      Swept(outboard[..], inboard[..], nrows, end, end, 0, end)
  {
    var slice_size := nrows / workers;
    var start := ith_slice * slice_size;
    var end := start + slice_size;
    SliceWithin(nrows, workers, ith_slice);
    SweptRebase(outboard[..], inboard[..], nrows, start, start, 0, start, start, end, 0, start);
    var j := 0;
    while j < nrows
      invariant 0 <= j <= nrows
      invariant Swept(outboard[..], inboard[..], nrows, start, end, j, start)
    {
      SweepColumn(outboard, inboard, nrows, start, end, j);
      j := j + 1;
    }
    SweptRebase(outboard[..], inboard[..], nrows, start, end, nrows, start, end, end, 0, end);
  }

  /**
   * Column j of a slice [start, end): two upper boundary rows, the interior,
   * two lower boundary rows.  The boundary rows take a boundary lock around
   * kill_cell / spawn_cell; the locks are not modelled, the decision and the
   * update are, and they are do_cell's.
   */
  method SweepColumn(outboard: array<Cell>, inboard: array<Cell>, nrows: nat, start: nat, end: nat, j: nat)
    requires outboard != inboard
    requires start + 4 <= end <= nrows && j < nrows
    requires Swept(outboard[..], inboard[..], nrows, start, end, j, start) && CountsOk(inboard[..], nrows)
    modifies outboard
    ensures Swept(outboard[..], inboard[..], nrows, start, end, j + 1, start)
  {
    SweepRows(outboard, inboard, nrows, start, end, j, start, start + 2, true);
    SweepRows(outboard, inboard, nrows, start, end, j, start + 2, end - 2, false);
    SweepRows(outboard, inboard, nrows, start, end, j, end - 2, end, true);
    SweptRebase(outboard[..], inboard[..], nrows, start, end, j, end, start, end, j + 1, start);
  }

  /**
   * One band of column j: rows [lo, hi) in order, each processed under a
   * boundary lock (`locked`) or as an interior cell by do_cell.
   */
  method SweepRows(outboard: array<Cell>, inboard: array<Cell>, nrows: nat, start: nat, end: nat, j: nat,
                   lo: nat, hi: nat, locked: bool)
    requires outboard != inboard
    requires start <= lo <= hi <= end <= nrows && j < nrows
    requires Swept(outboard[..], inboard[..], nrows, start, end, j, lo) && CountsOk(inboard[..], nrows)
    modifies outboard
    ensures Swept(outboard[..], inboard[..], nrows, start, end, j, hi)
  {
    var i := lo;
    while i < hi
      invariant lo <= i <= hi
      invariant Swept(outboard[..], inboard[..], nrows, start, end, j, i)
    {
      ghost var before := outboard[..];
      if locked {
        BoundaryCell(outboard, inboard, i, j, nrows);
      } else {
        DoCell(outboard, inboard, i, j, nrows);
      }
      SweptStep(before, inboard[..], nrows, start, end, j, i);
      i := i + 1;
    }
  }

  /**
   * The body of the two boundary-band loops: the same decision as do_cell,
   * with kill_cell / spawn_cell called while holding the upper or lower
   * boundary lock (the lock is not modelled).
   */
  method BoundaryCell(outboard: array<Cell>, inboard: array<Cell>, i: nat, j: nat, nrows: nat)
    requires outboard != inboard
    requires Shaped(outboard[..], nrows) && Shaped(inboard[..], nrows) && i < nrows && j < nrows
    modifies outboard
    ensures outboard[..] == CellStep(old(outboard[..]), inboard[..], nrows, i, j)
  {
    if inboard[Idx(nrows, i, j)].alive {
      if ToKill(inboard[Idx(nrows, i, j)]) {
        KillCell(outboard, i, j, nrows);
      }
    } else {
      if ToSpawn(inboard[Idx(nrows, i, j)]) {
        SpawnCell(outboard, i, j, nrows);
      }
    }
  }

  /** The chars of slice k: rows [start, end) of a board of side nrows. */
  lemma SliceChars(nrows: nat, workers: nat, k: nat)
    requires workers > 0 && nrows % workers == 0 && k < workers
    ensures SliceStart(nrows, workers, k) * nrows + SliceSize(nrows, workers) * nrows
         == SliceStart(nrows, workers, k + 1) * nrows
    ensures SliceStart(nrows, workers, k + 1) * nrows <= nrows * nrows
  {
    SliceWithin(nrows, workers, k);
    MulMono(SliceStart(nrows, workers, k + 1), nrows, nrows);
  }

  /** Before any cell is processed, a copy of a board with correct counts is an empty sweep. */
  lemma SweepStarts(o: seq<Cell>, s: seq<Cell>, n: nat)
    requires Shaped(s, n) && CountsOk(s, n) && o == s
    ensures Swept(o, s, n, 0, 0, 0, 0)
  {
    assert FlagsSwept(Flags(o), Flags(s), n, 0, 0, 0, 0);
  }

  /** Every worker's sweep of its slice, slice after slice. */
  method SweepAll(outboard: array<Cell>, inboard: array<Cell>, nrows: nat, workers: nat)
    requires outboard != inboard
    requires workers > 0 && nrows % workers == 0 && SliceSize(nrows, workers) >= 4
    requires Shaped(inboard[..], nrows) && CountsOk(inboard[..], nrows) && outboard[..] == inboard[..]
    modifies outboard
    ensures Swept(outboard[..], inboard[..], nrows, nrows, nrows, 0, nrows)
  {
    SweepStarts(outboard[..], inboard[..], nrows);
    var k := 0;
    while k < workers
      invariant 0 <= k <= workers
      invariant var rows := SliceStart(nrows, workers, k);
        Swept(outboard[..], inboard[..], nrows, rows, rows, 0, rows)
    {
      SweepSlice(outboard, inboard, nrows, workers, k);
      SlicesAdjacent(nrows, workers, k);
      k := k + 1;
    }
    SlicesReachEnd(nrows, workers);
  }

  /**
   * Every worker's copy of its slice from `outboard` back into `inboard`
   * (`memcpy(inboard + start * nrows, outboard + start * nrows, slice_size * nrows)`).
   */
  method CopyAll(inboard: array<Cell>, outboard: array<Cell>, nrows: nat, workers: nat)
    requires outboard != inboard
    requires workers > 0 && nrows % workers == 0
    requires inboard.Length == nrows * nrows && outboard.Length == nrows * nrows
    modifies inboard
    ensures inboard[..] == outboard[..]
  {
    ghost var s := inboard[..];
    var slice_size := nrows / workers;
    var k := 0;
    ghost var done: nat := 0;
    while k < workers
      invariant 0 <= k <= workers
      invariant done == SliceStart(nrows, workers, k) * nrows <= nrows * nrows
      invariant inboard[..] == outboard[..done] + s[done..]
    {
      var start := k * slice_size;
      SliceChars(nrows, workers, k);
      CopySlice(inboard, outboard, start * nrows, slice_size * nrows, s);
      done := done + slice_size * nrows;
      k := k + 1;
    }
    SlicesReachEnd(nrows, workers);
    CopyComplete(outboard[..], s, done);
  }

  /** Once the copied prefix is the whole board, the board is the copy. */
  lemma CopyComplete(o: seq<Cell>, s: seq<Cell>, done: nat)
    requires |o| == |s| == done
    ensures o[..done] + s[done..] == o
  {
    assert o[..done] == o;
  }

  /**
   * One worker's `memcpy` of len chars from lo, over a board whose chars
   * before lo are already copied.
   */
  method CopySlice(inboard: array<Cell>, outboard: array<Cell>, lo: nat, len: nat, ghost s: seq<Cell>)
    requires outboard != inboard
    requires inboard.Length == outboard.Length == |s| && lo + len <= |s|
    requires inboard[..] == outboard[..lo] + s[lo..]
    modifies inboard
    ensures inboard[..] == outboard[..lo + len] + s[lo + len..]
  {
    ghost var x := inboard[..];
    MemCopy(inboard, outboard, lo, len);
    CopyGrows(x, outboard[..], s, lo, lo + len);
  }

  /** Copying [lo, hi) of `o` over a board whose first lo chars already come from `o`. */
  lemma CopyGrows(x: seq<Cell>, o: seq<Cell>, s: seq<Cell>, lo: nat, hi: nat)
    requires |o| == |s| && lo <= hi <= |o| && x == o[..lo] + s[lo..]
    ensures x[..lo] + o[lo..hi] + x[hi..] == o[..hi] + s[hi..]
  {
    assert x[..lo] == o[..lo];
    assert x[hi..] == s[hi..];
  }

  /**
   * One generation over all slices, run one after another: every sweep, then
   * every copy of a slice from `outboard` back into `inboard`.  Starting from
   * two equal boards with correct counts, it ends with two equal boards
   * holding the next Conway generation, with correct counts.
   */
  method Generation(outboard: array<Cell>, inboard: array<Cell>, nrows: nat, workers: nat)
    requires outboard != inboard
    requires workers > 0 && nrows % workers == 0 && SliceSize(nrows, workers) >= 4
    requires Shaped(inboard[..], nrows) && CountsOk(inboard[..], nrows) && outboard[..] == inboard[..]
    modifies outboard, inboard
    ensures Shaped(outboard[..], nrows) && CountsOk(outboard[..], nrows)
    ensures Flags(outboard[..]) == Step(Flags(old(inboard[..])), nrows)
    ensures inboard[..] == outboard[..]
  {
    SweepAll(outboard, inboard, nrows, workers);
    ghost var o := outboard[..];
    assert FlagsSwept(Flags(o), Flags(inboard[..]), nrows, nrows, nrows, 0, nrows);
    StepUnique(Flags(inboard[..]), nrows, Flags(o));
    CopyAll(inboard, outboard, nrows, workers);
  }
}
