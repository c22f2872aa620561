/**
 * preprocessing_board and postprocessing_board of life.c: the change from
 * raw 0/1 chars to packed (alive, count) cells and back.  Encoding works on
 * `inboard` itself and then copies it into `outboard`.
 */
module Encoding {
  import opened Torus
  import opened Cells
  import opened Board
  import opened Conway

  /** The alive flags of a raw board: a char is alive when it is 1. */
  function RawFlags(raw: seq<Cell>): (g: seq<bool>)
    ensures |g| == |raw| && forall q :: 0 <= q < |raw| ==> (g[q] <==> raw[q] == Raw(1))
  {
    seq(|raw|, q requires 0 <= q < |raw| => raw[q] == Raw(1))
  }

  /** The raw board of a grid of flags: 1 for alive, 0 for dead. */
  function RawBoard(g: seq<bool>): (raw: seq<Cell>)
    ensures |raw| == |g| && Binary(raw)
    ensures forall q :: 0 <= q < |g| ==> (raw[q] == Raw(1) <==> g[q])
  {
    seq(|g|, q requires 0 <= q < |g| => Raw(if g[q] then 1 else 0))
  }

  /** A raw 0/1 board is determined by its flags. */
  lemma RawFlagsInverse(raw: seq<Cell>)
    requires Binary(raw)
    ensures RawBoard(RawFlags(raw)) == raw
  {
  }

  /**
   * The encoded board of a raw board: each cell keeps its flag and counts
   * its live toroidal neighbours.
   */
  ghost function Encode(raw: seq<Cell>, n: nat): (s: seq<Cell>)
    requires n > 0 && |raw| == n * n
    ensures Shaped(s, n) && Flags(s) == RawFlags(raw) && CountsOk(s, n)
  {
    var g := RawFlags(raw);
    var s := seq(|raw|, q requires 0 <= q < |raw| =>
      Packed(g[q], LiveAround(g, n, Coords(n, q).0, Coords(n, q).1)));
    assert Flags(s) == g;
    forall a, b | 0 <= a < n && 0 <= b < n
      ensures s[Idx(n, a, b)].count == LiveAround(g, n, a, b)
    {
      var q := Idx(n, a, b);
      IdxInjective(n, Coords(n, q).0, Coords(n, q).1, a, b);
    }
    s
  }

  /** `ALIVE(board[i])` for every char: the packed board back to 0/1 chars. */
  function Decode(s: seq<Cell>): (raw: seq<Cell>)
    requires Encoded(s)
    ensures |raw| == |s| && Binary(raw) && RawFlags(raw) == Flags(s)
  {
    RawBoard(Flags(s))
  }

  /** A board is fixed by its flags once its counts are right. */
  lemma CountsDetermine(s: seq<Cell>, t: seq<Cell>, n: nat)
    requires Shaped(s, n) && Shaped(t, n) && CountsOk(s, n) && CountsOk(t, n)
    requires Flags(s) == Flags(t)
    ensures s == t
  {
    forall q | 0 <= q < n * n
      ensures s[q] == t[q]
    {
      var (a, b) := Coords(n, q);
      assert s[Idx(n, a, b)].count == t[Idx(n, a, b)].count;
    }
  }

  /** Decoding an encoded 0/1 board gives the board back. */
  lemma RoundTrip(raw: seq<Cell>, n: nat)
    requires n > 0 && |raw| == n * n && Binary(raw)
    ensures Decode(Encode(raw, n)) == raw
  {
    RawFlagsInverse(raw);
  }

  /** Encoding a decoded board gives it back, when its counts are right. */
  lemma EncodeDecode(s: seq<Cell>, n: nat)
    requires Shaped(s, n) && CountsOk(s, n)
    ensures Encode(Decode(s), n) == s
  {
    CountsDetermine(Encode(Decode(s), n), s, n);
  }

  /** g with every cell at flat index m or beyond cleared. */
  ghost function Mask(g: seq<bool>, m: int): (r: seq<bool>)
    ensures |r| == |g|
  {
    seq(|g|, q requires 0 <= q < |g| => g[q] && q < m)
  }

  /**
   * The invariant of the counting loop of preprocessing_board: the flags are
   * g, and each count holds the live neighbours among the cells before flat
   * index m.
   */
  ghost predicate Tallied(s: seq<Cell>, n: nat, g: seq<bool>, m: int)
  {
    Shaped(s, n) && Flags(s) == g &&
    forall a, b :: 0 <= a < n && 0 <= b < n ==> s[Idx(n, a, b)].count == LiveAround(Mask(g, m), n, a, b)
  }

  /** Adding the neighbours of a live cell (i, j) extends the tally past it. */
  lemma TallyLive(s: seq<Cell>, n: nat, g: seq<bool>, i: nat, j: nat, m: nat)
    requires i < n && j < n && m == Idx(n, i, j) && Tallied(s, n, g, m) && g[m]
    ensures Tallied(Spread(s, n, i, j, true), n, g, m + 1)
  {
    var before, after := Mask(g, m), Mask(g, m + 1);
    assert after == before[m := true];
    var r := Spread(s, n, i, j, true);
    forall a, b | 0 <= a < n && 0 <= b < n
      ensures r[Idx(n, a, b)].count == LiveAround(after, n, a, b)
    {
      LiveAroundFlip(before, n, a, b, m, true);
      HitsSymmetric(n, a, b, i, j);
    }
  }

  /** A dead cell at flat index m leaves the tally as it is and extends it past (i, j). */
  lemma TallyDead(s: seq<Cell>, n: nat, g: seq<bool>, m: nat)
    requires m < |g| && Tallied(s, n, g, m) && !g[m]
    ensures Tallied(s, n, g, m + 1)
  {
    assert Mask(g, m + 1) == Mask(g, m);
  }

  /** The first loop's result: every char packed, with its flag and a zero count. */
  ghost function Seeded(raw: seq<Cell>): (s: seq<Cell>)
    ensures |s| == |raw| && Encoded(s) && Flags(s) == RawFlags(raw)
  {
    seq(|raw|, q requires 0 <= q < |raw| => Packed(raw[q] == Raw(1), 0))
  }

  /** Before any neighbour is added, the seeded board is an empty tally. */
  lemma SeededTally(raw: seq<Cell>, n: nat)
    requires n > 0 && |raw| == n * n
    ensures Tallied(Seeded(raw), n, RawFlags(raw), 0)
  {
    var g := RawFlags(raw);
    forall a, b | 0 <= a < n && 0 <= b < n
      ensures Seeded(raw)[Idx(n, a, b)].count == LiveAround(Mask(g, 0), n, a, b)
    {
      var z := Mask(g, 0);
      assert !z[Nb(n, a, b, 0)] && !z[Nb(n, a, b, 1)] && !z[Nb(n, a, b, 2)] && !z[Nb(n, a, b, 3)];
      assert !z[Nb(n, a, b, 4)] && !z[Nb(n, a, b, 5)] && !z[Nb(n, a, b, 6)] && !z[Nb(n, a, b, 7)];
    }
  }

  /** A tally past the last cell is the full count invariant. */
  lemma TallyDone(s: seq<Cell>, n: nat, g: seq<bool>, m: int)
    requires Tallied(s, n, g, m) && m >= |g|
    ensures CountsOk(s, n)
  {
    assert Mask(g, m) == g;
  }

  /**
   * `preprocessing_board(inboard, outboard, size)`: marks the live chars of
   * `inboard` as packed live cells, adds one to each neighbour slot of every
   * live cell, and copies the result into `outboard` (memmove).  The
   * encoding is done on `inboard` itself.
   */
  method Preprocess(inboard: array<Cell>, outboard: array<Cell>, size: nat)
    requires size > 0 && inboard.Length == size * size && outboard.Length == size * size
    requires Binary(inboard[..])
    modifies inboard, outboard
    ensures inboard[..] == Encode(old(inboard[..]), size)
    ensures outboard[..] == inboard[..]
  {
    var board := inboard;
    EncodeInPlace(board, size);
    WholeCopy(outboard[..], inboard[..]);
    MemCopy(outboard, inboard, 0, size * size);
  }

  /** A copy of every char of y over x leaves y. */
  lemma WholeCopy(x: seq<Cell>, y: seq<Cell>)
    requires |x| == |y|
    ensures x[..0] + y[0..|y|] + x[|y|..] == y
  {
  }

  /** The two loops of preprocessing_board, which encode `board` in place. */
  method EncodeInPlace(board: array<Cell>, size: nat)
    requires size > 0 && board.Length == size * size && Binary(board[..])
    modifies board
    ensures board[..] == Encode(old(board[..]), size)
  {
    ghost var raw := board[..];
    MarkLive(board, size);
    SeededTally(raw, size);
    CountNeighbours(board, size, RawFlags(raw));
    CountsDetermine(board[..], Encode(raw, size), size);
  }

  /** The first loop of preprocessing_board: each char 1 becomes a packed live cell. */
  method MarkLive(board: array<Cell>, size: nat)
    requires board.Length == size * size && Binary(board[..])
    modifies board
    ensures board[..] == Seeded(old(board[..]))
  {
    ghost var raw := board[..];
    var total_size := size * size;
    var i := 0;
    while i < total_size
      invariant 0 <= i <= total_size
      invariant forall q :: 0 <= q < i ==> board[q] == Seeded(raw)[q]
      invariant forall q :: i <= q < total_size ==> board[q] == raw[q]
    {
      if board[i] == Raw(1) {
        board[i] := Spawn(Packed(false, 0));
      } else {
        // the zero char, read from now on as a dead cell with no live neighbours
        board[i] := Packed(false, 0);
      }
      i := i + 1;
    }
  }

  /**
   * The nested loop of preprocessing_board: N_INC on the eight neighbours of
   * every live cell, row by row.  From an empty tally it reaches the count
   * invariant and leaves every flag alone.
   */
  method CountNeighbours(board: array<Cell>, size: nat, ghost g: seq<bool>)
    requires Tallied(board[..], size, g, 0)
    modifies board
    ensures Shaped(board[..], size) && Flags(board[..]) == g && CountsOk(board[..], size)
  {
    ghost var m := 0;
    var i := 0;
    while i < size
      invariant 0 <= i <= size && m == RowStart(size, i)
      invariant Tallied(board[..], size, g, m)
    {
      CountRow(board, size, g, i, m);
      m := m + size;
      i := i + 1;
    }
    RowStartEnd(size);
    TallyDone(board[..], size, g, m);
  }

  /** One pass of the inner loop: the live cells of row i add to their neighbours. */
  method CountRow(board: array<Cell>, size: nat, ghost g: seq<bool>, i: nat, ghost row: nat)
    requires i < size && row == RowStart(size, i) && Tallied(board[..], size, g, row)
    modifies board
    ensures Tallied(board[..], size, g, row + size)
  {
    ghost var m := row;
    var j := 0;
    while j < size
      invariant 0 <= j <= size && m == row + j
      invariant Tallied(board[..], size, g, m)
    {
      ghost var before := board[..];
      RowStartIdx(size, i, j);
      if board[Idx(size, i, j)].alive {
        TouchNeighbours(board, size, i, j, true);
        TallyLive(before, size, g, i, j, m);
      } else {
        TallyDead(before, size, g, m);
      }
      m := m + 1;
      j := j + 1;
    }
  }

  /** The flat index of the first cell of row i, as the row loops reach it. */
  function RowStart(n: nat, i: nat): (r: nat)
  {
    if i == 0 then 0 else RowStart(n, i - 1) + n
  }

  lemma {:induction false} RowStartIdx(n: nat, i: nat, j: nat)
    requires i < n && j < n
    ensures RowStart(n, i) + j == Idx(n, i, j)
  {
    if i > 0 {
      RowStartIdx(n, i - 1, j);
    }
  }

  lemma RowStartEnd(n: nat)
    ensures RowStart(n, n) == n * n
  {
    RowStartMul(n, n);
  }

  lemma {:induction false} RowStartMul(n: nat, i: nat)
    ensures RowStart(n, i) == i * n
  {
    if i > 0 {
      RowStartMul(n, i - 1);
    }
  }

  /**
   * `postprocessing_board(board, nrows, ncols)`: every one of the first
   * nrows * ncols chars becomes its alive flag as a 0/1 char.
   */
  method Postprocess(board: array<Cell>, nrows: nat, ncols: nat)
    requires nrows * ncols <= board.Length && Encoded(board[..nrows * ncols])
    modifies board
    ensures board[..] == Decode(old(board[..nrows * ncols])) + old(board[nrows * ncols..])
  {
    var total_size := nrows * ncols;
    ghost var s := board[..];
    var i := 0;
    while i < total_size
      invariant 0 <= i <= total_size
      invariant forall q :: 0 <= q < i ==> board[q] == Raw(if s[q].alive then 1 else 0)
      invariant forall q :: i <= q < board.Length ==> board[q] == s[q]
    {
      board[i] := Raw(if board[i].alive then 1 else 0);
      i := i + 1;
    }
    assert board[..] == Decode(s[..total_size]) + s[total_size..];
  }
}
