/**
 * The entry points of life.c: game_of_life, which picks a path by board
 * size, and parallel_game_of_life, which encodes the board, runs the
 * generations and decodes the result into `outboard`.
 */
module Life {
  import opened Cells
  import opened Board
  import opened Conway
  import opened Partition
  import opened Engine
  import opened Encoding

  datatype Option<T> = None | Some(value: T)

  /** The three outcomes of game_of_life's size test. */
  datatype Route = Sequential | Unsupported | Parallel

  /** game_of_life's choice: small boards first, then the size limit, then the parallel engine. */
  function Dispatch(nrows: int, ncols: int): (r: Route)
    ensures r == Parallel ==> 32 <= nrows <= 10000 && ncols <= 10000
  {
    if nrows < 32 then Sequential
    else if nrows > 10000 || ncols > 10000 then Unsupported
    else Parallel
  }

  /**
   * The row test comes first: any board with fewer than 32 rows goes to the
   * sequential path whatever its width; otherwise a side above 10000 is
   * refused, and every other size runs in parallel.
   */
  lemma DispatchRanges(nrows: int, ncols: int)
    ensures Dispatch(nrows, ncols) == Sequential <==> nrows < 32
    ensures Dispatch(nrows, ncols) == Unsupported <==> nrows >= 32 && (nrows > 10000 || ncols > 10000)
    ensures Dispatch(nrows, ncols) == Parallel <==> 32 <= nrows <= 10000 && ncols <= 10000
  {
  }

  /** The boundary sizes of the dispatch. */
  lemma DispatchBoundaries()
    ensures Dispatch(31, 31) == Sequential
    ensures Dispatch(31, 20000) == Sequential
    ensures Dispatch(32, 32) == Parallel
    ensures Dispatch(10000, 10000) == Parallel
    ensures Dispatch(10001, 10001) == Unsupported
    ensures Dispatch(32, 10001) == Unsupported
  {
  }

  /** The number of generations a `for (curgen = 0; curgen < gens_max; ++curgen)` loop runs. */
  function Rounds(gens_max: int): (r: nat)
    ensures gens_max >= 0 ==> r == gens_max
    ensures gens_max < 0 ==> r == 0
  {
    if gens_max < 0 then 0 else gens_max
  }

  /**
   * parallel_game_of_life with the workers run one after another: encode,
   * run gens_max generations, decode into `outboard`, return `outboard`.
   * The result is the raw board of the Conway evolution of the input, and
   * `inboard` is left holding the same generation in packed form.
   */
  method ParallelLife(outboard: array<Cell>, inboard: array<Cell>, nrows: nat, ncols: nat, gens_max: int,
                      workers: nat) returns (r: array<Cell>)
    requires outboard != inboard && nrows == ncols && nrows > 0
    requires inboard.Length == nrows * nrows && outboard.Length == nrows * nrows
    requires Binary(inboard[..])
    requires workers > 0 && nrows % workers == 0 && SliceSize(nrows, workers) >= 4
    modifies outboard, inboard
    ensures r == outboard
    ensures outboard[..] == RawBoard(Evolve(RawFlags(old(inboard[..])), nrows, Rounds(gens_max)))
    ensures inboard[..] == Encode(outboard[..], nrows)
  {
    Preprocess(inboard, outboard, nrows);
    RunGenerations(outboard, inboard, nrows, gens_max, workers);
    ghost var packed := outboard[..];
    WholeBoard(packed);
    Postprocess(outboard, nrows, nrows);
    EncodeDecode(packed, nrows);
    r := outboard;
  }

  lemma WholeBoard(s: seq<Cell>)
    requires Encoded(s)
    ensures Decode(s[..|s|]) + s[|s|..] == Decode(s)
  {
    assert s[..|s|] == s;
  }

  /**
   * Every worker's generation loop, run in lock step: the two barrier waits
   * of each generation make the workers' loops behave as one loop of
   * Generation.  The boards stay equal, keep their counts right and advance
   * by one Conway step per round.
   */
  method RunGenerations(outboard: array<Cell>, inboard: array<Cell>, nrows: nat, gens_max: int, workers: nat)
    requires outboard != inboard
    requires Shaped(inboard[..], nrows) && CountsOk(inboard[..], nrows) && outboard[..] == inboard[..]
    requires workers > 0 && nrows % workers == 0 && SliceSize(nrows, workers) >= 4
    modifies outboard, inboard
    ensures Shaped(inboard[..], nrows) && CountsOk(inboard[..], nrows) && outboard[..] == inboard[..]
    ensures Flags(inboard[..]) == Evolve(Flags(old(inboard[..])), nrows, Rounds(gens_max))
  {
    ghost var g := Flags(inboard[..]);
    var curgen := 0;
    while curgen < gens_max
      invariant 0 <= curgen <= Rounds(gens_max)
      invariant Shaped(inboard[..], nrows) && CountsOk(inboard[..], nrows)
      invariant outboard[..] == inboard[..]
      invariant Flags(inboard[..]) == Evolve(g, nrows, curgen)
    {
      Generation(outboard, inboard, nrows, workers);
      curgen := curgen + 1;
    }
    assert curgen == Rounds(gens_max);
  }

  /**
   * game_of_life: `sequential` is what sequential_game_of_life returns for
   * these boards (that function is not part of this model, so nothing is
   * said about what it does to the two boards).  A refused size gives None,
   * the source's NULL, and leaves both boards alone.
   */
  method GameOfLife(outboard: array<Cell>, inboard: array<Cell>, nrows: int, ncols: int, gens_max: int,
                    workers: nat, sequential: array<Cell>) returns (r: Option<array<Cell>>)
    requires Dispatch(nrows, ncols) == Parallel ==>
      outboard != inboard && nrows == ncols &&
      inboard.Length == nrows * nrows && outboard.Length == nrows * nrows && Binary(inboard[..]) &&
      workers > 0 && nrows % workers == 0 && SliceSize(nrows, workers) >= 4
    modifies outboard, inboard
    ensures Dispatch(nrows, ncols) == Sequential ==> r == Some(sequential)
    ensures Dispatch(nrows, ncols) == Unsupported ==> r == None
    ensures Dispatch(nrows, ncols) == Unsupported ==> unchanged(outboard) && unchanged(inboard)
    ensures Dispatch(nrows, ncols) == Parallel ==>
      r == Some(outboard) &&
      outboard[..] == RawBoard(Evolve(RawFlags(old(inboard[..])), nrows, Rounds(gens_max)))
  {
    if nrows < 32 {
      r := Some(sequential);
    } else if nrows > 10000 || ncols > 10000 {
      r := None;
    } else {
      var board := ParallelLife(outboard, inboard, nrows, ncols, gens_max, workers);
      r := Some(board);
    }
  }
}
