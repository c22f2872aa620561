/**
 * One char of a life.c board.  Before preprocessing_board and after
 * postprocessing_board the char is a raw 0/1 value; in between it is packed
 * as an alive flag and a live-neighbour count.  The packing macros (ALIVE,
 * SPAWN, KILL, N_INC, N_DEC, TOKILL, TOSPAWN) are defined in util.h, which is
 * not part of this model, so the packed cell is kept abstract.
 */
module Cells {

  datatype Cell = Raw(value: int) | Packed(alive: bool, count: int)

  /** `SPAWN(c)`: set the alive flag, keep the count. */
  function Spawn(c: Cell): (r: Cell)
    requires c.Packed?
    ensures r.Packed? && r.alive && r.count == c.count
  {
    Packed(true, c.count)
  }

  /** `KILL(c)`: clear the alive flag, keep the count. */
  function Kill(c: Cell): (r: Cell)
    requires c.Packed?
    ensures r.Packed? && !r.alive && r.count == c.count
  {
    Packed(false, c.count)
  }

  /** `N_INC(c)` when `up`, `N_DEC(c)` otherwise: move the count, keep the flag. */
  function Bump(c: Cell, up: bool): (r: Cell)
    requires c.Packed?
    ensures r.Packed? && r.alive == c.alive
    ensures r.count == if up then c.count + 1 else c.count - 1
  {
    Packed(c.alive, if up then c.count + 1 else c.count - 1)
  }

  /** `TOKILL(c)`: a live cell whose neighbour count is neither 2 nor 3. */
  predicate ToKill(c: Cell): (r: bool)
    requires c.Packed?
    ensures r ==> c.alive
    ensures c.alive && (c.count < 2 || c.count > 3) ==> r
  {
    c.alive && c.count != 2 && c.count != 3
  }

  /** `TOSPAWN(c)`: a dead cell with exactly 3 live neighbours. */
  predicate ToSpawn(c: Cell): (r: bool)
    requires c.Packed?
    ensures r ==> !c.alive && !ToKill(c)
  {
    !c.alive && c.count == 3
  }

  /** Every char of the board is in packed form. */
  ghost predicate Encoded(s: seq<Cell>)
  {
    forall q :: 0 <= q < |s| ==> s[q].Packed?
  }

  /** Every char of the board is a raw 0 or 1, as loaded from a file. */
  ghost predicate Binary(s: seq<Cell>)
  {
    forall q :: 0 <= q < |s| ==> s[q] == Raw(0) || s[q] == Raw(1)
  }

  /** The alive flags of a packed board. */
  function Flags(s: seq<Cell>): (g: seq<bool>)
    requires Encoded(s)
    ensures |g| == |s| && forall q :: 0 <= q < |s| ==> g[q] == s[q].alive
  {
    seq(|s|, q requires 0 <= q < |s| => s[q].alive)
  }
}
