# Game of Life engine of life.c, modelled in Dafny

`life.c` runs Conway's Game of Life on a square board that wraps around at
its edges (a torus). A cell is born with exactly 3 live neighbours and
survives with 2 or 3. The board is a flat `char` array stored row by row.

Between `preprocessing_board` and `postprocessing_board`, each char holds two
things: an alive flag and the number of live neighbours. The counts are not
recounted each generation. They are updated incrementally:
- `kill_cell` clears a flag and decrements the eight neighbours' counts.
- `spawn_cell` sets a flag and increments them.
- `do_cell` decides, from `inboard` alone, whether a cell is killed or
  spawned in `outboard`.

`worker_fuction_by_rows_encoding` gives each worker a slice of rows. For each
generation, a worker sweeps its slice column by column in three bands:
1. the two upper boundary rows, under the upper boundary lock;
2. the interior rows;
3. the two lower boundary rows, under the lower boundary lock.

It then copies its slice from `outboard` back into `inboard`. Two barrier
waits separate the sweep, the copy and the next generation.
`game_of_life` picks one of three paths by size:
- boards with fewer than 32 rows go to the sequential path;
- other boards with a side above 10000 get `NULL`;
- every other size goes to `parallel_game_of_life`.

The model has these modules:

- `Torus`: row-major indexing, non-negative wrap-around and the eight
  neighbour slots. The slots are taken in the order the source touches them:
  NW, N, NE, W, E, SW, S, SE. Neighbour counts are slot by slot, so on a
  board of side 1 or 2 a cell reached through several slots counts several
  times, exactly as the source's repeated `N_INC` does.
- `Cells`: the char as `Raw(value)` (before encoding and after decoding) or
  `Packed(alive, count)`. The macros `SPAWN`, `KILL`, `N_INC`/`N_DEC`,
  `TOKILL` and `TOSPAWN` act on the packed form.
- `Board`:
  - `kill_cell`, `spawn_cell` and `do_cell` as methods on an array;
  - their effect as functions on sequences;
  - the count invariant they preserve.
- `Conway`: the reference semantics, i.e. one generation and `k`
  generations computed directly from the grid of alive flags.
- `Partition`: slice, lock and band arithmetic of the worker.
- `Engine`: one generation with the workers run one after another. Every
  slice is swept first, then every slice is copied back; this is the order
  the barriers enforce.
- `Encoding`: `preprocessing_board` and `postprocessing_board`, and the
  encode/decode round trips.
- `Life`: `parallel_game_of_life` and `game_of_life`.

The comment at life.c:32-33 says that `preprocessing_board` leaves `inboard`
alone. The code does the opposite: it encodes `inboard` in place
(`board = inboard`) and then copies it into `outboard`. The model follows
the code, so `Encoding.Preprocess` changes `inboard`.

## Model

| member | source | states |
|---|---|---|
| Torus.Wrap | life.c:50-53 | `mod(x, size)` lands in [0, size): it is the identity on [0, size), maps -1 to size-1 and size to 0 |
| Torus.Idx | life.c:47 | `BOARD(b, i, j)` on a size-by-size board is an index inside the array |
| Torus.IdxInjective | life.c:47 | two cells share a flat index exactly when their coordinates are equal |
| Torus.FlatIndex | life.c:37-41 | every flat index visited by the flat loops is the `BOARD` index of one cell |
| Torus.Nb | life.c:293-305 | each of the eight wrapped neighbour slots is an index inside the board |
| Torus.NbIdx | life.c:293-305 | slot d of (i, j) is the `BOARD` index of (mod(i+di), mod(j+dj)) |
| Torus.Hits | life.c:298-305 | the number of neighbour slots of (i, j) that land on a given char is at most 8 |
| Torus.LiveAround | life.c:241-265 | the live-neighbour count a packed cell must hold is between 0 and 8 |
| Torus.NbSymmetric | life.c:293-305 | slot d of (a, b) is (i, j) exactly when slot 7-d of (i, j) is (a, b) |
| Torus.HitsSymmetric | life.c:298-305 | (i, j) occupies as many neighbour slots of (a, b) as (a, b) occupies of (i, j) |
| Torus.LiveAroundFlip | life.c:290-305 | flipping one cell moves a neighbour's live count by the number of slots the cell occupies, up for a spawn and down for a kill |
| Torus.CornerWraps | life.c:50-53 | on a torus of side at least 3, cell (0, 0) is a neighbour of (n-1, n-1), (n-1, 0) and (0, n-1) |
| Torus.WrapDistinct | life.c:293-296 | on a torus of side at least 3, `mod(i-1)`, `i` and `mod(i+1)` are three different rows |
| Torus.SlotsDistinct | life.c:293-305 | on a torus of side at least 3, the eight `N_INC`/`N_DEC` targets of a cell are eight different cells, none of them the cell itself |
| Torus.HitsAtMostOne | life.c:298-305 | on a torus of side at least 3, a cell's updates reach any char at most once and never the cell itself |
| Cells.Spawn | life.c:313 | `SPAWN` sets the alive flag and keeps the count |
| Cells.Kill | life.c:290 | `KILL` clears the alive flag and keeps the count |
| Cells.Bump | life.c:298-305 | `N_INC` adds one to the count and `N_DEC` subtracts one; both keep the flag |
| Cells.ToKill | life.c:241 | `TOKILL` only fires on a live cell, and always fires on a live cell with fewer than 2 or more than 3 live neighbours |
| Cells.ToSpawn | life.c:265 | `TOSPAWN` only fires on a dead cell, and never together with `TOKILL` |
| Cells.Flags | life.c:240 | the grid of `ALIVE` flags has one flag per char, equal to that char's flag |
| Board.CountsOk | life.c:286-329 | the invariant of the packed encoding: every count is the live-neighbour count, so it never exceeds 8 |
| Board.Spread | life.c:298-305 | eight `N_INC`/`N_DEC`: each char moves by the number of slots of (i, j) that land on it; flags are unchanged |
| Board.Toggle | life.c:286-329 | the effect of `kill_cell`/`spawn_cell` keeps the board a packed size-by-size board |
| Board.CellStep | life.c:237-284 | the effect of `do_cell` keeps the board a packed size-by-size board |
| Board.ToggleFrame | life.c:286-329 | after kill/spawn at (i, j), only (i, j) changes its flag; each count moves by the slots of (i, j) on it; every other char is untouched |
| Board.ToggleFlags | life.c:290 | after kill/spawn at (i, j), the flag grid is the old one with (i, j) set to the new value |
| Board.ToggleKeepsCounts | life.c:286-329 | if every count equals its live-neighbour count, `kill_cell` on a live cell and `spawn_cell` on a dead cell keep that true |
| Board.ToggleCommute | life.c:286-329 | kill/spawn at two different cells give the same board in either order |
| Board.CellStepCommute | life.c:128-133 | `do_cell` at two different cells gives the same `outboard` in either order, because it reads only `inboard` |
| Board.Adjust | life.c:298 | one `N_INC`/`N_DEC` changes exactly one char, by one |
| Board.TouchNeighbours | life.c:293-305 | the wrapped `jwest/jeast/inorth/isouth` updates produce exactly `Spread` |
| Torus.SlotNames | life.c:293-305 | the eight chars the source names through inorth/i/isouth and jwest/j/jeast are the eight neighbour slots, in order |
| Board.KillCell | life.c:286-307 | `kill_cell` leaves `outboard` equal to the kill effect at (i, j) |
| Board.SpawnCell | life.c:309-329 | `spawn_cell` leaves `outboard` equal to the spawn effect at (i, j) |
| Board.DoCell | life.c:237-284 | `do_cell` kills a live `TOKILL` cell, spawns a dead `TOSPAWN` cell, and otherwise leaves `outboard` as it was, judging only from `inboard` |
| Board.MemCopy | life.c:160 | `memcpy`/`memmove` of a run replaces exactly that run of the destination with the source's chars |
| Conway.NextAlive | life.c:240-265 | a cell is alive next only with 2 or 3 live neighbours; 3 always gives life; with 2 the cell keeps its state |
| Conway.Step | life.c:237-284 | one generation of the whole grid has one flag per cell |
| Conway.Evolve | life.c:100 | `k` generations keep the size of the grid |
| Conway.StepAt | life.c:240-265 | cell (a, b) of the next generation is alive when it has 3 live neighbours, or has 2 and is alive |
| Conway.StepUnique | life.c:237-284 | a grid that follows the birth/survival rule at every cell is the next generation |
| Conway.DeadStaysDead | life.c:263-265 | an all-dead grid stays all-dead for any number of generations |
| Conway.StepOfDead | life.c:263-265 | one generation of an all-dead grid is all-dead |
| Conway.LonelyDies | life.c:240-241 | a cell with fewer than two live neighbours is dead in the next generation |
| Conway.SingleCellVanishes | life.c:240-265 | on a torus of side at least 3, a single live cell dies in the next generation and no cell is born |
| Conway.Around | life.c:293-305 | a cell's live count is the sum over the eight cells named by `mod(i±1)` and `mod(j±1)` |
| Conway.BarTurns | life.c:237-284 | on a 5-by-5 torus a horizontal bar of three becomes a vertical one in one generation, and the reverse |
| Conway.BlinkerPeriod | life.c:100 | the blinker oscillates with period 2: one generation changes it, two bring it back |
| Partition.SliceSize | life.c:96 | `nrows / NUM_THREADS`; when the division is exact, the slices multiply back to nrows |
| Partition.SliceStart | life.c:97 | `ith_slice * slice_size` (no contract of its own; bounded by `SliceWithin`) |
| Partition.SliceEnd | life.c:98 | `start + slice_size`, which is where slice k+1 starts |
| Partition.UpperLock | life.c:94 | the upper lock of slice k is `boundary_locks[k]`, a valid lock index |
| Partition.LowerLock | life.c:95 | the lower lock of slice k is `boundary_locks[(k+1) % NUM_THREADS]`, a valid lock index |
| Partition.LocksShared | life.c:94-95 | the lower lock of slice k is the upper lock of slice (k+1) mod workers and of no other slice; with two or more workers a slice's two locks differ |
| Partition.SlicesAdjacent | life.c:96-98 | slice k+1 starts where slice k ends |
| Partition.SlicesReachEnd | life.c:96-98 | when nrows is a multiple of the worker count, the last slice ends at row nrows |
| Partition.SliceWithin | life.c:96-98 | every slice lies inside the board |
| Partition.SlicesTile | life.c:96-98 | when nrows is a multiple of the worker count, every row lies in exactly one slice |
| Partition.Rows | life.c:108 | a `for (i = lo; i < hi; i++)` loop visits hi-lo rows, lo first, in increasing order |
| Partition.BandRows | life.c:108-137 | the rows of the three band loops in order; with at least two rows each band stays inside [start, end), and with four or more they visit end-start rows |
| Partition.BandsCover | life.c:108-155 | with at least four rows per slice, the three bands visit every row of the slice exactly once, in order |
| Partition.BandsOverlapOnShortSlice | life.c:108-155 | with three rows per slice the bands visit the middle row twice |
| Engine.RuleMatches | life.c:240-265 | with correct counts, `TOKILL` on a live cell and `TOSPAWN` on a dead cell fire exactly when the cell's next state differs from its current one |
| Engine.SweptStep | life.c:237-284 | processing one cell keeps `outboard`'s counts correct and sets that cell's flag to its next generation |
| Engine.BoundaryCell | life.c:110-124 | a boundary-band body leaves `outboard` exactly as `do_cell` would |
| Engine.SweepRows | life.c:108-155 | a band loop advances the sweep over its rows |
| Engine.SweepColumn | life.c:108-155 | after the three bands of column j, every cell of column j in the slice holds its next generation in `outboard`, and counts stay correct |
| Engine.SweepSlice | life.c:102-156 | after the column loop, every cell of the slice holds its next generation in `outboard`, and counts stay correct |
| Engine.SweepAll | life.c:100-156 | after every worker's sweep, `outboard` holds the next generation everywhere, with correct counts |
| Engine.CopyAll | life.c:160 | after every worker's slice copy, `inboard` equals `outboard` |
| Engine.CopySlice | life.c:160 | one `memcpy` of a run extends the copied prefix of `inboard` over that run and leaves the rest as it was |
| Engine.Generation | life.c:100-162 | from equal boards with correct counts, one generation leaves both boards equal, with correct counts, and with the Conway step of the old flags |
| Encoding.RawFlags | life.c:38 | a raw char is alive exactly when it is 1 |
| Encoding.RawBoard | life.c:77 | writing flags as chars gives a 0/1 board whose chars are 1 exactly where the flag is set |
| Encoding.RawFlagsInverse | life.c:38-41 | a 0/1 board is recovered from its flags |
| Encoding.Encode | life.c:34-69 | the encoded board keeps every flag of the raw board and holds correct counts |
| Encoding.Decode | life.c:74-79 | decoding gives a 0/1 board with the same flags |
| Encoding.CountsDetermine | life.c:34-69 | two packed boards with the same flags and correct counts are equal, so the encoding is unique |
| Encoding.RoundTrip | life.c:38-41 | decoding the encoding of a 0/1 board gives the board back |
| Encoding.EncodeDecode | life.c:74-79 | encoding a decoded board with correct counts gives that board back |
| Encoding.TallyLive | life.c:47-62 | adding the neighbours of a live cell extends the partial counts past that cell |
| Encoding.TallyDead | life.c:47 | a dead cell extends the partial counts past itself without change |
| Encoding.SeededTally | life.c:37-42 | after the first loop every count is the (empty) partial count |
| Encoding.TallyDone | life.c:45-65 | partial counts past the last cell are the full count invariant |
| Encoding.Preprocess | life.c:34-69 | `inboard` becomes the encoding of its raw 0/1 board and `outboard` a copy of it |
| Encoding.EncodeInPlace | life.c:35-65 | the two loops turn `inboard` into its encoding |
| Encoding.MarkLive | life.c:37-42 | every 1 becomes a live packed cell and every 0 a dead one, all with count 0 |
| Encoding.CountNeighbours | life.c:45-65 | the nested loop brings every count to the number of live neighbours and keeps every flag |
| Encoding.CountRow | life.c:46-64 | one pass of the inner loop extends the partial counts over row i |
| Encoding.Postprocess | life.c:74-79 | the first nrows*ncols chars become their `ALIVE` value as 0/1, and nothing else changes |
| Life.Dispatch | life.c:177-187 | the parallel path is only taken for 32 <= nrows <= 10000 and ncols <= 10000 |
| Life.DispatchRanges | life.c:177-187 | sequential exactly when nrows < 32, whatever ncols; `NULL` exactly when nrows >= 32 and a side exceeds 10000; parallel otherwise |
| Life.DispatchBoundaries | life.c:177-187 | 31 rows go sequential, even with 20000 columns; 32 and 10000 go parallel; 10001 rows or columns give `NULL` |
| Life.Rounds | life.c:100 | the generation loop runs gens_max times, and none when gens_max is negative |
| Life.RunGenerations | life.c:100-163 | after gens_max generations the boards are equal, counts are correct, and the flags are the Conway evolution |
| Life.ParallelLife | life.c:193-234 | the returned `outboard` is the 0/1 board of the input's Conway evolution over gens_max generations; `inboard` holds its encoding |
| Life.GameOfLife | life.c:171-188 | small boards return the sequential result, oversized boards `NULL` with both boards untouched, and all other boards the parallel result; nothing is said about the boards on the sequential route |

## Left out

- Threads, the boundary mutexes and the barrier are not modelled. The workers
  run one after another: all sweeps of a generation, then all copies. This is
  the order the two barrier waits impose. `Board.CellStepCommute` states why
  the order of cells inside the sweep does not matter. Lock exclusion itself
  is not modelled.
- `sequential_game_of_life` is defined outside life.c and is not part of this
  model. `Life.GameOfLife` receives its result as the parameter `sequential`.
- Life.GameOfLife: on the sequential route (fewer than 32 rows) life.c:178
  hands both boards to `sequential_game_of_life`, which writes them. The
  model does not say what that call does to `outboard` and `inboard`; it
  only lists them in `modifies`.
- The bit layout of the `util.h` macros is not visible. The packed cell is an
  abstract (alive, count) pair. An unbounded count stands for the char's
  count field, which never leaves 0..8 while the counts are correct.
- `NUM_THREADS` is defined outside life.c. The worker count is a parameter.
- The global `LDA` is replaced by passing the size explicitly.
- Non-square boards are not modelled. The worker loops over `ncols` columns
  and copies `slice_size * ncols` chars, but passes `nrows` as the size to
  `kill_cell`/`spawn_cell`. That is only consistent when nrows == ncols, so
  `Life.ParallelLife` requires it.
- Slices shorter than four rows are not modelled. The sweep requires
  `nrows / workers >= 4`, and `Partition.BandsOverlapOnShortSlice` shows what
  goes wrong below that.
- `Encoding.Preprocess`, `Encoding.EncodeInPlace` and `Encoding.MarkLive`
  require a 0/1 input board. A char other than 0 or 1
  would be read through the invisible packed layout.
- A remainder of rows when nrows is not a multiple of the worker count is not
  modelled. `Engine.Generation` requires exact division.
- Board loading and saving, the timing harness and `#include <math.h>`
  (unused) are outside this file.
