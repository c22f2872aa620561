/**
 * Row partitioning of worker_fuction_by_rows_encoding: the slice of rows a
 * worker owns, the two boundary locks it uses, and the three row bands in
 * which it sweeps its slice.  NUM_THREADS is defined outside life.c, so the
 * worker count is a parameter here.
 */
module Partition {

  /** `slice_size = nrows / NUM_THREADS`. */
  function SliceSize(nrows: nat, workers: nat): (r: nat)
    requires workers > 0
    ensures nrows % workers == 0 ==> workers * r == nrows
  {
    nrows / workers
  }

  /** `start = ith_slice * slice_size`. */
  function SliceStart(nrows: nat, workers: nat, k: nat): nat
    requires workers > 0
  {
    k * SliceSize(nrows, workers)
  }

  /** `end = start + slice_size`. */
  function SliceEnd(nrows: nat, workers: nat, k: nat): (r: nat)
    requires workers > 0
    ensures r == SliceStart(nrows, workers, k + 1)
  {
    SliceStart(nrows, workers, k) + SliceSize(nrows, workers)
  }

  /** Index of the upper boundary lock of slice k: `boundary_locks[ith_slice]`. */
  function UpperLock(workers: nat, k: nat): (r: nat)
    requires k < workers
    ensures r < workers
  {
    k
  }

  /** Index of the lower boundary lock of slice k: `boundary_locks[(ith_slice + 1) % NUM_THREADS]`. */
  function LowerLock(workers: nat, k: nat): (r: nat)
    requires k < workers
    ensures r < workers
  {
    (k + 1) % workers
  }

  /**
   * The locks form a ring: the lower lock of slice k is the upper lock of the
   * next slice (wrapping after the last), and two distinct slices share a lock
   * only when they are adjacent in that ring.
   */
  lemma LocksShared(workers: nat, k: nat)
    requires k < workers
    ensures LowerLock(workers, k) == UpperLock(workers, (k + 1) % workers)
    ensures forall m :: 0 <= m < workers && UpperLock(workers, m) == LowerLock(workers, k) ==> m == (k + 1) % workers
    ensures workers > 1 ==> UpperLock(workers, k) != LowerLock(workers, k)
  {
  }

  /** Slices follow one another: slice k + 1 starts where slice k ends. */
  lemma SlicesAdjacent(nrows: nat, workers: nat, k: nat)
    requires workers > 0
    ensures SliceEnd(nrows, workers, k) == SliceStart(nrows, workers, k + 1)
  {
  }

  /** With nrows a multiple of the worker count, the last slice ends at the last row. */
  lemma SlicesReachEnd(nrows: nat, workers: nat)
    requires workers > 0 && nrows % workers == 0
    ensures SliceStart(nrows, workers, workers) == nrows
    ensures SliceEnd(nrows, workers, workers - 1) == nrows
  {
  }

  /** Every slice lies inside the board. */
  lemma SliceWithin(nrows: nat, workers: nat, k: nat)
    requires workers > 0 && nrows % workers == 0 && k < workers
    ensures SliceEnd(nrows, workers, k) <= nrows
  {
    ExactSlices(nrows, workers);
    MulMono(k + 1, workers, SliceSize(nrows, workers));
  }

  /** Row r lies in slice k. */
  predicate InSlice(nrows: nat, workers: nat, k: nat, r: nat)
    requires workers > 0
  {
    k < workers && SliceStart(nrows, workers, k) <= r < SliceEnd(nrows, workers, k)
  }

  /**
   * Slices are disjoint and cover all rows: when nrows is a multiple of the
   * worker count, every row lies in exactly one slice.
   */
  lemma SlicesTile(nrows: nat, workers: nat, r: nat)
    requires workers > 0 && nrows % workers == 0 && r < nrows
    ensures exists k: nat :: InSlice(nrows, workers, k, r)
    ensures forall k1: nat, k2: nat :: InSlice(nrows, workers, k1, r) && InSlice(nrows, workers, k2, r) ==> k1 == k2
  {
    var s := SliceSize(nrows, workers);
    ExactSlices(nrows, workers);
    var k := Owner(s, r);
    OwnerBounds(s, r);
    if k >= workers {
      MulMono(workers, k, s);
    }
    assert InSlice(nrows, workers, k, r);
    forall k1: nat, k2: nat | InSlice(nrows, workers, k1, r) && InSlice(nrows, workers, k2, r)
      ensures k1 == k2
    {
      SliceUnique(s, k1, k2, r);
    }
  }

  lemma ExactSlices(nrows: nat, workers: nat)
    requires workers > 0 && nrows % workers == 0
    ensures workers * SliceSize(nrows, workers) == nrows
  {
  }

  lemma SliceUnique(s: nat, k1: nat, k2: nat, r: nat)
    requires k1 * s <= r < k1 * s + s && k2 * s <= r < k2 * s + s
    ensures k1 == k2
  {
    if k1 < k2 {
      MulMono(k1 + 1, k2, s);
    } else if k2 < k1 {
      MulMono(k2 + 1, k1, s);
    }
  }

  /** The slice that row r falls in, counting slices of s rows. */
  function Owner(s: nat, r: nat): nat
    requires s > 0
    decreases r
  {
    if r < s then 0 else Owner(s, r - s) + 1
  }

  lemma {:induction false} OwnerBounds(s: nat, r: nat)
    requires s > 0
    ensures Owner(s, r) * s <= r < Owner(s, r) * s + s
  {
    if r >= s {
      OwnerBounds(s, r - s);
      assert Owner(s, r) * s == Owner(s, r - s) * s + s;
    }
  }

  lemma {:induction false} MulMono(lo: nat, hi: nat, s: nat)
    requires lo <= hi
    ensures lo * s <= hi * s
  {
    if lo < hi {
      MulMono(lo, hi - 1, s);
    }
  }

  /** The rows visited by `for (i = lo; i < hi; i++)`, in order. */
  function Rows(lo: int, hi: int): (r: seq<int>)
    decreases hi - lo
    ensures |r| == if lo < hi then hi - lo else 0
    ensures forall k :: 0 <= k < |r| ==> r[k] == lo + k
  {
    if lo < hi then [lo] + Rows(lo + 1, hi) else []
  }

  /**
   * The order in which a worker's sweep visits the rows of one column of its
   * slice [start, end): the upper boundary band, the interior band, the
   * lower boundary band.
   */
  function BandRows(start: int, end: int): (r: seq<int>)
    ensures end - start >= 4 ==> |r| == end - start
    ensures end - start >= 2 ==> forall k :: 0 <= k < |r| ==> start <= r[k] < end
  {
    Rows(start, start + 2) + Rows(start + 2, end - 2) + Rows(end - 2, end)
  }

  /** With at least four rows per slice the three bands visit each row once, in order. */
  lemma BandsCover(start: int, end: int)
    requires end - start >= 4
    ensures BandRows(start, end) == Rows(start, end)
  {
    var b := BandRows(start, end);
    assert |b| == end - start;
    forall k | 0 <= k < |b|
      ensures b[k] == Rows(start, end)[k]
    {
      if k < 2 {
      } else if k < end - start - 2 {
        assert b[k] == Rows(start + 2, end - 2)[k - 2];
      } else {
        assert b[k] == Rows(end - 2, end)[k - (end - start - 2)];
      }
    }
  }

  /** With three rows per slice the bands overlap and the middle row is visited twice. */
  lemma BandsOverlapOnShortSlice()
    ensures BandRows(0, 3) == [0, 1, 1, 2]
  {
    assert Rows(0, 2) == [0, 1];
    assert Rows(2, 1) == [];
    assert Rows(1, 3) == [1, 2];
  }
}
