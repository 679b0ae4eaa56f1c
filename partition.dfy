/**
  How one generation step splits the rows of the grid among the worker
  tasks: `threads` contiguous chunks of `rows / threads` rows each, the
  last chunk running to the end of the grid and so taking the remainder.
  When there are more tasks than rows the chunk size is 0, every chunk
  but the last is empty, and the last one takes every row.
 */
module Partition {

  /** Rows per chunk: the integer quotient, as the engine's `rows / numThreads`. */
  function ChunkSize(rows: nat, threads: nat): (cs: nat)
    requires threads > 0
    ensures cs * threads <= rows < (cs + 1) * threads
  {
    rows / threads
  }

  /** First row of chunk t: t chunk sizes in; for every chunk index up to `threads` it lies within the grid. */
  function ChunkStart(rows: nat, threads: nat, t: nat): (s: nat)
    requires threads > 0
    ensures t <= threads ==> s <= rows
  {
    t * ChunkSize(rows, threads)
  }

  /** One past the last row of chunk t: the grid's end for the last chunk. */
  function ChunkEnd(rows: nat, threads: nat, t: nat): (e: nat)
    requires threads > 0 && t < threads
    ensures ChunkStart(rows, threads, t) <= e <= rows
  {
    ChunkBounds(rows, threads, t);
    if t == threads - 1 then rows else ChunkStart(rows, threads, t) + ChunkSize(rows, threads)
  }

  /** No chunk but the last reaches past the grid: (t + 1) * (rows / threads) <= rows. */
  lemma ChunkBounds(rows: nat, threads: nat, t: nat)
    requires threads > 0 && t < threads
    ensures t < threads - 1 ==> ChunkStart(rows, threads, t) + ChunkSize(rows, threads) <= rows
  {
    var cs := ChunkSize(rows, threads);
    assert threads * cs <= rows;
    MulMonotone(t + 1, threads, cs);
    assert (t + 1) * cs == t * cs + cs;
  }

  lemma MulMonotone(a: nat, b: nat, c: nat)
    requires a <= b
    ensures a * c <= b * c
  {
  }

  /** Row `row` belongs to chunk `t`. */
  predicate InChunk(rows: nat, threads: nat, t: nat, row: int)
    requires threads > 0
  {
    t < threads && ChunkStart(rows, threads, t) <= row < ChunkEnd(rows, threads, t)
  }

  /** The chunks cover the grid from end to end: the first starts at row 0, the last ends at `rows`. */
  lemma ChunksCover(rows: nat, threads: nat)
    requires threads > 0
    ensures ChunkStart(rows, threads, 0) == 0
    ensures ChunkEnd(rows, threads, threads - 1) == rows
  {
  }

  /** The chunks tile the rows in order without gaps: each starts where the previous one ends. */
  lemma ChunksTile(rows: nat, threads: nat, t: nat)
    requires threads > 0 && t < threads
    ensures t + 1 < threads ==> ChunkEnd(rows, threads, t) == ChunkStart(rows, threads, t + 1)
  {
    assert (t + 1) * ChunkSize(rows, threads) == t * ChunkSize(rows, threads) + ChunkSize(rows, threads);
  }

  /** The chunk that owns row `row`: every row of the grid lies in some chunk. */
  function ChunkOf(rows: nat, threads: nat, row: nat): (t: nat)
    requires threads > 0 && row < rows
    ensures InChunk(rows, threads, t, row)
  {
    var cs := ChunkSize(rows, threads);
    if cs == 0 then
      threads - 1
    else
      var q := row / cs;
      assert q * cs <= row < (q + 1) * cs;
      if q < threads - 1 then
        q
      else
        MulMonotone(threads - 1, q, cs);
        threads - 1
  }

  /** Chunks come in row order: an earlier chunk ends no later than a later one starts. */
  lemma ChunksOrdered(rows: nat, threads: nat, u: nat, t: nat)
    requires threads > 0 && u < t < threads
    ensures ChunkEnd(rows, threads, u) <= ChunkStart(rows, threads, t)
  {
    var cs := ChunkSize(rows, threads);
    MulMonotone(u + 1, t, cs);
    assert (u + 1) * cs == u * cs + cs;
  }

  /** No row lies in two chunks, so no cell is written by two tasks. */
  lemma ChunksDisjoint(rows: nat, threads: nat, t1: nat, t2: nat, row: int)
    requires threads > 0
    requires InChunk(rows, threads, t1, row) && InChunk(rows, threads, t2, row)
    ensures t1 == t2
  {
    if t1 < t2 {
      ChunksOrdered(rows, threads, t1, t2);
    } else if t2 < t1 {
      ChunksOrdered(rows, threads, t2, t1);
    }
  }

  /** Together: every row of the grid lies in exactly one chunk. */
  lemma ExactlyOneChunk(rows: nat, threads: nat, row: nat)
    requires threads > 0 && row < rows
    ensures exists t :: InChunk(rows, threads, t, row)
    ensures forall t1, t2 :: InChunk(rows, threads, t1, row) && InChunk(rows, threads, t2, row) ==> t1 == t2
  {
    var t := ChunkOf(rows, threads, row);
    assert InChunk(rows, threads, t, row);
    forall t1, t2 | InChunk(rows, threads, t1, row) && InChunk(rows, threads, t2, row)
      ensures t1 == t2
    {
      ChunksDisjoint(rows, threads, t1, t2, row);
    }
  }
}
