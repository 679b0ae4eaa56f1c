/**
  The generation engine: a `rows` x `cols` toroidal grid held in two
  buffers, a current one and a scratch one. A step computes the next state
  of every cell into the scratch buffer, chunk by chunk, one chunk per
  worker task; then it swaps the buffers and updates the bookkeeping:
  the generation counter, the alive count of the last step, and the
  stability counter.

  The worker tasks are modelled as running one after another. That is
  sound for this engine: each task only reads the current buffer, which
  no task writes, and writes its own chunk of rows of the scratch buffer,
  and no row lies in two chunks (Partition.ChunksDisjoint).
 */
module Engine {
  import opened Life
  import opened Partition
  import opened Stability

  /** The contents of a two-dimensional buffer as a grid value. */
  ghost function Snapshot(a: array2<int>): (s: Grid)
    reads a
    ensures |s| == a.Length0 && Rectangular(s)
    ensures forall i :: 0 <= i < |s| ==> |s[i]| == a.Length1
    ensures a.Length0 > 0 ==> Width(s) == a.Length1
    ensures forall i, j :: 0 <= i < a.Length0 && 0 <= j < a.Length1 ==> s[i][j] == a[i, j]
  {
    seq(a.Length0, i requires 0 <= i < a.Length0 reads a =>
      seq(a.Length1, j requires 0 <= j < a.Length1 reads a => a[i, j]))
  }

  // Partial sums of the neighbour count, in the order the engine visits
  // the offsets: row offset -1, 0, 1, and within each, column offset -1, 0, 1.

  ghost predicate Around(g: Grid, x: int, y: int) {
    Rectangular(g) && 0 <= x < |g| && 0 <= y < Width(g)
  }

  /** The contribution of offset (i, j); the cell itself contributes nothing. */
  ghost function Term(g: Grid, x: int, y: int, i: int, j: int): int
    requires Around(g, x, y) && -1 <= i <= 1 && -1 <= j <= 1
  {
    if i == 0 && j == 0 then 0 else CellAt(g, x + i, y + j)
  }

  /** Offsets (i, -1) .. (i, j - 1). */
  ghost function RowTerms(g: Grid, x: int, y: int, i: int, j: int): int
    requires Around(g, x, y) && -1 <= i <= 1 && -1 <= j <= 2
  {
    (if j > -1 then Term(g, x, y, i, -1) else 0)
    + (if j > 0 then Term(g, x, y, i, 0) else 0)
    + (if j > 1 then Term(g, x, y, i, 1) else 0)
  }

  /** All offsets of rows -1 .. i - 1. */
  ghost function Terms(g: Grid, x: int, y: int, i: int): int
    requires Around(g, x, y) && -1 <= i <= 2
  {
    (if i > -1 then RowTerms(g, x, y, -1, 2) else 0)
    + (if i > 0 then RowTerms(g, x, y, 0, 2) else 0)
    + (if i > 1 then RowTerms(g, x, y, 1, 2) else 0)
  }

  class GameOfLife {
    const rows: nat
    const cols: nat
    var grid: array2<int>
    var nextGrid: array2<int>
    var generationCount: int
    const numThreads: nat
    var stableGenerationCounter: int
    var lastAliveCells: int

    /** Alive count recorded after each step so far, oldest first. */
    ghost var aliveHistory: seq<int>

    /** Two distinct buffers of the engine's dimensions and a positive worker count. */
    ghost predicate Shape()
      reads this
    {
      numThreads > 0
      && grid.Length0 == rows && grid.Length1 == cols
      && nextGrid.Length0 == rows && nextGrid.Length1 == cols
      && grid != nextGrid
    }

    /** The class invariant: the counters are what the alive-count history says they are. */
    ghost predicate Valid()
      reads this
    {
      Shape()
      && generationCount == |aliveHistory|
      && stableGenerationCounter == StableSteps(aliveHistory)
      && lastAliveCells == Last(aliveHistory)
    }

    /** Two dead buffers, every counter at 0. */
    constructor (rows: nat, cols: nat, nThreads: nat)
      requires nThreads > 0
      ensures Valid() && fresh(grid) && fresh(nextGrid)
      ensures this.rows == rows && this.cols == cols && numThreads == nThreads
      ensures AllDead(Snapshot(grid)) && AllDead(Snapshot(nextGrid))
      ensures generationCount == 0 && stableGenerationCounter == 0 && lastAliveCells == 0
      ensures aliveHistory == []
    {
      this.rows := rows;
      this.cols := cols;
      grid := new int[rows, cols]((i, j) => 0);
      nextGrid := new int[rows, cols]((i, j) => 0);
      numThreads := nThreads;
      generationCount := 0;
      stableGenerationCounter := 0;
      lastAliveCells := 0;
      aliveHistory := [];
    }

    /**
      Seeds the grid: cell (i, j) is alive exactly when the random draw
      for it exceeds `chance`. `draws[i][j]` is the value the random
      source yields for that cell. The counters are left as they are.
     */
    method InitializeGrid(chance: real, draws: seq<seq<real>>)
      requires Valid()
      requires |draws| == rows && forall i :: 0 <= i < rows ==> |draws[i]| == cols
      modifies grid
      ensures Valid()
      ensures forall i, j :: 0 <= i < rows && 0 <= j < cols ==>
        grid[i, j] == if draws[i][j] > chance then 1 else 0
      ensures Binary(Snapshot(grid))
    {
      for i := 0 to rows
        invariant forall r, j :: 0 <= r < i && 0 <= j < cols ==>
          grid[r, j] == if draws[r][j] > chance then 1 else 0
      {
        for j := 0 to cols
          invariant forall r, c :: 0 <= r < i && 0 <= c < cols ==>
            grid[r, c] == if draws[r][c] > chance then 1 else 0
          invariant forall c :: 0 <= c < j ==>
            grid[i, c] == if draws[i][c] > chance then 1 else 0
        {
          grid[i, j] := if draws[i][j] > chance then 1 else 0;
        }
      }
    }

    /** The number of live neighbours of (x, y) on the torus, as the specification counts them. */
    method CountLiveNeighbors(x: int, y: int) returns (count: int)
      requires Shape() && 0 <= x < rows && 0 <= y < cols
      ensures count == LiveNeighbors(Snapshot(grid), x, y)
    {
      ghost var g := Snapshot(grid);
      count := 0;
      for i := -1 to 2
        invariant count == Terms(g, x, y, i)
      {
        for j := -1 to 2
          invariant count == Terms(g, x, y, i) + RowTerms(g, x, y, i, j)
        {
          if i == 0 && j == 0 {
            continue;
          }
          WrapIsModulo(x + i, rows);
          WrapIsModulo(y + j, cols);
          var nx := (x + i + rows) % rows;
          var ny := (y + j + cols) % cols;
          count := count + grid[nx, ny];
        }
      }
    }

    /** The state of (x, y) in the next generation under the B3/S23 rule. */
    method ComputeNextState(x: int, y: int) returns (s: int)
      requires Shape() && 0 <= x < rows && 0 <= y < cols
      ensures s == NextState(Snapshot(grid), x, y)
    {
      var liveNeighbors := CountLiveNeighbors(x, y);
      if grid[x, y] == 1 {
        s := if liveNeighbors == 2 || liveNeighbors == 3 then 1 else 0;
      } else {
        s := if liveNeighbors == 3 then 1 else 0;
      }
    }

    /** One worker task: fills rows startRow .. endRow - 1 of the scratch buffer and touches no other row. */
    method ComputeChunk(startRow: int, endRow: int)
      requires Shape() && 0 <= startRow <= endRow <= rows
      modifies nextGrid
      ensures forall i, j :: startRow <= i < endRow && 0 <= j < cols ==>
        nextGrid[i, j] == NextGeneration(Snapshot(grid))[i][j]
      ensures forall i, j :: 0 <= i < rows && !(startRow <= i < endRow) && 0 <= j < cols ==>
        nextGrid[i, j] == old(nextGrid[i, j])
    {
      ghost var h := NextGeneration(Snapshot(grid));
      for i := startRow to endRow
        invariant unchanged(grid)
        invariant forall r, j :: startRow <= r < i && 0 <= j < cols ==> nextGrid[r, j] == h[r][j]
        invariant forall r, j :: 0 <= r < rows && !(startRow <= r < i) && 0 <= j < cols ==>
          nextGrid[r, j] == old(nextGrid[r, j])
      {
        ComputeRow(i);
      }
    }

    /** The inner loop of a worker task: fills row i of the scratch buffer. */
    method ComputeRow(i: int)
      requires Shape() && 0 <= i < rows
      modifies nextGrid
      ensures forall j :: 0 <= j < cols ==> nextGrid[i, j] == NextGeneration(Snapshot(grid))[i][j]
      ensures forall r, j :: 0 <= r < rows && r != i && 0 <= j < cols ==> nextGrid[r, j] == old(nextGrid[r, j])
    {
      ghost var h := NextGeneration(Snapshot(grid));
      for j := 0 to cols
        invariant unchanged(grid)
        invariant forall c :: 0 <= c < j ==> nextGrid[i, c] == h[i][c]
        invariant forall r, c :: 0 <= r < rows && r != i && 0 <= c < cols ==> nextGrid[r, c] == old(nextGrid[r, c])
      {
        var s := ComputeNextState(i, j);
        nextGrid[i, j] := s;
      }
    }

    /**
      The parallel phase of a step: one task per chunk of rows, together
      filling the whole scratch buffer with the next generation of the
      current grid, which they leave as it is.
     */
    method ComputeChunks()
      requires Shape()
      modifies nextGrid
      ensures Snapshot(nextGrid) == NextGeneration(Snapshot(grid))
    {
      ghost var h := NextGeneration(Snapshot(grid));
      var chunkSize := rows / numThreads;
      ghost var done := 0;
      for t := 0 to numThreads
        invariant unchanged(grid)
        invariant done == if t == 0 then 0 else ChunkEnd(rows, numThreads, t - 1)
        invariant t < numThreads ==> done == ChunkStart(rows, numThreads, t)
        invariant forall i, j :: 0 <= i < done && 0 <= j < cols ==> nextGrid[i, j] == h[i][j]
      {
        var startRow := t * chunkSize;
        var endRow := if t == numThreads - 1 then rows else startRow + chunkSize;
        assert startRow == ChunkStart(rows, numThreads, t) && endRow == ChunkEnd(rows, numThreads, t);
        ComputeChunk(startRow, endRow);
        ChunksTile(rows, numThreads, t);
        done := endRow;
      }
      ChunksCover(rows, numThreads);
      forall i | 0 <= i < rows
        ensures Snapshot(nextGrid)[i] == h[i]
      {
      }
    }

    /**
      Advances one generation: the chunks fill the scratch buffer with the
      next generation, the buffers swap, and the bookkeeping records the
      new alive count.
     */
    method ComputeNextGeneration()
      requires Valid()
      modifies this, nextGrid
      ensures Valid()
      ensures grid == old(nextGrid) && nextGrid == old(grid)
      ensures Snapshot(grid) == NextGeneration(old(Snapshot(grid)))
      ensures Snapshot(nextGrid) == old(Snapshot(grid))
      ensures aliveHistory == old(aliveHistory) + [AliveCount(Snapshot(grid))]
      ensures generationCount == old(generationCount) + 1
      ensures lastAliveCells == AliveCount(Snapshot(grid))
      ensures stableGenerationCounter == old(stableGenerationCounter)
        + (if old(generationCount) > 0 && AliveCount(Snapshot(grid)) == old(lastAliveCells) then 1 else 0)
      ensures old(stableGenerationCounter) <= stableGenerationCounter
      ensures forall generation :: old(CheckForStablePattern(generation)) ==> CheckForStablePattern(generation)
    {
      ComputeChunks();

      var temp := grid;
      grid := nextGrid;
      nextGrid := temp;

      UpdateStability();
    }

    /**
      The bookkeeping at the end of a step, on the freshly swapped grid: the
      stability counter goes up by one exactly when this is not the first
      step and the alive count equals the last one; then the alive count is
      recorded and the generation counter goes up.
     */
    method UpdateStability()
      requires Valid()
      modifies this
      ensures Valid()
      ensures grid == old(grid) && nextGrid == old(nextGrid)
      ensures aliveHistory == old(aliveHistory) + [AliveCount(Snapshot(grid))]
      ensures generationCount == old(generationCount) + 1
      ensures lastAliveCells == AliveCount(Snapshot(grid))
      ensures stableGenerationCounter == old(stableGenerationCounter)
        + (if old(generationCount) > 0 && AliveCount(Snapshot(grid)) == old(lastAliveCells) then 1 else 0)
    {
      if generationCount > 0 {
        var alive := GetAliveCells();
        if alive == lastAliveCells {
          stableGenerationCounter := stableGenerationCounter + 1;
        }
      }
      lastAliveCells := GetAliveCells();
      generationCount := generationCount + 1;
      StableStepsAppend(aliveHistory, lastAliveCells);
      aliveHistory := aliveHistory + [lastAliveCells];
    }

    /** The number of live cells (cells equal to 1) of the current grid. */
    method GetAliveCells() returns (count: int)
      requires Shape()
      ensures count == AliveCount(Snapshot(grid))
      ensures 0 <= count <= rows * cols
    {
      ghost var g := Snapshot(grid);
      count := 0;
      for i := 0 to rows
        invariant count == AliveCount(g[..i])
      {
        for j := 0 to cols
          invariant count == AliveCount(g[..i]) + RowAlive(g[i][..j])
        {
          assert g[i][..j + 1][..j] == g[i][..j];
          if grid[i, j] == 1 {
            count := count + 1;
          }
        }
        assert g[i][..cols] == g[i];
        assert g[..i + 1][..i] == g[..i];
      }
      assert g[..rows] == g;
    }

    /** The number of steps taken since construction. */
    function GetCurrentGeneration(): (n: int)
      reads this
      requires Valid()
      ensures n == |aliveHistory| && n >= 0
    {
      generationCount
    }

    /** True exactly when more than `generation` steps repeated the previous step's alive count. */
    function CheckForStablePattern(generation: int): (stable: bool)
      reads this
      requires Valid()
      ensures stable <==> Stable(aliveHistory, generation)
    {
      stableGenerationCounter > generation
    }
  }
}
