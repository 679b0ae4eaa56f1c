# Game of Life generation engine in Dafny

A model of the generation engine of a Conway's Game of Life simulator: the
`GameOfLife` class. It holds a `rows` x `cols` toroidal grid in two integer
buffers, the current grid and a scratch buffer. One step works in three
phases:

- the rows are cut into one chunk per worker task, and each task writes the
  next state of its rows into the scratch buffer;
- the two buffers swap references;
- the bookkeeping updates the generation counter, the alive count of the
  last step and a stability counter. The stability counter counts the steps
  whose alive count equals the previous step's.

Layout:

- `life.dfy` (module `Life`): the rule, stated on values. A grid is a
  `seq<seq<int>>`. This module holds the toroidal wrap, the neighbour count,
  B3/S23, one generation, `n` generations and the alive count. These
  functions are the specification the engine is proved against.
- `patterns.dfy` (module `Patterns`): classic patterns under that rule, for
  tori of any size at or above a small minimum. The 2x2 block is a still life
  and the blinker has period 2.
- `partition.dfy` (module `Partition`): the row chunks of a step. They tile
  the rows in order, and each row lies in exactly one chunk, also when there
  are more tasks than rows.
- `stability.dfy` (module `Stability`): the stability counter as a function
  of the history of alive counts. It is a cumulative latch: a step with a
  different count does not reset it.
- `engine.dfy` (module `Engine`): the class `GameOfLife`, with `array2<int>`
  buffers, in-place loops, the buffer swap and the counters. A ghost history
  of alive counts ties the counters to module `Stability`.

In the source, `computeNextGeneration` is one method whose worker lambda
holds the chunk loops. Here it is split into contracts of its own:

- `ComputeRow`: the inner loop;
- `ComputeChunk`: one task;
- `ComputeChunks`: the task loop;
- `UpdateStability`: the bookkeeping.

`ComputeNextGeneration` then chains them with the swap in between. The tasks
run one after another in the model. This matches the concurrent run: every
task reads only the current grid, which no task writes, and writes only its
own rows of the scratch buffer (`Partition.ChunksDisjoint`). The step's
contract does not mention the worker count: any count gives the same next
grid.

The code does not check `rows, cols > 0`; a 0-row or 0-column engine steps
without error, because no modulo is ever evaluated. The model takes `rows`
and `cols` as any `nat`.

## Model

| member | source | states |
|---|---|---|
| Life.Wrap | src/main/java/com/hassir/gameoflifegui/gameoflife/GameOfLife.java:101-102 | a row or column index moved at most one step past an edge lands back inside `[0, n)` |
| Life.WrapIsModulo | src/main/java/com/hassir/gameoflifegui/gameoflife/GameOfLife.java:101-102 | the engine's `(k + n) % n` has a non-negative left operand, so Java's and Dafny's `%` agree, and it equals the toroidal position |
| Life.LiveNeighbors | src/main/java/com/hassir/gameoflifegui/gameoflife/GameOfLife.java:94-107 | on a 0/1 grid the sum over the eight offsets other than (0, 0), each read through the wrap, lies in 0..8; on a torus with fewer than 3 rows or columns an offset can land on the cell itself or on a cell already counted, and every landing counts |
| Life.SmallTorusSelfCount | src/main/java/com/hassir/gameoflifegui/gameoflife/GameOfLife.java:94-107 | on a 1x3 torus a lone live cell counts itself twice and so survives; on a 1x1 torus a live cell counts itself eight times |
| Life.NextState | src/main/java/com/hassir/gameoflifegui/gameoflife/GameOfLife.java:85-92 | the next state is 0 or 1; it is 1 exactly when a live cell has 2 or 3 live neighbours, or a cell not equal to 1 has exactly 3 |
| Life.NextGeneration | src/main/java/com/hassir/gameoflifegui/gameoflife/GameOfLife.java:52-64 | one generation keeps the dimensions, yields a 0/1 grid, and sets every cell to its next state computed from the old grid |
| Life.Generations | src/main/java/com/hassir/gameoflifegui/gameoflife/GameOfLife.java:45-83 | `n` steps keep the dimensions, and after at least one step the grid is 0/1 |
| Life.GenerationsCompose | src/main/java/com/hassir/gameoflifegui/gameoflife/GameOfLife.java:45-83 | `n` steps followed by `m` steps equal `n + m` steps: no state is lost between calls |
| Life.GenerationsStep | src/main/java/com/hassir/gameoflifegui/gameoflife/GameOfLife.java:45-83 | one more step after `n` steps is step `n + 1` |
| Life.DeadGridStaysDead | src/main/java/com/hassir/gameoflifegui/gameoflife/GameOfLife.java:85-92 | an all-dead grid is unchanged by one step |
| Life.DeadGridStaysDeadForever | src/main/java/com/hassir/gameoflifegui/gameoflife/GameOfLife.java:45-83 | an all-dead grid is unchanged by any number of steps |
| Life.RowAlive | src/main/java/com/hassir/gameoflifegui/gameoflife/GameOfLife.java:112-116 | a row has at most as many live cells as it has cells |
| Life.AliveCount | src/main/java/com/hassir/gameoflifegui/gameoflife/GameOfLife.java:109-119 | the number of cells equal to 1 of a rectangular grid is at most rows x columns |
| Life.RowAliveZero | src/main/java/com/hassir/gameoflifegui/gameoflife/GameOfLife.java:112-116 | a row's alive count is 0 exactly when no cell equals 1 |
| Life.AliveCountZero | src/main/java/com/hassir/gameoflifegui/gameoflife/GameOfLife.java:109-119 | a grid's alive count is 0 exactly when no cell equals 1 |
| Patterns.BandRowAlive | src/main/java/com/hassir/gameoflifegui/gameoflife/GameOfLife.java:112-116 | a row whose live cells are the columns `left..right`, cut after `k` cells, has as many live cells as `0..k-1` shares with `left..right` |
| Patterns.BandAlive | src/main/java/com/hassir/gameoflifegui/gameoflife/GameOfLife.java:109-119 | a grid whose rows `top..bottom` hold `w` live cells each and the others none has alive count `w` times the number of those rows present |
| Patterns.RectAliveCount | src/main/java/com/hassir/gameoflifegui/gameoflife/GameOfLife.java:109-119 | a grid whose live cells form a `top..bottom` x `left..right` rectangle has exactly (bottom - top + 1) x (right - left + 1) live cells |
| Patterns.BlockShape | src/main/java/com/hassir/gameoflifegui/gameoflife/GameOfLife.java:109-119 | the block grid is a 0/1 grid of the given size whose live cells are exactly the four cells of the 2x2 square, so its alive count is 4 |
| Patterns.BlinkerHorizontalShape | src/main/java/com/hassir/gameoflifegui/gameoflife/GameOfLife.java:109-119 | the horizontal blinker is a 0/1 grid whose live cells are exactly the three cells of its row segment, so its alive count is 3 |
| Patterns.BlinkerVerticalShape | src/main/java/com/hassir/gameoflifegui/gameoflife/GameOfLife.java:109-119 | the vertical blinker is a 0/1 grid whose live cells are exactly the three cells of its column segment, so its alive count is 3 |
| Patterns.RectNextState | src/main/java/com/hassir/gameoflifegui/gameoflife/GameOfLife.java:85-107 | on a grid whose live cells form a rectangle, a cell's next state depends only on which of its three wrapped rows and three wrapped columns meet the rectangle |
| Patterns.BlockCellStays | src/main/java/com/hassir/gameoflifegui/gameoflife/GameOfLife.java:85-107 | on a torus of at least 3x3, every cell of a 2x2 block survives and no cell outside it is born |
| Patterns.BlockCell | src/main/java/com/hassir/gameoflifegui/gameoflife/GameOfLife.java:85-107 | on a torus of at least 3x3, the next state of every cell of a grid holding a 2x2 block is that cell's current value |
| Patterns.BlockIsStillLife | src/main/java/com/hassir/gameoflifegui/gameoflife/GameOfLife.java:52-71 | one step leaves a 2x2 block unchanged, anywhere it does not cross the grid's edge, on any torus of at least 3x3 |
| Patterns.BlockStaysForever | src/main/java/com/hassir/gameoflifegui/gameoflife/GameOfLife.java:45-83 | any number of steps leaves a 2x2 block unchanged |
| Patterns.HorizontalCellTurns | src/main/java/com/hassir/gameoflifegui/gameoflife/GameOfLife.java:85-107 | on a torus of at least 4x4, at every cell the rule turns a horizontal 1x3 bar into the vertical bar with the same centre |
| Patterns.VerticalCellTurns | src/main/java/com/hassir/gameoflifegui/gameoflife/GameOfLife.java:85-107 | at every cell the rule turns a vertical bar into the horizontal one |
| Patterns.HorizontalTurnsVertical | src/main/java/com/hassir/gameoflifegui/gameoflife/GameOfLife.java:52-71 | one step turns the horizontal blinker into the vertical blinker, compared as whole grids |
| Patterns.VerticalTurnsHorizontal | src/main/java/com/hassir/gameoflifegui/gameoflife/GameOfLife.java:52-71 | one step turns the vertical blinker into the horizontal blinker |
| Patterns.BlinkerOscillates | src/main/java/com/hassir/gameoflifegui/gameoflife/GameOfLife.java:45-83 | two steps bring the blinker back to its starting grid: period 2 |
| Partition.ChunkSize | src/main/java/com/hassir/gameoflifegui/gameoflife/GameOfLife.java:48 | the chunk size is the integer quotient of rows by tasks: `cs * n <= rows < (cs + 1) * n` |
| Partition.ChunkStart | src/main/java/com/hassir/gameoflifegui/gameoflife/GameOfLife.java:53 | the start `t * chunkSize` of any chunk index up to the number of tasks lies within the grid |
| Partition.ChunkEnd | src/main/java/com/hassir/gameoflifegui/gameoflife/GameOfLife.java:53-54 | a chunk never ends before it starts and never runs past the last row |
| Partition.ChunkBounds | src/main/java/com/hassir/gameoflifegui/gameoflife/GameOfLife.java:48-54 | every end before the last chunk, `(t + 1) * (rows / n)`, is at most `rows` |
| Partition.ChunksCover | src/main/java/com/hassir/gameoflifegui/gameoflife/GameOfLife.java:52-54 | the first chunk starts at row 0 and the last one ends at `rows` |
| Partition.ChunksTile | src/main/java/com/hassir/gameoflifegui/gameoflife/GameOfLife.java:52-54 | each chunk starts where the previous one ends |
| Partition.ChunkOf | src/main/java/com/hassir/gameoflifegui/gameoflife/GameOfLife.java:48-54 | every row of the grid lies in some chunk, also when there are more tasks than rows |
| Partition.ChunksOrdered | src/main/java/com/hassir/gameoflifegui/gameoflife/GameOfLife.java:52-54 | an earlier chunk ends no later than a later chunk starts |
| Partition.ChunksDisjoint | src/main/java/com/hassir/gameoflifegui/gameoflife/GameOfLife.java:52-61 | no row lies in two chunks, so no cell of the scratch buffer is written by two tasks |
| Partition.ExactlyOneChunk | src/main/java/com/hassir/gameoflifegui/gameoflife/GameOfLife.java:48-54 | every row lies in exactly one chunk |
| Stability.StableSteps | src/main/java/com/hassir/gameoflifegui/gameoflife/GameOfLife.java:76-78 | the number of steps that repeated the previous count is at most one less than the number of steps |
| Stability.StableStepsAppend | src/main/java/com/hassir/gameoflifegui/gameoflife/GameOfLife.java:76-80 | recording a count adds one exactly when an earlier count exists and equals it; the first step is never compared |
| Stability.StableLatch | src/main/java/com/hassir/gameoflifegui/gameoflife/GameOfLife.java:76-78 | further steps never lower the counter |
| Stability.RepeatedCount | src/main/java/com/hassir/gameoflifegui/gameoflife/GameOfLife.java:76-78 | `k` further steps that each repeat the last count raise the counter by exactly `k` |
| Stability.ConstantTail | src/main/java/com/hassir/gameoflifegui/gameoflife/GameOfLife.java:76-78 | a population unchanged over the last `k` comparisons gives a counter of at least `k` |
| Stability.Streak | src/main/java/com/hassir/gameoflifegui/gameoflife/GameOfLife.java:76-78 | the current run of unchanged counts, the consecutive reading of "stable", is at most one less than the number of steps |
| Stability.StreakBelowStableSteps | src/main/java/com/hassir/gameoflifegui/gameoflife/GameOfLife.java:76-78 | the cumulative counter is never below the current streak |
| Stability.CumulativeNotConsecutive | src/main/java/com/hassir/gameoflifegui/gameoflife/GameOfLife.java:76-78 | for the history 5, 5, 7, 7 the counter is 2 while the streak is 1: a change of count does not reset the counter |
| Stability.Stable | src/main/java/com/hassir/gameoflifegui/gameoflife/GameOfLife.java:127 | the strict comparison succeeds for every negative threshold, and for a threshold `g >= 0` only once at least `g + 2` counts have been recorded |
| Stability.StableStaysStable | src/main/java/com/hassir/gameoflifegui/gameoflife/GameOfLife.java:125-128 | once the check succeeds for a threshold it succeeds after any further steps |
| Engine.GameOfLife.constructor | src/main/java/com/hassir/gameoflifegui/gameoflife/GameOfLife.java:25-33 | two fresh, distinct, all-dead `rows` x `cols` buffers, every counter 0, an empty history |
| Engine.GameOfLife.InitializeGrid | src/main/java/com/hassir/gameoflifegui/gameoflife/GameOfLife.java:36-42 | each cell becomes 1 exactly when its draw exceeds `chance`, else 0, so the grid is 0/1; only the current buffer changes and the counters are left as they were |
| Engine.GameOfLife.CountLiveNeighbors | src/main/java/com/hassir/gameoflifegui/gameoflife/GameOfLife.java:94-107 | the two nested offset loops with the skip of (0, 0) and the modulo wrap compute exactly the specification's neighbour count |
| Engine.GameOfLife.ComputeNextState | src/main/java/com/hassir/gameoflifegui/gameoflife/GameOfLife.java:85-92 | the result is the B3/S23 next state of the cell in the current grid |
| Engine.GameOfLife.ComputeRow | src/main/java/com/hassir/gameoflifegui/gameoflife/GameOfLife.java:58-60 | row `i` of the scratch buffer becomes row `i` of the next generation and no other row changes |
| Engine.GameOfLife.ComputeChunk | src/main/java/com/hassir/gameoflifegui/gameoflife/GameOfLife.java:56-63 | one task fills its rows with the next generation and leaves all other rows of the scratch buffer as they were |
| Engine.GameOfLife.ComputeChunks | src/main/java/com/hassir/gameoflifegui/gameoflife/GameOfLife.java:46-66 | after all tasks the scratch buffer holds the whole next generation of the current grid, for any number of tasks |
| Engine.GameOfLife.ComputeNextGeneration | src/main/java/com/hassir/gameoflifegui/gameoflife/GameOfLife.java:45-83 | the step swaps the buffer references, and the current grid becomes the next generation of the old one with the same dimensions; the counters follow the stability rule, the counter never decreases and a succeeded check stays succeeded |
| Engine.GameOfLife.UpdateStability | src/main/java/com/hassir/gameoflifegui/gameoflife/GameOfLife.java:76-81 | the counter goes up by one exactly when this is not the first step and the alive count equals the last one; the last count becomes the alive count and the generation counter goes up by one |
| Engine.GameOfLife.GetAliveCells | src/main/java/com/hassir/gameoflifegui/gameoflife/GameOfLife.java:109-119 | the result is the number of cells equal to 1, between 0 and `rows * cols`, and nothing changes |
| Engine.GameOfLife.GetCurrentGeneration | src/main/java/com/hassir/gameoflifegui/gameoflife/GameOfLife.java:121-123 | the generation counter is the number of steps taken since construction |
| Engine.GameOfLife.CheckForStablePattern | src/main/java/com/hassir/gameoflifegui/gameoflife/GameOfLife.java:125-128 | the check succeeds exactly when more than `generation` steps repeated the previous step's alive count |

## Left out

- The worker pool, the latch and `InterruptedException` (GameOfLife.java:18, 32, 46, 56-66) are not modelled. The tasks run in sequence, for the reason given above.
- `generationTime` and `System.nanoTime` (GameOfLife.java:20, 50, 73): wall-clock timing has no logical content here.
- Engine.GameOfLife.InitializeGrid: `Math.random()` is not modelled. The caller supplies the draws as `draws[i][j]`, and the model places no bound on them. The statistical fill rate is not stated.
- Engine.GameOfLife.InitializeGrid: the `float` threshold and the `double` draws are modelled as `real`. The comparison is exact, and no rounding is modelled.
- The Lombok getters for `grid`, the executor and `generationTime` (GameOfLife.java:12-20): `grid` is a field of the class that callers can read. Writes to the grid through that exposed reference by outside code are not modelled.
- Java `int[][]` is modelled as a rectangular `array2<int>`. The source's buffers are always rectangular, and jagged or shared rows cannot arise inside the class.
- Engine.GameOfLife.constructor: a negative size (`NegativeArraySizeException`) and `nThreads <= 0` (thrown by the pool) are excluded by the types and the precondition.
- 32-bit `int` arithmetic is not modelled. The counters and the alive count are unbounded integers, so a wrap-around after 2^31 steps or cells does not occur in the model.
- Patterns.BlockIsStillLife, Patterns.BlockStaysForever: blocks are stated only where the 2x2 square does not cross the grid's edge (`r + 1 < rows`, `c + 1 < cols`). A block straddling the wrap seam is also a still life on the torus, but the pattern lemmas here do not cover it. The same holds for the blinker lemmas, whose bar lies away from the edge.
- The display driver (GameOfLifeGUI.java) is not part of this model. It seeds the grid, steps it on a timer, and stops once `checkForStablePattern(150)` succeeds.
