/**
  The rule of Conway's Game of Life (B3/S23) on a toroidal grid, stated
  on values. A grid is a rectangular sequence of rows; a cell holds an
  integer, and only the value 1 means "alive", exactly as the engine
  compares `grid[x][y] == 1`. These functions are the specification the
  imperative engine (module Engine) is proved against.
 */
module Life {

  type Grid = seq<seq<int>>

  /** Number of columns: the length of the first row (0 for a grid with no rows). */
  function Width(g: Grid): nat {
    if |g| == 0 then 0 else |g[0]|
  }

  /** Every row has the same length. */
  predicate Rectangular(g: Grid) {
    forall i :: 0 <= i < |g| ==> |g[i]| == Width(g)
  }

  /** Every cell is 0 (dead) or 1 (alive). */
  predicate Binary(g: Grid) {
    forall i, j :: 0 <= i < |g| && 0 <= j < |g[i]| ==> g[i][j] == 0 || g[i][j] == 1
  }

  /** Every cell is 0. */
  predicate AllDead(g: Grid) {
    forall i, j :: 0 <= i < |g| && 0 <= j < |g[i]| ==> g[i][j] == 0
  }

  /**
    Toroidal index: `k` is a row (or column) index moved by at most one
    step past either edge, and the result is that position on a torus of
    size `n`: one step above the first row is the last row, one step
    below the last row is the first.
   */
  function Wrap(k: int, n: int): (r: int)
    requires n > 0 && -1 <= k <= n
    ensures 0 <= r < n
  {
    if k < 0 then n - 1 else if k == n then 0 else k
  }

  /**
    The engine computes the wrapped index as `(x + i + n) % n`; for the
    offsets it uses this is the toroidal position, and Java's `%` agrees
    with Dafny's here because the left operand is never negative.
   */
  lemma WrapIsModulo(k: int, n: int)
    requires n > 0 && -1 <= k <= n
    ensures k + n >= 0 && Wrap(k, n) == (k + n) % n
  {
    if k == n {
      assert (2 * n) % n == 0;
    }
  }

  /** The cell at row `x`, column `y`, each at most one step outside the grid, read on the torus. */
  function CellAt(g: Grid, x: int, y: int): int
    requires Rectangular(g) && |g| > 0 && Width(g) > 0
    requires -1 <= x <= |g| && -1 <= y <= Width(g)
  {
    g[Wrap(x, |g|)][Wrap(y, Width(g))]
  }

  /**
    The sum over the eight offsets other than (0, 0) around (x, y), each
    read through the wrap. On a torus with fewer than 3 rows or columns an
    offset can land on the cell itself or on a cell already counted; a cell
    is counted once per offset that lands on it, as the engine does.
   */
  function LiveNeighbors(g: Grid, x: int, y: int): (n: int)
    requires Rectangular(g) && 0 <= x < |g| && 0 <= y < Width(g)
    ensures Binary(g) ==> 0 <= n <= 8
  {
    CellAt(g, x - 1, y - 1) + CellAt(g, x - 1, y) + CellAt(g, x - 1, y + 1)
    + CellAt(g, x, y - 1) + CellAt(g, x, y + 1)
    + CellAt(g, x + 1, y - 1) + CellAt(g, x + 1, y) + CellAt(g, x + 1, y + 1)
  }

  /** B3/S23 on a cell's own liveness and its live-neighbour count `n`. */
  function Rule(alive: bool, n: int): int {
    if alive then (if n == 2 || n == 3 then 1 else 0)
    else (if n == 3 then 1 else 0)
  }

  /** On a 1x3 torus a lone live cell reads itself twice, so it survives on its own; on a 1x1 torus it reads itself eight times. */
  lemma SmallTorusSelfCount()
    ensures LiveNeighbors([[1, 0, 0]], 0, 0) == 2 && NextState([[1, 0, 0]], 0, 0) == 1
    ensures LiveNeighbors([[1]], 0, 0) == 8
  {
  }

  /**
    B3/S23: a live cell survives with 2 or 3 live neighbours, a dead cell
    (any value other than 1) is born with exactly 3; otherwise the result is dead.
   */
  function NextState(g: Grid, x: int, y: int): (s: int)
    requires Rectangular(g) && 0 <= x < |g| && 0 <= y < Width(g)
    ensures s == 0 || s == 1
    ensures s == 1 <==>
      (g[x][y] == 1 && (LiveNeighbors(g, x, y) == 2 || LiveNeighbors(g, x, y) == 3))
      || (g[x][y] != 1 && LiveNeighbors(g, x, y) == 3)
  {
    Rule(g[x][y] == 1, LiveNeighbors(g, x, y))
  }

  /** One generation: every cell replaced by its next state, all computed from `g`. */
  function NextGeneration(g: Grid): (h: Grid)
    requires Rectangular(g)
    ensures |h| == |g| && Rectangular(h) && Width(h) == Width(g)
    ensures Binary(h)
    ensures forall i, j :: 0 <= i < |g| && 0 <= j < Width(g) ==> h[i][j] == NextState(g, i, j)
  {
    seq(|g|, i requires 0 <= i < |g| =>
      seq(Width(g), j requires 0 <= j < Width(g) => NextState(g, i, j)))
  }

  /** `n` generations in a row. */
  function Generations(g: Grid, n: nat): (h: Grid)
    requires Rectangular(g)
    ensures |h| == |g| && Rectangular(h) && Width(h) == Width(g)
    ensures n > 0 ==> Binary(h)
    decreases n
  {
    if n == 0 then g else Generations(NextGeneration(g), n - 1)
  }

  /** Running n steps and then m more is the same as running n + m steps: no state is lost between calls. */
  lemma {:induction false} GenerationsCompose(g: Grid, n: nat, m: nat)
    requires Rectangular(g)
    ensures Generations(Generations(g, n), m) == Generations(g, n + m)
    decreases n
  {
    if n > 0 {
      GenerationsCompose(NextGeneration(g), n - 1, m);
    }
  }

  /** One more generation after n generations is n + 1 generations. */
  lemma GenerationsStep(g: Grid, n: nat)
    requires Rectangular(g)
    ensures Generations(g, n + 1) == NextGeneration(Generations(g, n))
  {
    GenerationsCompose(g, n, 1);
  }

  /** A dead grid is an absorbing state of one step. */
  lemma DeadGridStaysDead(g: Grid)
    requires Rectangular(g) && AllDead(g)
    ensures NextGeneration(g) == g
  {
    var h := NextGeneration(g);
    forall i | 0 <= i < |g|
      ensures h[i] == g[i]
    {
      forall j | 0 <= j < Width(g)
        ensures h[i][j] == g[i][j]
      {
        assert LiveNeighbors(g, i, j) == 0;
      }
    }
  }

  /** ... and of any number of steps. */
  lemma {:induction false} DeadGridStaysDeadForever(g: Grid, n: nat)
    requires Rectangular(g) && AllDead(g)
    ensures Generations(g, n) == g
    decreases n
  {
    if n > 0 {
      DeadGridStaysDead(g);
      DeadGridStaysDeadForever(g, n - 1);
    }
  }

  // ---------------------------------------------------------------------
  // Alive-cell count

  /** Number of cells of one row equal to 1. */
  function RowAlive(r: seq<int>): (k: nat)
    ensures k <= |r|
  {
    if r == [] then 0 else RowAlive(r[..|r| - 1]) + (if r[|r| - 1] == 1 then 1 else 0)
  }

  /** Number of cells of the grid equal to 1, row by row; never more than the number of cells. */
  function AliveCount(g: Grid): (k: nat)
    ensures Rectangular(g) ==> k <= |g| * Width(g)
  {
    if g == [] then 0
    else
      var p := g[..|g| - 1];
      assert Rectangular(g) ==> Rectangular(p) && |p| * Width(p) == (|g| - 1) * Width(g);
      assert (|g| - 1) * Width(g) + Width(g) == |g| * Width(g);
      AliveCount(p) + RowAlive(g[|g| - 1])
  }

  /** A row has no live cell exactly when its count is 0. */
  lemma {:induction false} RowAliveZero(r: seq<int>)
    ensures RowAlive(r) == 0 <==> forall j :: 0 <= j < |r| ==> r[j] != 1
  {
    if r != [] {
      RowAliveZero(r[..|r| - 1]);
      assert forall j :: 0 <= j < |r| - 1 ==> r[..|r| - 1][j] == r[j];
    }
  }

  /** The grid has no live cell exactly when its count is 0. */
  lemma {:induction false} AliveCountZero(g: Grid)
    ensures AliveCount(g) == 0 <==> forall i, j :: 0 <= i < |g| && 0 <= j < |g[i]| ==> g[i][j] != 1
  {
    if g != [] {
      AliveCountZero(g[..|g| - 1]);
      RowAliveZero(g[|g| - 1]);
      assert forall i :: 0 <= i < |g| - 1 ==> g[..|g| - 1][i] == g[i];
    }
  }
}
