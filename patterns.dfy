/**
  Classic patterns under the rule of module Life. Both are rectangles of
  live cells: the 2x2 block, a still life on any torus of at least 3x3
  cells, and the blinker (a 1x3 bar), which turns by a quarter on every
  step and so has period 2 on any torus of at least 4x4 cells.
 */
module Patterns {
  import opened Life

  /** 1 when both hold, else 0. */
  function Both(p: bool, q: bool): int {
    if p && q then 1 else 0
  }

  /** `k` lies in lo..hi. */
  predicate In(lo: int, hi: int, k: int) {
    lo <= k <= hi
  }

  /**
    A rows x cols grid whose live cells are exactly those in rows
    top..bottom and columns left..right (a rectangle that does not cross the edge).
   */
  function Rect(rows: nat, cols: nat, top: nat, bottom: nat, left: nat, right: nat): (g: Grid)
    requires top <= bottom < rows && left <= right < cols
    ensures |g| == rows && Rectangular(g) && Width(g) == cols && Binary(g)
    ensures forall i, j :: 0 <= i < rows && 0 <= j < cols ==>
      g[i][j] == Both(In(top, bottom, i), In(left, right, j))
  {
    seq(rows, i => seq(cols, j => Both(In(top, bottom, i), In(left, right, j))))
  }

  /** How many of the indices 0 .. k - 1 lie in lo..hi. */
  function Span(k: int, lo: nat, hi: nat): nat
    requires lo <= hi
  {
    if k <= lo then 0 else if k <= hi then k - lo else hi - lo + 1
  }

  /** A row whose live cells are the columns left..right, cut off after `|r|` cells. */
  lemma {:induction false} BandRowAlive(r: seq<int>, p: bool, left: nat, right: nat)
    requires left <= right
    requires forall j :: 0 <= j < |r| ==> r[j] == Both(p, In(left, right, j))
    ensures RowAlive(r) == if p then Span(|r|, left, right) else 0
  {
    if r != [] {
      BandRowAlive(r[..|r| - 1], p, left, right);
    }
  }

  lemma MulSucc(k: nat, w: nat)
    ensures (k + 1) * w == k * w + w
  {
  }

  /** Rows top..bottom hold `w` live cells each, the other rows none. */
  lemma {:induction false} BandAlive(g: Grid, top: nat, bottom: nat, w: nat)
    requires top <= bottom
    requires forall i :: 0 <= i < |g| ==> RowAlive(g[i]) == if In(top, bottom, i) then w else 0
    ensures AliveCount(g) == Span(|g|, top, bottom) * w
  {
    if g != [] {
      var p := g[..|g| - 1];
      assert forall i :: 0 <= i < |p| ==> p[i] == g[i];
      BandAlive(p, top, bottom, w);
      var k := Span(|p|, top, bottom);
      if In(top, bottom, |p|) {
        assert Span(|g|, top, bottom) == k + 1;
        MulSucc(k, w);
      } else {
        assert Span(|g|, top, bottom) == k;
      }
    }
  }

  /** A rectangle of live cells holds (bottom - top + 1) x (right - left + 1) of them. */
  lemma RectAliveCount(rows: nat, cols: nat, top: nat, bottom: nat, left: nat, right: nat)
    requires top <= bottom < rows && left <= right < cols
    ensures AliveCount(Rect(rows, cols, top, bottom, left, right)) == (bottom - top + 1) * (right - left + 1)
  {
    var g := Rect(rows, cols, top, bottom, left, right);
    forall i | 0 <= i < rows
      ensures RowAlive(g[i]) == if In(top, bottom, i) then right - left + 1 else 0
    {
      BandRowAlive(g[i], In(top, bottom, i), left, right);
    }
    BandAlive(g, top, bottom, right - left + 1);
  }

  /**
    The neighbour count of a rectangle cell, from whether each of the rows
    x-1, x, x+1 (am, a0, ap) and each of the columns y-1, y, y+1 (bm, b0, bp) lies in the rectangle.
   */
  function RectCount(am: bool, a0: bool, ap: bool, bm: bool, b0: bool, bp: bool): int {
    Both(am, bm) + Both(am, b0) + Both(am, bp) + Both(a0, bm) + Both(a0, bp) + Both(ap, bm) + Both(ap, b0) + Both(ap, bp)
  }

  /** The next state of a rectangle cell depends only on which neighbouring rows and columns it covers. */
  lemma RectNextState(rows: nat, cols: nat, top: nat, bottom: nat, left: nat, right: nat, x: int, y: int)
    requires top <= bottom < rows && left <= right < cols
    requires 0 <= x < rows && 0 <= y < cols
    ensures NextState(Rect(rows, cols, top, bottom, left, right), x, y)
      == Rule(In(top, bottom, x) && In(left, right, y),
              RectCount(In(top, bottom, Wrap(x - 1, rows)), In(top, bottom, x), In(top, bottom, Wrap(x + 1, rows)),
                        In(left, right, Wrap(y - 1, cols)), In(left, right, y), In(left, right, Wrap(y + 1, cols))))
  {
  }

  /** On a torus of size >= 3 the rows x-1, x, x+1 (wrapped) are three distinct rows. */
  lemma NeighboursDistinct(n: nat, x: int)
    requires 3 <= n && 0 <= x < n
    ensures Wrap(x - 1, n) != x && Wrap(x + 1, n) != x && Wrap(x - 1, n) != Wrap(x + 1, n)
  {
  }

  /** The rule on a band of two rows against a band of two columns: nothing is born, everything inside survives. */
  lemma BlockRule(am: bool, a0: bool, ap: bool, bm: bool, b0: bool, bp: bool)
    requires a0 ==> am != ap
    requires !(am && a0 && ap)
    requires b0 ==> bm != bp
    requires !(bm && b0 && bp)
    ensures Rule(a0 && b0, RectCount(am, a0, ap, bm, b0, bp)) == Both(a0, b0)
  {
  }

  /**
    The rule on a band of one row against a band of three columns: the
    cell lives next step exactly when its rows meet the band and all three of its columns do.
   */
  lemma BarRule(am: bool, a0: bool, ap: bool, bm: bool, b0: bool, bp: bool)
    requires !(am && a0) && !(am && ap) && !(a0 && ap)
    ensures Rule(a0 && b0, RectCount(am, a0, ap, bm, b0, bp)) == Both(am || a0 || ap, bm && b0 && bp)
  {
  }

  /** The same with the roles of rows and columns exchanged. */
  lemma BarRuleTransposed(am: bool, a0: bool, ap: bool, bm: bool, b0: bool, bp: bool)
    requires !(bm && b0) && !(bm && bp) && !(b0 && bp)
    ensures Rule(a0 && b0, RectCount(am, a0, ap, bm, b0, bp)) == Both(am && a0 && ap, bm || b0 || bp)
  {
    BarRule(bm, b0, bp, am, a0, ap);
  }

  /** The 2x2 block with top-left corner (r, c). */
  function Block(rows: nat, cols: nat, r: nat, c: nat): Grid
    requires r + 1 < rows && c + 1 < cols
  {
    Rect(rows, cols, r, r + 1, c, c + 1)
  }

  /** The block's live cells are exactly the four cells (r, c), (r, c + 1), (r + 1, c), (r + 1, c + 1). */
  lemma BlockShape(rows: nat, cols: nat, r: nat, c: nat)
    requires r + 1 < rows && c + 1 < cols
    ensures var g := Block(rows, cols, r, c);
      |g| == rows && Rectangular(g) && Width(g) == cols && Binary(g)
      && (forall i, j :: 0 <= i < rows && 0 <= j < cols ==>
            (g[i][j] == 1 <==> (i == r || i == r + 1) && (j == c || j == c + 1)))
      && AliveCount(g) == 4
  {
    RectAliveCount(rows, cols, r, r + 1, c, c + 1);
  }

  /** Around every cell, the rule keeps exactly the cells of a 2x2 block alive. */
  lemma BlockCellStays(rows: nat, cols: nat, r: nat, c: nat, x: int, y: int)
    requires 3 <= rows && 3 <= cols && r + 1 < rows && c + 1 < cols
    requires 0 <= x < rows && 0 <= y < cols
    ensures Rule(In(r, r + 1, x) && In(c, c + 1, y),
                 RectCount(In(r, r + 1, Wrap(x - 1, rows)), In(r, r + 1, x), In(r, r + 1, Wrap(x + 1, rows)),
                           In(c, c + 1, Wrap(y - 1, cols)), In(c, c + 1, y), In(c, c + 1, Wrap(y + 1, cols))))
      == Both(In(r, r + 1, x), In(c, c + 1, y))
  {
    NeighboursDistinct(rows, x);
    NeighboursDistinct(cols, y);
    BlockRule(In(r, r + 1, Wrap(x - 1, rows)), In(r, r + 1, x), In(r, r + 1, Wrap(x + 1, rows)), In(c, c + 1, Wrap(y - 1, cols)), In(c, c + 1, y), In(c, c + 1, Wrap(y + 1, cols)));
  }

  /** At every cell, one step agrees with the block. */
  lemma BlockCell(rows: nat, cols: nat, r: nat, c: nat, x: int, y: int)
    requires 3 <= rows && 3 <= cols && r + 1 < rows && c + 1 < cols
    requires 0 <= x < rows && 0 <= y < cols
    ensures NextState(Rect(rows, cols, r, r + 1, c, c + 1), x, y) == Rect(rows, cols, r, r + 1, c, c + 1)[x][y]
  {
    RectNextState(rows, cols, r, r + 1, c, c + 1, x, y);
    BlockCellStays(rows, cols, r, c, x, y);
  }

  /** The block is a still life: one step leaves it unchanged. */
  lemma BlockIsStillLife(rows: nat, cols: nat, r: nat, c: nat)
    requires 3 <= rows && 3 <= cols && r + 1 < rows && c + 1 < cols
    ensures NextGeneration(Block(rows, cols, r, c)) == Block(rows, cols, r, c)
  {
    var g := Rect(rows, cols, r, r + 1, c, c + 1);
    var h := NextGeneration(g);
    forall i | 0 <= i < rows
      ensures h[i] == g[i]
    {
      forall j | 0 <= j < cols
        ensures h[i][j] == g[i][j]
      {
        BlockCell(rows, cols, r, c, i, j);
      }
    }
  }

  /** ... so any number of steps leaves it unchanged. */
  lemma {:induction false} BlockStaysForever(rows: nat, cols: nat, r: nat, c: nat, n: nat)
    requires 3 <= rows && 3 <= cols && r + 1 < rows && c + 1 < cols
    ensures Generations(Block(rows, cols, r, c), n) == Block(rows, cols, r, c)
    decreases n
  {
    if n > 0 {
      BlockIsStillLife(rows, cols, r, c);
      BlockStaysForever(rows, cols, r, c, n - 1);
    }
  }

  /** A horizontal bar of three live cells centred on (r, c). */
  function BlinkerHorizontal(rows: nat, cols: nat, r: nat, c: nat): Grid
    requires 1 <= r && r + 1 < rows && 1 <= c && c + 1 < cols
  {
    Rect(rows, cols, r, r, c - 1, c + 1)
  }

  /** A vertical bar of three live cells centred on (r, c). */
  function BlinkerVertical(rows: nat, cols: nat, r: nat, c: nat): Grid
    requires 1 <= r && r + 1 < rows && 1 <= c && c + 1 < cols
  {
    Rect(rows, cols, r - 1, r + 1, c, c)
  }

  /** The horizontal phase has exactly three live cells, in row r around column c. */
  lemma BlinkerHorizontalShape(rows: nat, cols: nat, r: nat, c: nat)
    requires 1 <= r && r + 1 < rows && 1 <= c && c + 1 < cols
    ensures var g := BlinkerHorizontal(rows, cols, r, c);
      |g| == rows && Rectangular(g) && Width(g) == cols && Binary(g)
      && (forall i, j :: 0 <= i < rows && 0 <= j < cols ==> (g[i][j] == 1 <==> i == r && c - 1 <= j <= c + 1))
      && AliveCount(g) == 3
  {
    RectAliveCount(rows, cols, r, r, c - 1, c + 1);
  }

  /** The vertical phase has exactly three live cells, in column c around row r. */
  lemma BlinkerVerticalShape(rows: nat, cols: nat, r: nat, c: nat)
    requires 1 <= r && r + 1 < rows && 1 <= c && c + 1 < cols
    ensures var g := BlinkerVertical(rows, cols, r, c);
      |g| == rows && Rectangular(g) && Width(g) == cols && Binary(g)
      && (forall i, j :: 0 <= i < rows && 0 <= j < cols ==> (g[i][j] == 1 <==> r - 1 <= i <= r + 1 && j == c))
      && AliveCount(g) == 3
  {
    RectAliveCount(rows, cols, r - 1, r + 1, c, c);
  }

  /**
    A band of one row r away from the edge: at most one of the rows
    x-1, x, x+1 is r, and one is exactly when x is within one row of r.
   */
  lemma NearOne(n: nat, r: nat, x: int)
    requires 3 <= n && 1 <= r && r + 1 < n && 0 <= x < n
    ensures var am, a0, ap := In(r, r, Wrap(x - 1, n)), In(r, r, x), In(r, r, Wrap(x + 1, n));
      !(am && a0) && !(am && ap) && !(a0 && ap) && (In(r - 1, r + 1, x) <==> am || a0 || ap)
  {
    NeighboursDistinct(n, x);
  }

  /** A band of three rows c-1..c+1 on a torus of size >= 4: all of x-1, x, x+1 lie in it exactly when x == c. */
  lemma NearThree(n: nat, c: nat, x: int)
    requires 4 <= n && 1 <= c && c + 1 < n && 0 <= x < n
    ensures In(c, c, x) <==> In(c - 1, c + 1, Wrap(x - 1, n)) && In(c - 1, c + 1, x) && In(c - 1, c + 1, Wrap(x + 1, n))
  {
  }

  /** Around every cell, the rule turns a horizontal bar into a vertical one. */
  lemma HorizontalCellTurns(rows: nat, cols: nat, r: nat, c: nat, x: int, y: int)
    requires 4 <= rows && 4 <= cols && 1 <= r && r + 1 < rows && 1 <= c && c + 1 < cols
    requires 0 <= x < rows && 0 <= y < cols
    ensures Rule(In(r, r, x) && In(c - 1, c + 1, y),
                 RectCount(In(r, r, Wrap(x - 1, rows)), In(r, r, x), In(r, r, Wrap(x + 1, rows)),
                           In(c - 1, c + 1, Wrap(y - 1, cols)), In(c - 1, c + 1, y), In(c - 1, c + 1, Wrap(y + 1, cols))))
      == Both(In(r - 1, r + 1, x), In(c, c, y))
  {
    NearOne(rows, r, x);
    NearThree(cols, c, y);
    BarRule(In(r, r, Wrap(x - 1, rows)), In(r, r, x), In(r, r, Wrap(x + 1, rows)), In(c - 1, c + 1, Wrap(y - 1, cols)), In(c - 1, c + 1, y), In(c - 1, c + 1, Wrap(y + 1, cols)));
  }

  /** Around every cell, the rule turns a vertical bar into a horizontal one. */
  lemma VerticalCellTurns(rows: nat, cols: nat, r: nat, c: nat, x: int, y: int)
    requires 4 <= rows && 4 <= cols && 1 <= r && r + 1 < rows && 1 <= c && c + 1 < cols
    requires 0 <= x < rows && 0 <= y < cols
    ensures Rule(In(r - 1, r + 1, x) && In(c, c, y),
                 RectCount(In(r - 1, r + 1, Wrap(x - 1, rows)), In(r - 1, r + 1, x), In(r - 1, r + 1, Wrap(x + 1, rows)),
                           In(c, c, Wrap(y - 1, cols)), In(c, c, y), In(c, c, Wrap(y + 1, cols))))
      == Both(In(r, r, x), In(c - 1, c + 1, y))
  {
    NearThree(rows, r, x);
    NearOne(cols, c, y);
    BarRuleTransposed(In(r - 1, r + 1, Wrap(x - 1, rows)), In(r - 1, r + 1, x), In(r - 1, r + 1, Wrap(x + 1, rows)), In(c, c, Wrap(y - 1, cols)), In(c, c, y), In(c, c, Wrap(y + 1, cols)));
  }

  /** One step turns the horizontal blinker vertical. */
  lemma HorizontalTurnsVertical(rows: nat, cols: nat, r: nat, c: nat)
    requires 4 <= rows && 4 <= cols && 1 <= r && r + 1 < rows && 1 <= c && c + 1 < cols
    ensures NextGeneration(BlinkerHorizontal(rows, cols, r, c)) == BlinkerVertical(rows, cols, r, c)
  {
    var h, v := BlinkerHorizontal(rows, cols, r, c), BlinkerVertical(rows, cols, r, c);
    var h1 := NextGeneration(h);
    forall i | 0 <= i < rows
      ensures h1[i] == v[i]
    {
      forall j | 0 <= j < cols
        ensures h1[i][j] == v[i][j]
      {
        RectNextState(rows, cols, r, r, c - 1, c + 1, i, j);
        HorizontalCellTurns(rows, cols, r, c, i, j);
      }
    }
  }

  /** One step turns the vertical blinker horizontal. */
  lemma VerticalTurnsHorizontal(rows: nat, cols: nat, r: nat, c: nat)
    requires 4 <= rows && 4 <= cols && 1 <= r && r + 1 < rows && 1 <= c && c + 1 < cols
    ensures NextGeneration(BlinkerVertical(rows, cols, r, c)) == BlinkerHorizontal(rows, cols, r, c)
  {
    var h, v := BlinkerHorizontal(rows, cols, r, c), BlinkerVertical(rows, cols, r, c);
    var v1 := NextGeneration(v);
    forall i | 0 <= i < rows
      ensures v1[i] == h[i]
    {
      forall j | 0 <= j < cols
        ensures v1[i][j] == h[i][j]
      {
        RectNextState(rows, cols, r - 1, r + 1, c, c, i, j);
        VerticalCellTurns(rows, cols, r, c, i, j);
      }
    }
  }

  /** The blinker has period 2: after two steps it is back where it started. */
  lemma BlinkerOscillates(rows: nat, cols: nat, r: nat, c: nat)
    requires 4 <= rows && 4 <= cols && 1 <= r && r + 1 < rows && 1 <= c && c + 1 < cols
    ensures Generations(BlinkerHorizontal(rows, cols, r, c), 2) == BlinkerHorizontal(rows, cols, r, c)
  {
    var h, v := BlinkerHorizontal(rows, cols, r, c), BlinkerVertical(rows, cols, r, c);
    HorizontalTurnsVertical(rows, cols, r, c);
    VerticalTurnsHorizontal(rows, cols, r, c);
    assert Generations(h, 2) == Generations(v, 1) == Generations(h, 0);
  }
}
