/**
  The stability heuristic, stated on the history of alive-cell counts:
  entry k of the history is the population measured right after step
  k + 1. The engine's counter is the number of steps whose count equals
  the count of the step before. It is cumulative: a step with a different
  count does not reset it, it only fails to add one.
 */
module Stability {

  /** Number of positions k, 1 <= k < |h|, with h[k] == h[k - 1]. */
  function StableSteps(h: seq<int>): (n: nat)
    ensures n <= if |h| == 0 then 0 else |h| - 1
  {
    if |h| < 2 then 0
    else StableSteps(h[..|h| - 1]) + (if h[|h| - 1] == h[|h| - 2] then 1 else 0)
  }

  /** The most recent count, or 0 before the first step (the engine's initial value). */
  function Last(h: seq<int>): int {
    if |h| == 0 then 0 else h[|h| - 1]
  }

  /**
    Recording one more count adds one exactly when there was a previous
    count and the new one equals it; there is no comparison on the first step.
   */
  lemma StableStepsAppend(h: seq<int>, c: int)
    ensures StableSteps(h + [c]) == StableSteps(h) + (if |h| > 0 && c == Last(h) then 1 else 0)
  {
    assert (h + [c])[..|h|] == h;
  }

  /** The counter is a latch: later steps never lower it. */
  lemma {:induction false} StableLatch(h: seq<int>, ext: seq<int>)
    ensures StableSteps(h) <= StableSteps(h + ext)
    decreases |ext|
  {
    if ext != [] {
      var init := ext[..|ext| - 1];
      assert h + ext == (h + init) + [ext[|ext| - 1]];
      StableLatch(h, init);
      StableStepsAppend(h + init, ext[|ext| - 1]);
    } else {
      assert h + ext == h;
    }
  }

  /** After `k` more steps that each repeat the last count, the counter has grown by `k`. */
  lemma {:induction false} RepeatedCount(h: seq<int>, k: nat)
    requires |h| > 0
    ensures StableSteps(h + seq(k, _ => Last(h))) == StableSteps(h) + k
    decreases k
  {
    if k > 0 {
      var c := Last(h);
      var r := seq(k - 1, _ => c);
      assert h + seq(k, _ => c) == (h + r) + [c];
      RepeatedCount(h, k - 1);
      assert Last(h + r) == c;
      StableStepsAppend(h + r, c);
    } else {
      assert h + seq(k, _ => Last(h)) == h;
    }
  }

  /** A population that stayed the same for the last `k` comparisons has counter at least `k`. */
  lemma ConstantTail(h: seq<int>, k: nat)
    requires k < |h|
    requires forall i :: |h| - 1 - k <= i < |h| ==> h[i] == h[|h| - 1 - k]
    ensures StableSteps(h) >= k
  {
    var p := h[..|h| - k];
    assert |p| > 0 && Last(p) == h[|h| - 1 - k];
    assert h == p + seq(k, _ => Last(p));
    RepeatedCount(p, k);
  }

  /** Length of the current run of unchanged counts: the consecutive-streak reading of "stable". */
  function Streak(h: seq<int>): (n: nat)
    ensures n <= if |h| == 0 then 0 else |h| - 1
  {
    if |h| < 2 then 0
    else if h[|h| - 1] == h[|h| - 2] then Streak(h[..|h| - 1]) + 1
    else 0
  }

  /** The cumulative counter is never below the current streak. */
  lemma {:induction false} StreakBelowStableSteps(h: seq<int>)
    ensures Streak(h) <= StableSteps(h)
  {
    if |h| >= 2 {
      StreakBelowStableSteps(h[..|h| - 1]);
    }
  }

  /** A population that has settled and then fluctuated: the counter keeps its earlier steps, the streak does not. */
  lemma CumulativeNotConsecutive()
    ensures StableSteps([5, 5, 7, 7]) == 2
    ensures Streak([5, 5, 7, 7]) == 1
  {
    assert [5, 5, 7, 7][..3] == [5, 5, 7];
    assert [5, 5, 7][..2] == [5, 5];
    assert [5, 5][..1] == [5];
  }

  /** The engine's check: strictly more than `generation` stable steps. */
  predicate Stable(h: seq<int>, generation: int)
    ensures generation < 0 ==> Stable(h, generation)
    ensures Stable(h, generation) && generation >= 0 ==> |h| >= generation + 2
  {
    StableSteps(h) > generation
  }

  /** Once the check succeeds for a threshold, it keeps succeeding whatever follows. */
  lemma StableStaysStable(h: seq<int>, ext: seq<int>, generation: int)
    requires Stable(h, generation)
    ensures Stable(h + ext, generation)
  {
    StableLatch(h, ext);
  }
}
