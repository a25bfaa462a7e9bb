/**
 * The derived values of the Today screen (components/screens/LockedTodayScreen.tsx):
 * the Today view, its completed count and the rounded progress percentage.
 */
module LockedTodayScreen {
  import Seqs
  import Tasks

  /** The Today view: tasks with neither flag set, completed ones included, in store order. */
  function TodayView(ts: seq<Tasks.Task>): (r: seq<Tasks.Task>)
    ensures forall t :: t in r <==> t in ts && !t.isBacklog && !t.isTomorrow
  {
    Seqs.Filter(ts, Tasks.InToday)
  }

  /** How many Today tasks are completed; never more than the Today view holds. */
  function CompletedCount(ts: seq<Tasks.Task>): (c: nat)
    ensures c == |Seqs.Filter(TodayView(ts), Tasks.IsCompleted)|
    ensures c <= |TodayView(ts)|
    ensures c == |TodayView(ts)| <==> forall t :: t in TodayView(ts) ==> t.completed
    ensures c == 0 <==> forall t :: t in TodayView(ts) ==> !t.completed
  {
    var done := Seqs.Filter(TodayView(ts), Tasks.IsCompleted);
    Seqs.FilterKeepsAll(TodayView(ts), Tasks.IsCompleted);
    Seqs.FilterEmpty(TodayView(ts), Tasks.IsCompleted);
    |done|
  }

  /**
   * `Math.round(done / total * 100)` on exact rationals: the integer nearest to the
   * percentage, halves rounded up.
   */
  function RoundedPercent(done: nat, total: nat): (pct: int)
    requires 0 < total && done <= total
    ensures 0 <= pct <= 100
    ensures 2 * total * pct <= 200 * done + total < 2 * total * (pct + 1)
    ensures done == total ==> pct == 100
    ensures done == 0 ==> pct == 0
  {
    var q := (200 * done + total) / (2 * total);
    RoundingFacts(done, total, q);
    q
  }

  /** The quotient behind `RoundedPercent`, bracketed and bounded step by step. */
  lemma RoundingFacts(done: nat, total: nat, q: int)
    requires 0 < total && done <= total
    requires q == (200 * done + total) / (2 * total)
    ensures 0 <= q <= 100
    ensures 2 * total * q <= 200 * done + total < 2 * total * (q + 1)
    ensures done == total ==> q == 100
    ensures done == 0 ==> q == 0
  {
    var num, den := 200 * done + total, 2 * total;
    DivBounds(num, den, q);
    assert num < den * 101;
    MulMonotone(den, 101, q);
    if done == total {
      assert den * 100 <= num;
      MulMonotone(den, q + 1, 100);
    }
    if done == 0 {
      assert num < den * 1;
      MulMonotone(den, 1, q);
    }
  }

  /** Euclidean division of a non-negative number: the quotient brackets the dividend. */
  lemma DivBounds(num: int, den: int, q: int)
    requires num >= 0 && den > 0 && q == num / den
    ensures q >= 0
    ensures den * q <= num < den * (q + 1)
  {
  }

  /** A positive factor keeps the order of the products it scales. */
  lemma MulMonotone(d: int, a: int, b: int)
    requires d > 0 && d * b < d * a
    ensures b < a
  {
  }

  /** The progress bar's value: 0 with an empty Today view, otherwise the rounded share of completed tasks. */
  function ProgressPercentage(ts: seq<Tasks.Task>): (pct: int)
    ensures 0 <= pct <= 100
    ensures |TodayView(ts)| > 0 ==> pct == RoundedPercent(CompletedCount(ts), |TodayView(ts)|)
    ensures |TodayView(ts)| == 0 ==> pct == 0
    ensures CompletedCount(ts) == 0 ==> pct == 0
    ensures |TodayView(ts)| > 0 && CompletedCount(ts) == |TodayView(ts)| ==> pct == 100
    ensures (forall t :: t in TodayView(ts) ==> !t.completed) ==> pct == 0
    ensures |TodayView(ts)| > 0 && (forall t :: t in TodayView(ts) ==> t.completed) ==> pct == 100
  {
    var total := |TodayView(ts)|;
    if total > 0 then RoundedPercent(CompletedCount(ts), total) else 0
  }

  /** The bar reads 100 exactly when every Today task is done, as long as there are fewer than 200. */
  lemma FullOnlyWhenDone(ts: seq<Tasks.Task>)
    requires 0 < |TodayView(ts)| < 200
    ensures ProgressPercentage(ts) == 100 <==> CompletedCount(ts) == |TodayView(ts)|
    ensures ProgressPercentage(ts) == 100 <==> forall t :: t in TodayView(ts) ==> t.completed
  {
  }

  /** With 200 Today tasks and one still open, the rounding already shows 100%. */
  lemma RoundingShowsFullEarly()
    ensures RoundedPercent(199, 200) == 100
  {
  }
}
