/**
 * The Evening Ritual screen (components/screens/EveningRitualScreen.tsx): the list of
 * Backlog tasks to pick from, the Tomorrow stage, its four-slot capacity counter
 * and pills, and what the lock button's rollover makes of the stage.
 */
module EveningRitualScreen {
  import Seqs
  import Tasks
  import LockedTodayScreen

  /** `CAPACITY`: the number of slots the stage shows before it overflows. */
  const Capacity: nat := 4

  /** Open Backlog tasks: the ones offered for tomorrow. */
  predicate Pickable(t: Tasks.Task) {
    t.isBacklog && !t.completed
  }

  /** The list to pick from: exactly the Backlog tasks not completed, in store order. */
  function SourceList(ts: seq<Tasks.Task>): (r: seq<Tasks.Task>)
    ensures forall t :: t in r <==> t in ts && t.isBacklog && !t.completed
  {
    Seqs.Filter(ts, Pickable)
  }

  /** The stage: exactly the tasks with `isTomorrow` set, in store order. */
  function TomorrowStage(ts: seq<Tasks.Task>): (r: seq<Tasks.Task>)
    ensures forall t :: t in r <==> t in ts && t.isTomorrow
  {
    Seqs.Filter(ts, Tasks.InTomorrow)
  }

  /** `filledSlots`: the stage's length. */
  function FilledSlots(ts: seq<Tasks.Task>): (n: nat)
    ensures n == |TomorrowStage(ts)| && n <= |ts|
    ensures n == 0 <==> forall t :: t in ts ==> !t.isTomorrow
  {
    var stage := TomorrowStage(ts);
    Seqs.FilterEmpty(ts, Tasks.InTomorrow);
    |stage|
  }

  /** The counter turns red exactly when more than `Capacity` tasks are staged. */
  predicate OverCapacity(ts: seq<Tasks.Task>) {
    FilledSlots(ts) > Capacity
  }

  /** The pills: `max(CAPACITY, filledSlots)` of them, pill `i` lit exactly when `i < filledSlots`. */
  function SlotPills(filled: nat): (pills: seq<bool>)
    ensures |pills| == if filled > Capacity then filled else Capacity
    ensures forall i :: 0 <= i < |pills| ==> (pills[i] <==> i < filled)
  {
    seq(if filled > Capacity then filled else Capacity, i => i < filled)
  }

  predicate Lit(b: bool) {
    b
  }

  /**
   * The pills agree with the counter: exactly `filledSlots` are lit, the rest of the
   * four are dim, and an extra pill is drawn exactly when the counter is red.
   */
  lemma PillsMatchCounter(ts: seq<Tasks.Task>)
    ensures var filled := FilledSlots(ts);
      var pills := SlotPills(filled);
      && |Seqs.Filter(pills, Lit)| == filled
      && |pills| - filled == (if filled >= Capacity then 0 else Capacity - filled)
      && (|pills| > Capacity <==> OverCapacity(ts))
  {
    var filled := FilledSlots(ts);
    var pills := SlotPills(filled);
    assert pills == pills[..filled] + pills[filled..];
    Seqs.FilterAppend(pills[..filled], pills[filled..], Lit);
    Seqs.FilterAll(pills[..filled], Lit);
    Seqs.FilterNone(pills[filled..], Lit);
  }

  /**
   * After the lock, the Today view is the old stage with each task promoted, in the
   * same order: the staged tasks, and only they, are tomorrow's Today list.
   */
  lemma {:induction false} StageBecomesToday(ts: seq<Tasks.Task>)
    ensures var today := LockedTodayScreen.TodayView(Tasks.LockTomorrow(ts));
      var stage := TomorrowStage(ts);
      |today| == |stage| && forall i :: 0 <= i < |stage| ==> today[i] == Tasks.Place(stage[i], Tasks.Today)
    decreases |ts|
  {
    if ts != [] {
      var t, rest := ts[0], ts[1..];
      StageBecomesToday(rest);
      assert ts == [t] + rest;
      Seqs.FilterAppend(Tasks.RollOne(t), Tasks.LockTomorrow(rest), Tasks.InToday);
      Seqs.FilterAppend([t], rest, Tasks.InTomorrow);
      var head := Seqs.Filter(Tasks.RollOne(t), Tasks.InToday);
      if t.isTomorrow {
        assert Tasks.RollOne(t) == [Tasks.Place(t, Tasks.Today)];
        assert head == [Tasks.Place(t, Tasks.Today)];
      } else {
        Seqs.FilterNone(Tasks.RollOne(t), Tasks.InToday);
      }
    }
  }

  /** After the lock the stage is empty, so the counter reads 0 and nothing is red. */
  lemma LockEmptiesStage(ts: seq<Tasks.Task>)
    ensures TomorrowStage(Tasks.LockTomorrow(ts)) == []
    ensures FilledSlots(Tasks.LockTomorrow(ts)) == 0 && !OverCapacity(Tasks.LockTomorrow(ts))
  {
    Seqs.FilterNone(Tasks.LockTomorrow(ts), Tasks.InTomorrow);
  }
}
