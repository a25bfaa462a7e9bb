/**
 * The Completed screen (components/screens/CompletedScreen.tsx): every completed task,
 * from any bucket, most recently completed first, and its timestamp label.
 */
module CompletedScreen {
  import opened Wrappers
  import Seqs
  import Tasks

  /** The sort key `(t.completedAt || 0)`: a missing stamp counts as 0. */
  function CompletedKey(t: Tasks.Task): int {
    t.completedAt.GetOr(0)
  }

  /**
   * The Completed view: exactly the completed tasks, each as often as in the store,
   * sorted by completion time descending, so an unstamped task never precedes a
   * task stamped after the epoch.
   */
  function CompletedView(ts: seq<Tasks.Task>): (r: seq<Tasks.Task>)
    ensures forall t :: t in r <==> t in ts && t.completed
    ensures multiset(r) == multiset(Seqs.Filter(ts, Tasks.IsCompleted))
    ensures |r| == |Seqs.Filter(ts, Tasks.IsCompleted)|
    ensures Seqs.SortedDesc(r, CompletedKey)
    ensures forall i, j :: 0 <= i < j < |r| && r[i].completedAt == None ==> !(CompletedKey(r[j]) > 0)
  {
    var r := Seqs.SortDesc(Seqs.Filter(ts, Tasks.IsCompleted), CompletedKey);
    var kept := Seqs.Filter(ts, Tasks.IsCompleted);
    assert |r| == |multiset(r)|;
    forall t ensures t in r <==> t in ts && t.completed {
      assert t in r <==> t in multiset(r);
      assert t in kept <==> t in multiset(kept);
    }
    r
  }

  /**
   * `formatDate(timestamp)`: the empty label when the stamp is missing (or 0, which is
   * falsy), otherwise the locale rendering, which is a parameter here.
   */
  function FormatDate(timestamp: Option<Tasks.Timestamp>, render: Tasks.Timestamp -> string): (shown: string)
    ensures !Truthy(timestamp) ==> shown == ""
    ensures Truthy(timestamp) ==> shown == render(timestamp.value)
  {
    if !Truthy(timestamp) then "" else render(timestamp.value)
  }

  /** A task of the store stamped by `toggleTask` gets a label from the renderer. */
  lemma ToggledTaskIsLabelled(ts: seq<Tasks.Task>, id: string, now: Tasks.Timestamp, render: Tasks.Timestamp -> string, i: int)
    requires 0 <= i < |ts| && ts[i].id == id && !ts[i].completed && now != 0
    ensures var t := Tasks.ToggleTask(ts, id, now)[i];
      t in CompletedView(Tasks.ToggleTask(ts, id, now)) && FormatDate(t.completedAt, render) == render(now)
  {
  }
}
