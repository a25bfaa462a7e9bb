/**
 * The Backlog screen (components/screens/BacklogScreen.tsx): the newest-first Backlog
 * view, its header count, and the Enter handler of the capture field.
 */
module BacklogScreen {
  import opened Wrappers
  import Seqs
  import Text
  import Tasks

  /** The sort key `(t.createdAt || 0)`; `createdAt` is always a number here, so it is the key itself. */
  function CreatedKey(t: Tasks.Task): int {
    t.createdAt
  }

  /**
   * The Backlog view: exactly the tasks with `isBacklog` set, completed or not, none
   * added or lost, newest `createdAt` first.
   */
  function BacklogView(ts: seq<Tasks.Task>): (r: seq<Tasks.Task>)
    ensures forall t :: t in r <==> t in ts && t.isBacklog
    ensures multiset(r) == multiset(Seqs.Filter(ts, Tasks.InBacklog))
    ensures Seqs.SortedDesc(r, CreatedKey)
    ensures |r| == |Seqs.Filter(ts, Tasks.InBacklog)|
  {
    var r := Seqs.SortDesc(Seqs.Filter(ts, Tasks.InBacklog), CreatedKey);
    var kept := Seqs.Filter(ts, Tasks.InBacklog);
    assert |r| == |multiset(r)|;
    forall t ensures t in r <==> t in ts && t.isBacklog {
      assert t in r <==> t in multiset(r);
      assert t in kept <==> t in multiset(kept);
    }
    r
  }

  /** The ordering example: created at 10, 30 and 20, the view lists the one from 30, then 20, then 10. */
  lemma NewestFirstExample(x: Tasks.Task, y: Tasks.Task, z: Tasks.Task)
    requires x.isBacklog && y.isBacklog && z.isBacklog
    requires x.createdAt == 10 && y.createdAt == 30 && z.createdAt == 20
    ensures BacklogView([x, y, z]) == [y, z, x]
  {
    var ts := [x, y, z];
    calc {
      BacklogView(ts);
      Seqs.SortDesc(Seqs.Filter(ts, Tasks.InBacklog), CreatedKey);
      { Seqs.FilterAll(ts, Tasks.InBacklog); }
      Seqs.SortDesc(ts, CreatedKey);
      { SortExample(x, y, z); }
      [y, z, x];
    }
  }

  lemma SortExample(x: Tasks.Task, y: Tasks.Task, z: Tasks.Task)
    requires x.createdAt == 10 && y.createdAt == 30 && z.createdAt == 20
    ensures Seqs.SortDesc([x, y, z], CreatedKey) == [y, z, x]
  {
    assert [x, y, z][1..] == [y, z];
    assert [y, z][1..] == [z];
    assert [z][1..] == [];
    assert Seqs.SortDesc([z], CreatedKey) == [z];
    assert Seqs.SortDesc([y, z], CreatedKey) == [y, z];
    assert Seqs.Insert(x, [z], CreatedKey) == [z, x];
  }

  /**
   * Enter in the capture field: blank input adds nothing; otherwise exactly one
   * Backlog task carrying the trimmed text is put in front of the old tasks.
   */
  function SubmitInput(ts: seq<Tasks.Task>, input: string, isEnter: bool, id: string, now: Tasks.Timestamp): (r: seq<Tasks.Task>)
    ensures !isEnter || Text.IsBlank(input) ==> r == ts
    ensures isEnter && !Text.IsBlank(input) ==>
      && |r| == |ts| + 1 && r[1..] == ts
      && r[0].text == Text.Trim(input) && r[0].text != []
      && Tasks.BucketOf(r[0]) == Some(Tasks.Backlog) && !r[0].completed
  {
    if isEnter && Text.Trim(input) != [] then Tasks.AddTask(ts, Text.Trim(input), Some(true), id, now) else ts
  }

  /** A submitted task shows up in the Backlog view, which grows by exactly one. */
  lemma SubmittedTaskIsListed(ts: seq<Tasks.Task>, input: string, id: string, now: Tasks.Timestamp)
    requires !Text.IsBlank(input)
    ensures var r := SubmitInput(ts, input, true, id, now);
      r[0] in BacklogView(r) && |BacklogView(r)| == |BacklogView(ts)| + 1
  {
    var r := SubmitInput(ts, input, true, id, now);
    assert r == [r[0]] + ts;
    Seqs.FilterAppend([r[0]], ts, Tasks.InBacklog);
  }
}
