/**
 * The task half of the locked store (store/useLockedStore.ts): the `Task` record,
 * the buckets its two flags encode, and every task action as a pure function from
 * the old task array to the new one.
 *
 * The optional flags `isBacklog`, `isTomorrow` and `hasNote` are plain booleans
 * here, an absent flag being `false`: every reader of the store tests them for
 * truthiness only.
 */
module Tasks {
  import opened Wrappers
  import Seqs

  datatype Category = Client | Personal | Ops | Urgent

  /** Milliseconds since the epoch, as `Date.now()` returns them. */
  type Timestamp = int

  datatype Task = Task(
    id: string,
    text: string,
    completed: bool,
    hasNote: bool,
    isBacklog: bool,
    isTomorrow: bool,
    category: Option<Category>,
    createdAt: Timestamp,
    completedAt: Option<Timestamp>)

  /** The three buckets the screens show. */
  datatype Bucket = Today | Backlog | Tomorrow

  /** The Today view's test: neither flag set, whatever the completion state. */
  predicate InToday(t: Task) {
    !t.isBacklog && !t.isTomorrow
  }

  /** The Backlog view's test: `isBacklog` set, whatever the completion state. */
  predicate InBacklog(t: Task) {
    t.isBacklog
  }

  /** The Tomorrow stage's test. */
  predicate InTomorrow(t: Task) {
    t.isTomorrow
  }

  /** Both flags set is the one combination no bucket claims alone. */
  predicate WellFormed(t: Task) {
    !(t.isBacklog && t.isTomorrow)
  }

  /**
   * The bucket a task's flags encode, when they encode exactly one; a task with both
   * flags set is listed by the Backlog view and by the Tomorrow stage at once.
   */
  function BucketOf(t: Task): (b: Option<Bucket>)
    ensures b.Some? <==> WellFormed(t)
    ensures b == Some(Today) <==> InToday(t)
    ensures b == Some(Backlog) <==> t.isBacklog && !t.isTomorrow
    ensures b == Some(Tomorrow) <==> t.isTomorrow && !t.isBacklog
  {
    if t.isBacklog && t.isTomorrow then None
    else if t.isBacklog then Some(Backlog)
    else if t.isTomorrow then Some(Tomorrow)
    else Some(Today)
  }

  /** The flag pair `(isBacklog, isTomorrow)` each move action writes, all other fields kept. */
  function Place(t: Task, dest: Bucket): (r: Task)
    ensures BucketOf(r) == Some(dest)
    ensures r == t.(isBacklog := r.isBacklog, isTomorrow := r.isTomorrow)
  {
    match dest
    case Today => t.(isBacklog := false, isTomorrow := false)
    case Backlog => t.(isBacklog := true, isTomorrow := false)
    case Tomorrow => t.(isBacklog := false, isTomorrow := true)
  }

  function Ids(ts: seq<Task>): set<string> {
    set t | t in ts :: t.id
  }

  /** No two tasks share an id (what `crypto.randomUUID()` is trusted to give). */
  predicate UniqueIds(ts: seq<Task>) {
    forall i, j :: 0 <= i < j < |ts| ==> ts[i].id != ts[j].id
  }

  /** `completedAt` is present exactly on completed tasks. */
  predicate CompletionStamped(t: Task) {
    t.completed <==> t.completedAt.Some?
  }

  /** The invariants every action of the store keeps (updateTask only for edits of editable fields). */
  predicate Consistent(ts: seq<Task>) {
    && UniqueIds(ts)
    && (forall t :: t in ts ==> WellFormed(t))
    && (forall t :: t in ts ==> CompletionStamped(t))
  }

  // ---------------------------------------------------------------- addTask

  /**
   * `addTask(text, isBacklog = true)`: prepends a fresh, incomplete task; an omitted
   * `isBacklog` means Backlog, `false` means Today. The store trims nothing and rejects
   * nothing: the screens guard blank input before calling it.
   */
  function AddTask(ts: seq<Task>, text: string, isBacklog: Option<bool>, id: string, now: Timestamp): (r: seq<Task>)
    ensures |r| == |ts| + 1 && r[1..] == ts
    ensures r[0].id == id && r[0].text == text && r[0].createdAt == now
    ensures !r[0].completed && r[0].completedAt == None && !r[0].hasNote && r[0].category == None
    ensures BucketOf(r[0]) == if isBacklog.GetOr(true) then Some(Backlog) else Some(Today)
  {
    [Task(id, text, false, false, isBacklog.GetOr(true), false, None, now, None)] + ts
  }

  /** A task added with an id not yet in use keeps the store consistent. */
  lemma AddTaskConsistent(ts: seq<Task>, text: string, isBacklog: Option<bool>, id: string, now: Timestamp)
    requires Consistent(ts) && id !in Ids(ts)
    ensures Consistent(AddTask(ts, text, isBacklog, id, now))
  {
    var r := AddTask(ts, text, isBacklog, id, now);
    forall i, j | 0 <= i < j < |r| ensures r[i].id != r[j].id {
      if i == 0 {
        assert r[j] == ts[j - 1];
        assert r[j].id in Ids(ts);
      } else {
        assert r[i] == ts[i - 1] && r[j] == ts[j - 1];
      }
    }
  }

  // ---------------------------------------------------------------- updateTask

  /** `Partial<Task>`: a field is `None` when the key is absent; for optional fields `Some(None)` writes `undefined`. */
  datatype TaskPatch = TaskPatch(
    id: Option<string>,
    text: Option<string>,
    completed: Option<bool>,
    hasNote: Option<bool>,
    isBacklog: Option<bool>,
    isTomorrow: Option<bool>,
    category: Option<Option<Category>>,
    createdAt: Option<Timestamp>,
    completedAt: Option<Option<Timestamp>>)

  /**
   * A patch that leaves the id, the completion state and the bucket flags alone; it may
   * rewrite text, category, the note flag and the creation time.
   */
  predicate Editable(p: TaskPatch) {
    p.id.None? && p.completed.None? && p.isBacklog.None? && p.isTomorrow.None? && p.completedAt.None?
  }

  /** `{ ...t, ...p }`: a present key overrides, an absent one keeps the task's field. */
  function Merge(t: Task, p: TaskPatch): (r: Task)
    ensures p.id.Some? ==> r.id == p.id.value
    ensures p.id.None? ==> r.id == t.id
    ensures p.text.Some? ==> r.text == p.text.value
    ensures p.text.None? ==> r.text == t.text
    ensures p.completed.Some? ==> r.completed == p.completed.value
    ensures p.completed.None? ==> r.completed == t.completed
    ensures p.hasNote.Some? ==> r.hasNote == p.hasNote.value
    ensures p.hasNote.None? ==> r.hasNote == t.hasNote
    ensures p.isBacklog.Some? ==> r.isBacklog == p.isBacklog.value
    ensures p.isBacklog.None? ==> r.isBacklog == t.isBacklog
    ensures p.isTomorrow.Some? ==> r.isTomorrow == p.isTomorrow.value
    ensures p.isTomorrow.None? ==> r.isTomorrow == t.isTomorrow
    ensures p.category.Some? ==> r.category == p.category.value
    ensures p.category.None? ==> r.category == t.category
    ensures p.createdAt.Some? ==> r.createdAt == p.createdAt.value
    ensures p.createdAt.None? ==> r.createdAt == t.createdAt
    ensures p.completedAt.Some? ==> r.completedAt == p.completedAt.value
    ensures p.completedAt.None? ==> r.completedAt == t.completedAt
    ensures p == TaskPatch(None, None, None, None, None, None, None, None, None) ==> r == t
    ensures Editable(p) ==> r.id == t.id && r.completed == t.completed && r.completedAt == t.completedAt
                            && r.isBacklog == t.isBacklog && r.isTomorrow == t.isTomorrow
  {
    Task(
      p.id.GetOr(t.id),
      p.text.GetOr(t.text),
      p.completed.GetOr(t.completed),
      p.hasNote.GetOr(t.hasNote),
      p.isBacklog.GetOr(t.isBacklog),
      p.isTomorrow.GetOr(t.isTomorrow),
      p.category.GetOr(t.category),
      p.createdAt.GetOr(t.createdAt),
      p.completedAt.GetOr(t.completedAt))
  }

  /** `updateTask(id, updates)`: merges the patch into every task with that id; unknown ids change nothing. */
  function UpdateTask(ts: seq<Task>, id: string, p: TaskPatch): (r: seq<Task>)
    ensures |r| == |ts|
    ensures forall i :: 0 <= i < |ts| ==> r[i] == if ts[i].id == id then Merge(ts[i], p) else ts[i]
    ensures id !in Ids(ts) ==> r == ts
  {
    Seqs.MapWhere(ts, (t: Task) => t.id == id, (t: Task) => Merge(t, p))
  }

  // ---------------------------------------------------------------- toggleTask

  /** One task's completion flip: `completedAt` is stamped when it becomes true and cleared otherwise. */
  function Toggle(t: Task, now: Timestamp): (r: Task)
    ensures r.completed == !t.completed
    ensures r.completedAt == if r.completed then Some(now) else None
    ensures r == t.(completed := r.completed, completedAt := r.completedAt)
  {
    var done := !t.completed;
    t.(completed := done, completedAt := if done then Some(now) else None)
  }

  /** `toggleTask(id)`: flips every task with that id at time `now`. */
  function ToggleTask(ts: seq<Task>, id: string, now: Timestamp): (r: seq<Task>)
    ensures |r| == |ts|
    ensures forall i :: 0 <= i < |ts| ==> r[i] == if ts[i].id == id then Toggle(ts[i], now) else ts[i]
    ensures id !in Ids(ts) ==> r == ts
  {
    Seqs.MapWhere(ts, (t: Task) => t.id == id, (t: Task) => Toggle(t, now))
  }

  /**
   * Toggling twice leaves a matching task with its old completion state; an incomplete
   * one comes back with `completedAt` cleared, a completed one re-stamped at `later`.
   */
  lemma ToggleTwice(ts: seq<Task>, id: string, now: Timestamp, later: Timestamp)
    ensures var r := ToggleTask(ToggleTask(ts, id, now), id, later);
      && |r| == |ts|
      && forall i :: 0 <= i < |ts| ==>
           r[i] == if ts[i].id != id then ts[i]
                   else ts[i].(completedAt := if ts[i].completed then Some(later) else None)
  {
    var once := ToggleTask(ts, id, now);
    var r := ToggleTask(once, id, later);
    forall i | 0 <= i < |ts|
      ensures r[i] == if ts[i].id != id then ts[i]
                      else ts[i].(completedAt := if ts[i].completed then Some(later) else None)
    {
      assert once[i].id == ts[i].id;
    }
  }

  /** On a consistent store, toggling an incomplete task twice restores the store exactly. */
  lemma ToggleTwiceRestores(ts: seq<Task>, id: string, now: Timestamp, later: Timestamp)
    requires Consistent(ts)
    requires forall t :: t in ts && t.id == id ==> !t.completed
    ensures ToggleTask(ToggleTask(ts, id, now), id, later) == ts
  {
    ToggleTwice(ts, id, now, later);
    var r := ToggleTask(ToggleTask(ts, id, now), id, later);
    forall i | 0 <= i < |ts| ensures r[i] == ts[i] {
      assert ts[i] in ts;
    }
  }

  // ---------------------------------------------------------------- deleteTask

  /** `deleteTask(id)`: drops every task with that id, keeping the rest with their multiplicity and order. */
  function DeleteTask(ts: seq<Task>, id: string): (r: seq<Task>)
    ensures id !in Ids(r)
    ensures forall t: Task :: t.id != id ==> multiset(r)[t] == multiset(ts)[t]
    ensures |r| == |ts| - |Seqs.Filter(ts, (t: Task) => t.id == id)|
  {
    var r := Seqs.Filter(ts, (t: Task) => t.id != id);
    Seqs.FilterMultiset(ts, (t: Task) => t.id != id);
    Seqs.FilterSplit(ts, (t: Task) => t.id != id, (t: Task) => t.id == id);
    r
  }

  /**
   * Deletion works task by task and keeps the survivors' order: it distributes over
   * concatenation, and a single task is kept exactly when its id differs.
   */
  lemma DeleteKeepsOrder(a: seq<Task>, b: seq<Task>, id: string)
    ensures DeleteTask(a + b, id) == DeleteTask(a, id) + DeleteTask(b, id)
    ensures forall t: Task :: DeleteTask([t], id) == if t.id == id then [] else [t]
  {
    Seqs.FilterAppend(a, b, (t: Task) => t.id != id);
    forall t: Task ensures DeleteTask([t], id) == if t.id == id then [] else [t] {
      assert [t][1..] == [];
    }
  }

  /** Deleting an unknown id is a no-op. */
  lemma DeleteUnknown(ts: seq<Task>, id: string)
    requires id !in Ids(ts)
    ensures DeleteTask(ts, id) == ts
  {
    Seqs.FilterAll(ts, (t: Task) => t.id != id);
  }

  // ---------------------------------------------------------------- setHasNote

  /** `setHasNote(id, hasNote)`: sets the note flag of every task with that id and nothing else. */
  function SetHasNote(ts: seq<Task>, id: string, hasNote: bool): (r: seq<Task>)
    ensures |r| == |ts|
    ensures forall i :: 0 <= i < |ts| ==> r[i] == if ts[i].id == id then ts[i].(hasNote := hasNote) else ts[i]
    ensures id !in Ids(ts) ==> r == ts
  {
    Seqs.MapWhere(ts, (t: Task) => t.id == id, (t: Task) => t.(hasNote := hasNote))
  }

  // ---------------------------------------------------------------- moveTo*

  /**
   * `moveToTomorrow`, `moveToBacklog`, `moveToToday`: the matching task lands in exactly
   * the destination bucket, every other field and every other task unchanged.
   */
  function MoveTo(ts: seq<Task>, id: string, dest: Bucket): (r: seq<Task>)
    ensures |r| == |ts|
    ensures forall i :: 0 <= i < |ts| && ts[i].id == id ==>
              BucketOf(r[i]) == Some(dest) && r[i] == ts[i].(isBacklog := r[i].isBacklog, isTomorrow := r[i].isTomorrow)
    ensures forall i :: 0 <= i < |ts| && ts[i].id != id ==> r[i] == ts[i]
    ensures id !in Ids(ts) ==> r == ts
  {
    Seqs.MapWhere(ts, (t: Task) => t.id == id, (t: Task) => Place(t, dest))
  }

  /** Ids are never changed by a per-id update that keeps ids. */
  lemma MapKeepsIds(ts: seq<Task>, r: seq<Task>)
    requires |r| == |ts| && forall i :: 0 <= i < |ts| ==> r[i].id == ts[i].id
    ensures UniqueIds(ts) ==> UniqueIds(r)
    ensures Ids(r) == Ids(ts)
  {
    forall x | x in Ids(r) ensures x in Ids(ts) {
      var i :| 0 <= i < |r| && r[i].id == x;
      assert ts[i] in ts;
    }
    forall x | x in Ids(ts) ensures x in Ids(r) {
      var i :| 0 <= i < |ts| && ts[i].id == x;
      assert r[i] in r;
    }
  }

  /** A per-task rewrite that keeps ids, well-formedness and completion stamps keeps the store consistent. */
  lemma RewriteKeepsConsistent(ts: seq<Task>, r: seq<Task>)
    requires Consistent(ts)
    requires |r| == |ts|
    requires forall i :: 0 <= i < |ts| ==> r[i].id == ts[i].id && WellFormed(r[i])
    requires forall i :: 0 <= i < |ts| ==> CompletionStamped(ts[i]) ==> CompletionStamped(r[i])
    ensures Consistent(r)
  {
    MapKeepsIds(ts, r);
    forall u | u in r ensures CompletionStamped(u) {
      var i :| 0 <= i < |r| && r[i] == u;
      assert ts[i] in ts;
    }
  }

  /** The move actions keep the store consistent. */
  lemma MoveKeepsConsistent(ts: seq<Task>, id: string, dest: Bucket)
    requires Consistent(ts)
    ensures Consistent(MoveTo(ts, id, dest))
  {
    var r := MoveTo(ts, id, dest);
    forall i | 0 <= i < |ts| ensures WellFormed(r[i]) {
      assert ts[i] in ts;
    }
    RewriteKeepsConsistent(ts, r);
  }

  /** `toggleTask` keeps the store consistent: it stamps exactly the tasks it completes. */
  lemma ToggleKeepsConsistent(ts: seq<Task>, id: string, now: Timestamp)
    requires Consistent(ts)
    ensures Consistent(ToggleTask(ts, id, now))
  {
    var r := ToggleTask(ts, id, now);
    forall i | 0 <= i < |ts| ensures WellFormed(r[i]) {
      assert ts[i] in ts;
    }
    RewriteKeepsConsistent(ts, r);
  }

  /** `setHasNote` and an `updateTask` of editable fields keep the store consistent. */
  lemma EditKeepsConsistent(ts: seq<Task>, id: string, h: bool, p: TaskPatch)
    requires Consistent(ts)
    requires Editable(p)
    ensures Consistent(SetHasNote(ts, id, h))
    ensures Consistent(UpdateTask(ts, id, p))
  {
    var n := SetHasNote(ts, id, h);
    forall i | 0 <= i < |ts| ensures WellFormed(n[i]) {
      assert ts[i] in ts;
    }
    RewriteKeepsConsistent(ts, n);
    var u := UpdateTask(ts, id, p);
    forall i | 0 <= i < |ts| ensures WellFormed(u[i]) {
      assert ts[i] in ts;
    }
    RewriteKeepsConsistent(ts, u);
  }

  /** `deleteTask` keeps the store consistent. */
  lemma DeleteKeepsConsistent(ts: seq<Task>, id: string)
    requires Consistent(ts)
    ensures Consistent(DeleteTask(ts, id))
  {
    FilterKeepsUnique(ts, (t: Task) => t.id != id);
  }

  /** A filter of a store with unique ids has unique ids. */
  lemma {:induction false} FilterKeepsUnique(ts: seq<Task>, p: Task -> bool)
    requires UniqueIds(ts)
    ensures UniqueIds(Seqs.Filter(ts, p))
    decreases |ts|
  {
    if ts != [] {
      FilterKeepsUnique(ts[1..], p);
      var rest := Seqs.Filter(ts[1..], p);
      forall u | u in rest ensures u.id != ts[0].id {
        var k :| 0 <= k < |ts[1..]| && ts[1..][k] == u;
        assert ts[k + 1] == u;
      }
    }
  }

  // ---------------------------------------------------------------- lockTomorrow

  /** A completed task, whatever its bucket. */
  predicate IsCompleted(t: Task) {
    t.completed
  }

  /** Today and completed: the tasks the rollover deletes. */
  predicate DoneToday(t: Task) {
    InToday(t) && t.completed
  }

  /** What the rollover turns one task into; `None` when it deletes it. */
  function RollOver(t: Task): (r: Option<Task>)
    ensures r == None <==> DoneToday(t)
    ensures InToday(t) && !t.completed ==> r == Some(t.(isBacklog := true))
    ensures t.isTomorrow ==> r == Some(Place(t, Today))
    ensures t.isBacklog && !t.isTomorrow ==> r == Some(t)
    ensures r.Some? ==> WellFormed(r.value) && !r.value.isTomorrow
    ensures r.Some? ==> r.value == t.(isBacklog := r.value.isBacklog, isTomorrow := r.value.isTomorrow)
  {
    if !t.isBacklog && !t.isTomorrow && !t.completed then Some(t.(isBacklog := true))
    else if !t.isBacklog && !t.isTomorrow && t.completed then None
    else if t.isTomorrow then Some(t.(isTomorrow := false, isBacklog := false))
    else Some(t)
  }

  /**
   * `lockTomorrow()`'s new task array: completed Today tasks are gone, the rest of
   * Today is demoted to Backlog, the staged tasks become Today, order is kept, and no
   * task is left staged.
   */
  function LockTomorrow(ts: seq<Task>): (r: seq<Task>)
    ensures |r| == |ts| - |Seqs.Filter(ts, DoneToday)|
    ensures forall u :: u in r ==> !u.isTomorrow && WellFormed(u)
    decreases |ts|
  {
    if ts == [] then [] else RollOne(ts[0]) + LockTomorrow(ts[1..])
  }

  /** One task's contribution to the new array: nothing, or what it rolls over into. */
  function RollOne(t: Task): (r: seq<Task>)
    ensures |r| == if DoneToday(t) then 0 else 1
    ensures forall u :: u in r <==> RollOver(t) == Some(u)
  {
    match RollOver(t)
    case Some(u) => [u]
    case None => []
  }

  /** The rollover works task by task: it distributes over concatenation, so relative order is kept. */
  lemma {:induction false} LockTomorrowAppend(a: seq<Task>, b: seq<Task>)
    ensures LockTomorrow(a + b) == LockTomorrow(a) + LockTomorrow(b)
    decreases |a|
  {
    if a == [] {
      assert a + b == b;
    } else {
      assert (a + b)[0] == a[0];
      assert (a + b)[1..] == a[1..] + b;
      LockTomorrowAppend(a[1..], b);
    }
  }

  /** A task is in the new array exactly when some old task rolls over into it. */
  lemma {:induction false} LockTomorrowMembers(ts: seq<Task>, u: Task)
    ensures u in LockTomorrow(ts) <==> exists t :: t in ts && RollOver(t) == Some(u)
    decreases |ts|
  {
    if ts != [] {
      LockTomorrowMembers(ts[1..], u);
      if exists t :: t in ts && RollOver(t) == Some(u) {
        var t :| t in ts && RollOver(t) == Some(u);
        if t != ts[0] {
          assert t in ts[1..];
        }
      }
    }
  }

  /**
   * The rollover's case split: every incomplete Today task is in Backlog afterwards,
   * every staged task is in Today, Backlog-only tasks are identical, and with unique
   * ids a completed Today task leaves no trace.
   */
  lemma LockTomorrowCases(ts: seq<Task>, t: Task)
    requires t in ts
    ensures InToday(t) && !t.completed ==> t.(isBacklog := true) in LockTomorrow(ts)
    ensures t.isTomorrow ==> Place(t, Today) in LockTomorrow(ts)
    ensures t.isBacklog && !t.isTomorrow ==> t in LockTomorrow(ts)
    ensures UniqueIds(ts) && DoneToday(t) ==> t.id !in Ids(LockTomorrow(ts))
  {
    var r := LockTomorrow(ts);
    if RollOver(t).Some? {
      LockTomorrowMembers(ts, RollOver(t).value);
    }
    if UniqueIds(ts) && DoneToday(t) && t.id in Ids(r) {
      var u :| u in r && u.id == t.id;
      LockTomorrowMembers(ts, u);
    }
  }

  /** The rollover keeps the store consistent, whatever flags it started from. */
  lemma {:induction false} LockTomorrowConsistent(ts: seq<Task>)
    requires Consistent(ts)
    ensures Consistent(LockTomorrow(ts))
    decreases |ts|
  {
    if ts != [] {
      var rest := ts[1..];
      LockTomorrowConsistent(rest);
      var head := RollOne(ts[0]);
      var r := LockTomorrow(ts);
      assert r == head + LockTomorrow(rest);
      forall u | u in head ensures u.id == ts[0].id && CompletionStamped(u) {
        assert ts[0] in ts;
      }
      forall u | u in LockTomorrow(rest) ensures u.id != ts[0].id && CompletionStamped(u) {
        LockTomorrowMembers(rest, u);
        var s :| s in rest && RollOver(s) == Some(u);
        var k :| 0 <= k < |rest| && rest[k] == s;
        assert ts[k + 1] == s;
      }
      forall u | u in r ensures CompletionStamped(u) {
        assert u in head || u in LockTomorrow(rest);
      }
    }
  }

  /** The end-to-end path: a new Backlog task staged for tomorrow is an open Today task after the lock. */
  lemma PlanTripScenario(id: string, now: Timestamp)
    ensures var added := AddTask([], "Plan trip", None, id, now);
      && BucketOf(added[0]) == Some(Backlog)
      && var locked := LockTomorrow(MoveTo(added, id, Tomorrow));
         |locked| == 1 && locked[0].id == id && BucketOf(locked[0]) == Some(Today) && !locked[0].completed
  {
    var added := AddTask([], "Plan trip", None, id, now);
    var staged := MoveTo(added, id, Tomorrow);
    assert LockTomorrow(staged) == [Place(staged[0], Today)] + LockTomorrow([]);
  }
}
