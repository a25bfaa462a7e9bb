/**
 * The locked store itself (store/useLockedStore.ts): one object whose fields every
 * action replaces wholesale, each new value computed by the pure functions of
 * `Tasks` and `Journal`. `Date.now()`, `crypto.randomUUID()` and `new Date().getDate()`
 * are parameters of the actions that call them.
 */
module Store {
  import opened Wrappers
  import Tasks
  import Journal

  datatype Tab = TodayTab | BacklogTab | SettingsTab | EveningRitualTab | CompletedTab | ReflectTab

  class LockedStore {
    var tasks: seq<Tasks.Task>
    var monthlyEntries: seq<Journal.MonthlyEntry>
    var isLocked: bool
    var activeTab: Tab
    var baseIncome: Option<Journal.Amount>
    var baseDebt: Option<Journal.Amount>

    /** Unique task ids, one bucket per task, stamps exactly on completed tasks, one entry per month. */
    ghost predicate Valid()
      reads this
    {
      Tasks.Consistent(tasks) && Journal.UniqueMonths(monthlyEntries)
    }

    /** The store as first created: the given tasks, no entries, locked, on the Today tab. */
    constructor (seed: seq<Tasks.Task>)
      ensures tasks == seed && monthlyEntries == [] && isLocked && activeTab == TodayTab
      ensures baseIncome == None && baseDebt == None
      ensures Tasks.Consistent(seed) ==> Valid()
    {
      tasks := seed;
      monthlyEntries := [];
      isLocked := true;
      activeTab := TodayTab;
      baseIncome := None;
      baseDebt := None;
    }

    // ------------------------------------------------------------ task actions

    method AddTask(text: string, isBacklog: Option<bool>, id: string, now: Tasks.Timestamp)
      modifies this
      ensures tasks == Tasks.AddTask(old(tasks), text, isBacklog, id, now)
      ensures monthlyEntries == old(monthlyEntries) && isLocked == old(isLocked) && activeTab == old(activeTab)
      ensures baseIncome == old(baseIncome) && baseDebt == old(baseDebt)
      ensures old(Valid()) && id !in Tasks.Ids(old(tasks)) ==> Valid()
    {
      if Valid() && id !in Tasks.Ids(tasks) {
        Tasks.AddTaskConsistent(tasks, text, isBacklog, id, now);
      }
      tasks := Tasks.AddTask(tasks, text, isBacklog, id, now);
    }

    method UpdateTask(id: string, p: Tasks.TaskPatch)
      modifies this
      ensures tasks == Tasks.UpdateTask(old(tasks), id, p)
      ensures monthlyEntries == old(monthlyEntries) && isLocked == old(isLocked) && activeTab == old(activeTab)
      ensures baseIncome == old(baseIncome) && baseDebt == old(baseDebt)
      ensures old(Valid()) && Tasks.Editable(p) ==> Valid()
    {
      if Valid() && Tasks.Editable(p) {
        Tasks.EditKeepsConsistent(tasks, id, false, p);
      }
      tasks := Tasks.UpdateTask(tasks, id, p);
    }

    method ToggleTask(id: string, now: Tasks.Timestamp)
      modifies this
      ensures tasks == Tasks.ToggleTask(old(tasks), id, now)
      ensures monthlyEntries == old(monthlyEntries) && isLocked == old(isLocked) && activeTab == old(activeTab)
      ensures baseIncome == old(baseIncome) && baseDebt == old(baseDebt)
      ensures old(Valid()) ==> Valid()
    {
      if Valid() {
        Tasks.ToggleKeepsConsistent(tasks, id, now);
      }
      tasks := Tasks.ToggleTask(tasks, id, now);
    }

    method DeleteTask(id: string)
      modifies this
      ensures tasks == Tasks.DeleteTask(old(tasks), id)
      ensures monthlyEntries == old(monthlyEntries) && isLocked == old(isLocked) && activeTab == old(activeTab)
      ensures baseIncome == old(baseIncome) && baseDebt == old(baseDebt)
      ensures old(Valid()) ==> Valid()
    {
      if Valid() {
        Tasks.DeleteKeepsConsistent(tasks, id);
      }
      tasks := Tasks.DeleteTask(tasks, id);
    }

    method SetHasNote(id: string, hasNote: bool)
      modifies this
      ensures tasks == Tasks.SetHasNote(old(tasks), id, hasNote)
      ensures monthlyEntries == old(monthlyEntries) && isLocked == old(isLocked) && activeTab == old(activeTab)
      ensures baseIncome == old(baseIncome) && baseDebt == old(baseDebt)
      ensures old(Valid()) ==> Valid()
    {
      if Valid() {
        Tasks.EditKeepsConsistent(tasks, id, hasNote, Tasks.TaskPatch(None, None, None, None, None, None, None, None, None));
      }
      tasks := Tasks.SetHasNote(tasks, id, hasNote);
    }

    // ------------------------------------------------------------ flow actions

    method MoveToTomorrow(id: string)
      modifies this
      ensures tasks == Tasks.MoveTo(old(tasks), id, Tasks.Tomorrow)
      ensures monthlyEntries == old(monthlyEntries) && isLocked == old(isLocked) && activeTab == old(activeTab)
      ensures baseIncome == old(baseIncome) && baseDebt == old(baseDebt)
      ensures old(Valid()) ==> Valid()
    {
      if Valid() {
        Tasks.MoveKeepsConsistent(tasks, id, Tasks.Tomorrow);
      }
      tasks := Tasks.MoveTo(tasks, id, Tasks.Tomorrow);
    }

    method MoveToBacklog(id: string)
      modifies this
      ensures tasks == Tasks.MoveTo(old(tasks), id, Tasks.Backlog)
      ensures monthlyEntries == old(monthlyEntries) && isLocked == old(isLocked) && activeTab == old(activeTab)
      ensures baseIncome == old(baseIncome) && baseDebt == old(baseDebt)
      ensures old(Valid()) ==> Valid()
    {
      if Valid() {
        Tasks.MoveKeepsConsistent(tasks, id, Tasks.Backlog);
      }
      tasks := Tasks.MoveTo(tasks, id, Tasks.Backlog);
    }

    method MoveToToday(id: string)
      modifies this
      ensures tasks == Tasks.MoveTo(old(tasks), id, Tasks.Today)
      ensures monthlyEntries == old(monthlyEntries) && isLocked == old(isLocked) && activeTab == old(activeTab)
      ensures baseIncome == old(baseIncome) && baseDebt == old(baseDebt)
      ensures old(Valid()) ==> Valid()
    {
      if Valid() {
        Tasks.MoveKeepsConsistent(tasks, id, Tasks.Today);
      }
      tasks := Tasks.MoveTo(tasks, id, Tasks.Today);
    }

    /** The day rollover: the new task array in one replacement, then back to a locked Today tab. */
    method LockTomorrow()
      modifies this
      ensures tasks == Tasks.LockTomorrow(old(tasks))
      ensures activeTab == TodayTab && isLocked
      ensures monthlyEntries == old(monthlyEntries)
      ensures baseIncome == old(baseIncome) && baseDebt == old(baseDebt)
      ensures old(Valid()) ==> Valid()
    {
      if Valid() {
        Tasks.LockTomorrowConsistent(tasks);
      }
      tasks := Tasks.LockTomorrow(tasks);
      activeTab := TodayTab;
      isLocked := true;
    }

    method SetLocked(locked: bool)
      modifies this
      ensures isLocked == locked
      ensures tasks == old(tasks) && monthlyEntries == old(monthlyEntries) && activeTab == old(activeTab)
      ensures baseIncome == old(baseIncome) && baseDebt == old(baseDebt)
    {
      isLocked := locked;
    }

    method SetActiveTab(tab: Tab)
      modifies this
      ensures activeTab == tab
      ensures tasks == old(tasks) && monthlyEntries == old(monthlyEntries) && isLocked == old(isLocked)
      ensures baseIncome == old(baseIncome) && baseDebt == old(baseDebt)
    {
      activeTab := tab;
    }

    method ClearAllTasks()
      modifies this
      ensures tasks == []
      ensures monthlyEntries == old(monthlyEntries) && isLocked == old(isLocked) && activeTab == old(activeTab)
      ensures baseIncome == old(baseIncome) && baseDebt == old(baseDebt)
      ensures old(Valid()) ==> Valid()
    {
      tasks := [];
    }

    /** Both figures are written, an omitted one becoming `undefined`. */
    method SetBaseFinancials(income: Option<Journal.Amount>, debt: Option<Journal.Amount>)
      modifies this
      ensures baseIncome == income && baseDebt == debt
      ensures tasks == old(tasks) && monthlyEntries == old(monthlyEntries)
      ensures isLocked == old(isLocked) && activeTab == old(activeTab)
    {
      baseIncome, baseDebt := income, debt;
    }

    // ------------------------------------------------------------ reflect actions

    method CreateOrUpdateMonthlyEntry(month: string, data: Journal.EntryPatch, id: string, now: Tasks.Timestamp)
      modifies this
      ensures monthlyEntries == Journal.CreateOrUpdate(old(monthlyEntries), month, data, id, now)
      ensures tasks == old(tasks) && isLocked == old(isLocked) && activeTab == old(activeTab)
      ensures baseIncome == old(baseIncome) && baseDebt == old(baseDebt)
      ensures old(Valid()) && data.month.None? ==> Valid()
    {
      if Valid() && data.month.None? {
        Journal.CreateOrUpdateKeepsUnique(monthlyEntries, month, data, id, now);
      }
      monthlyEntries := Journal.CreateOrUpdate(monthlyEntries, month, data, id, now);
    }

    method AddWeeklyNote(month: string, note: string, day: int, noteId: string, entryId: string, now: Tasks.Timestamp)
      requires 1 <= day <= 31
      modifies this
      ensures monthlyEntries == Journal.AddWeeklyNote(old(monthlyEntries), month, note, day, noteId, entryId, now)
      ensures tasks == old(tasks) && isLocked == old(isLocked) && activeTab == old(activeTab)
      ensures baseIncome == old(baseIncome) && baseDebt == old(baseDebt)
      ensures old(Valid()) ==> Valid()
    {
      if Valid() {
        Journal.AddWeeklyNoteAppends(monthlyEntries, month, note, day, noteId, entryId, now);
      }
      monthlyEntries := Journal.AddWeeklyNote(monthlyEntries, month, note, day, noteId, entryId, now);
    }

    method LockMonthlyEntry(month: string, now: Tasks.Timestamp)
      modifies this
      ensures monthlyEntries == Journal.LockMonthlyEntry(old(monthlyEntries), month, now)
      ensures tasks == old(tasks) && isLocked == old(isLocked) && activeTab == old(activeTab)
      ensures baseIncome == old(baseIncome) && baseDebt == old(baseDebt)
      ensures old(Valid()) ==> Valid()
    {
      monthlyEntries := Journal.LockMonthlyEntry(monthlyEntries, month, now);
    }
  }
}
