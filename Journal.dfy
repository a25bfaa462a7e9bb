/**
 * The monthly-reflection half of the locked store (store/useLockedStore.ts): entries
 * keyed by a `"YYYY-MM"` month string, created lazily, merged in place, accreting
 * weekly notes and stamped with `lockedAt`. The store never consults `lockedAt`;
 * only the Reflect screen's disabled inputs honour it.
 */
module Journal {
  import opened Wrappers
  import Seqs
  import Tasks

  /** An income or debt figure; how the screen parses it from text is not modelled. */
  type Amount = int

  datatype WeeklyNote = WeeklyNote(id: string, weekNumber: int, note: string, createdAt: Tasks.Timestamp)

  datatype MonthlyEntry = MonthlyEntry(
    id: string,
    month: string,
    income: Option<Amount>,
    incomeNote: Option<string>,
    debt: Option<Amount>,
    letGoOf: seq<string>,
    moveToward: seq<string>,
    oneLiner: string,
    weeklyNotes: seq<WeeklyNote>,
    createdAt: Tasks.Timestamp,
    lockedAt: Option<Tasks.Timestamp>)

  /** `Partial<MonthlyEntry>`: `None` is an absent key; for optional fields `Some(None)` writes `undefined`. */
  datatype EntryPatch = EntryPatch(
    id: Option<string>,
    month: Option<string>,
    income: Option<Option<Amount>>,
    incomeNote: Option<Option<string>>,
    debt: Option<Option<Amount>>,
    letGoOf: Option<seq<string>>,
    moveToward: Option<seq<string>>,
    oneLiner: Option<string>,
    weeklyNotes: Option<seq<WeeklyNote>>,
    createdAt: Option<Tasks.Timestamp>,
    lockedAt: Option<Option<Tasks.Timestamp>>)

  /** `{ ...e, ...p }`. */
  function Merge(e: MonthlyEntry, p: EntryPatch): (r: MonthlyEntry)
    ensures p.id.Some? ==> r.id == p.id.value
    ensures p.id.None? ==> r.id == e.id
    ensures p.month.Some? ==> r.month == p.month.value
    ensures p.month.None? ==> r.month == e.month
    ensures p.income.Some? ==> r.income == p.income.value
    ensures p.income.None? ==> r.income == e.income
    ensures p.incomeNote.Some? ==> r.incomeNote == p.incomeNote.value
    ensures p.incomeNote.None? ==> r.incomeNote == e.incomeNote
    ensures p.debt.Some? ==> r.debt == p.debt.value
    ensures p.debt.None? ==> r.debt == e.debt
    ensures p.letGoOf.Some? ==> r.letGoOf == p.letGoOf.value
    ensures p.letGoOf.None? ==> r.letGoOf == e.letGoOf
    ensures p.moveToward.Some? ==> r.moveToward == p.moveToward.value
    ensures p.moveToward.None? ==> r.moveToward == e.moveToward
    ensures p.oneLiner.Some? ==> r.oneLiner == p.oneLiner.value
    ensures p.oneLiner.None? ==> r.oneLiner == e.oneLiner
    ensures p.weeklyNotes.Some? ==> r.weeklyNotes == p.weeklyNotes.value
    ensures p.weeklyNotes.None? ==> r.weeklyNotes == e.weeklyNotes
    ensures p.createdAt.Some? ==> r.createdAt == p.createdAt.value
    ensures p.createdAt.None? ==> r.createdAt == e.createdAt
    ensures p.lockedAt.Some? ==> r.lockedAt == p.lockedAt.value
    ensures p.lockedAt.None? ==> r.lockedAt == e.lockedAt
  {
    MonthlyEntry(
      p.id.GetOr(e.id),
      p.month.GetOr(e.month),
      p.income.GetOr(e.income),
      p.incomeNote.GetOr(e.incomeNote),
      p.debt.GetOr(e.debt),
      p.letGoOf.GetOr(e.letGoOf),
      p.moveToward.GetOr(e.moveToward),
      p.oneLiner.GetOr(e.oneLiner),
      p.weeklyNotes.GetOr(e.weeklyNotes),
      p.createdAt.GetOr(e.createdAt),
      p.lockedAt.GetOr(e.lockedAt))
  }

  /** The entry a first write for `month` starts from: empty lists, empty one-liner, no figures, not locked. */
  function Blank(id: string, month: string, now: Tasks.Timestamp): MonthlyEntry {
    MonthlyEntry(id, month, None, None, None, [], [], "", [], now, None)
  }

  /** `entries.findIndex(e => e.month === month)`: the first entry for the month, or -1. */
  function FindMonth(es: seq<MonthlyEntry>, month: string): (k: int)
    ensures -1 <= k < |es|
    ensures k == -1 <==> forall i :: 0 <= i < |es| ==> es[i].month != month
    ensures k >= 0 ==> es[k].month == month && forall i :: 0 <= i < k ==> es[i].month != month
    decreases |es|
  {
    if es == [] then -1
    else if es[0].month == month then 0
    else
      var k := FindMonth(es[1..], month);
      if k == -1 then -1 else k + 1
  }

  /** At most one entry per month key. */
  predicate UniqueMonths(es: seq<MonthlyEntry>) {
    forall i, j :: 0 <= i < j < |es| ==> es[i].month != es[j].month
  }

  /** With unique months, the entry found is the only one for that month. */
  lemma FindMonthUnique(es: seq<MonthlyEntry>, month: string, i: int)
    requires UniqueMonths(es)
    requires 0 <= i < |es| && es[i].month == month
    ensures FindMonth(es, month) == i
  {
  }

  // ---------------------------------------------------------------- createOrUpdateMonthlyEntry

  /**
   * `createOrUpdateMonthlyEntry(month, data)`: an existing entry is merged with `data`
   * at its own index; otherwise a blank entry overridden by `data` is prepended.
   */
  function CreateOrUpdate(es: seq<MonthlyEntry>, month: string, data: EntryPatch, id: string, now: Tasks.Timestamp): (r: seq<MonthlyEntry>)
    ensures var k := FindMonth(es, month);
      if k >= 0 then
        |r| == |es| && r[k] == Merge(es[k], data) && forall i :: 0 <= i < |es| && i != k ==> r[i] == es[i]
      else
        r == [Merge(Blank(id, month, now), data)] + es
  {
    var k := FindMonth(es, month);
    if k >= 0 then es[k := Merge(es[k], data)]
    else [Merge(Blank(id, month, now), data)] + es
  }

  /** Upserts that leave the month key alone keep months unique, and afterwards an entry for the month exists. */
  lemma CreateOrUpdateKeepsUnique(es: seq<MonthlyEntry>, month: string, data: EntryPatch, id: string, now: Tasks.Timestamp)
    requires UniqueMonths(es)
    requires data.month.None?
    ensures var r := CreateOrUpdate(es, month, data, id, now);
      UniqueMonths(r) && FindMonth(r, month) >= 0
  {
    var r := CreateOrUpdate(es, month, data, id, now);
    var k := FindMonth(es, month);
    if k >= 0 {
      assert forall i :: 0 <= i < |r| ==> r[i].month == es[i].month;
    } else {
      assert r[0].month == month;
      forall i, j | 0 <= i < j < |r| ensures r[i].month != r[j].month {
        if i > 0 {
          assert r[i] == es[i - 1] && r[j] == es[j - 1];
        } else {
          assert r[j] == es[j - 1];
        }
      }
    }
  }

  /**
   * The store does not enforce the lock: an upsert on a locked entry still overwrites
   * its one-liner (the Reflect screen only disables the inputs).
   */
  lemma LockNotEnforced(es: seq<MonthlyEntry>, month: string, data: EntryPatch, id: string, now: Tasks.Timestamp)
    requires UniqueMonths(es)
    requires exists i :: 0 <= i < |es| && es[i].month == month && es[i].lockedAt.Some?
    requires data.oneLiner.Some?
    ensures exists i :: 0 <= i < |es| && CreateOrUpdate(es, month, data, id, now)[i].oneLiner == data.oneLiner.value
                        && es[i].lockedAt.Some?
  {
    var i :| 0 <= i < |es| && es[i].month == month && es[i].lockedAt.Some?;
    FindMonthUnique(es, month, i);
  }

  // ---------------------------------------------------------------- addWeeklyNote

  /** `Math.ceil(day / 7)` for a day of the month: the week of the month the day falls in. */
  function WeekNumber(day: int): (w: int)
    requires 1 <= day <= 31
    ensures 1 <= w <= 5
    ensures 7 * (w - 1) < day <= 7 * w
  {
    (day + 6) / 7
  }

  /**
   * `addWeeklyNote(month, note)`: a note stamped with today's week of the month is
   * appended to the month's entry, or becomes the only note of a new, prepended entry.
   * `day` is today's day of the month, whatever month the note is for.
   */
  function AddWeeklyNote(es: seq<MonthlyEntry>, month: string, note: string, day: int,
                         noteId: string, entryId: string, now: Tasks.Timestamp): (r: seq<MonthlyEntry>)
    requires 1 <= day <= 31
    ensures var n := WeeklyNote(noteId, WeekNumber(day), note, now);
      var k := FindMonth(es, month);
      if k >= 0 then
        && |r| == |es|
        && r[k] == es[k].(weeklyNotes := es[k].weeklyNotes + [n])
        && forall i :: 0 <= i < |es| && i != k ==> r[i] == es[i]
      else
        r == [Blank(entryId, month, now).(weeklyNotes := [n])] + es
  {
    var n := WeeklyNote(noteId, WeekNumber(day), note, now);
    var k := FindMonth(es, month);
    if k >= 0 then es[k := es[k].(weeklyNotes := es[k].weeklyNotes + [n])]
    else [Blank(entryId, month, now).(weeklyNotes := [n])] + es
  }

  /**
   * Notes are append-only and ignore the lock: afterwards the month's entry exists,
   * keeps its old notes as a prefix, ends with the new note, and its `lockedAt` is as before.
   */
  lemma AddWeeklyNoteAppends(es: seq<MonthlyEntry>, month: string, note: string, day: int,
                             noteId: string, entryId: string, now: Tasks.Timestamp)
    requires UniqueMonths(es)
    requires 1 <= day <= 31
    ensures var r := AddWeeklyNote(es, month, note, day, noteId, entryId, now);
      var k := FindMonth(r, month);
      && UniqueMonths(r)
      && k >= 0
      && |r[k].weeklyNotes| >= 1
      && r[k].weeklyNotes[|r[k].weeklyNotes| - 1] == WeeklyNote(noteId, WeekNumber(day), note, now)
      && (FindMonth(es, month) >= 0 ==>
            r[k].weeklyNotes[..|r[k].weeklyNotes| - 1] == es[FindMonth(es, month)].weeklyNotes
            && r[k].lockedAt == es[FindMonth(es, month)].lockedAt)
  {
    var r := AddWeeklyNote(es, month, note, day, noteId, entryId, now);
    var k := FindMonth(es, month);
    if k >= 0 {
      assert forall i :: 0 <= i < |r| ==> r[i].month == es[i].month;
      FindMonthUnique(r, month, k);
    } else {
      forall i, j | 0 <= i < j < |r| ensures r[i].month != r[j].month {
        if i > 0 {
          assert r[i] == es[i - 1] && r[j] == es[j - 1];
        } else {
          assert r[j] == es[j - 1];
        }
      }
      FindMonthUnique(r, month, 0);
    }
  }

  // ---------------------------------------------------------------- lockMonthlyEntry

  /**
   * `lockMonthlyEntry(month)`: stamps `lockedAt` on every entry for the month (overwriting
   * an earlier stamp), creates nothing, and leaves the other entries alone.
   */
  function LockMonthlyEntry(es: seq<MonthlyEntry>, month: string, now: Tasks.Timestamp): (r: seq<MonthlyEntry>)
    ensures |r| == |es|
    ensures forall i :: 0 <= i < |es| ==> r[i] == if es[i].month == month then es[i].(lockedAt := Some(now)) else es[i]
  {
    Seqs.MapWhere(es, (e: MonthlyEntry) => e.month == month, (e: MonthlyEntry) => e.(lockedAt := Some(now)))
  }

  /** Locking again re-stamps: the second lock's time wins, so the lock is not idempotent in `lockedAt`. */
  lemma {:induction false} RelockRestamps(es: seq<MonthlyEntry>, month: string, first: Tasks.Timestamp, second: Tasks.Timestamp)
    ensures LockMonthlyEntry(LockMonthlyEntry(es, month, first), month, second) == LockMonthlyEntry(es, month, second)
  {
    var once := LockMonthlyEntry(es, month, first);
    var twice := LockMonthlyEntry(once, month, second);
    var direct := LockMonthlyEntry(es, month, second);
    forall i | 0 <= i < |es| ensures twice[i] == direct[i] {
      assert once[i].month == es[i].month;
    }
  }
}
