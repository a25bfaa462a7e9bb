/**
 * The Reflect screen's logic (components/screens/ReflectScreen.tsx): the current month
 * key, the last-week window that opens the monthly snapshot, the list editors, the
 * lock state read from the store, and the handlers that write to the store. Today's
 * date is passed in as year, zero-based month and day of the month.
 */
module ReflectScreen {
  import opened Wrappers
  import Text
  import Journal
  import Tasks

  // ---------------------------------------------------------------- getCurrentMonth

  /**
   * `getCurrentMonth()`: the year's decimal digits, a dash, and the one-based month
   * zero-padded to two digits (01 to 12).
   */
  function GetCurrentMonth(year: nat, monthIndex: int): (key: string)
    requires 0 <= monthIndex < 12
    ensures var y := Text.NatToString(year);
      && |key| == |y| + 3
      && key[..|y|] == y && key[|y|] == '-'
      && Text.AllDigits(key[|y| + 1..])
      && Text.DigitsValue(key[|y| + 1..]) == monthIndex + 1
  {
    var y := Text.NatToString(year);
    var mm := MonthDigits(monthIndex + 1);
    JoinParts(y, mm);
    y + "-" + mm
  }

  /** The pieces of `y + "-" + mm` sit where the key's format says. */
  lemma JoinParts(y: string, mm: string)
    ensures var key := y + "-" + mm;
      |key| == |y| + 1 + |mm| && key[..|y|] == y && key[|y|] == '-' && key[|y| + 1..] == mm
  {
  }

  /** In `y + "-" + rest` with `y` all digits, the first dash is the one after `y`. */
  lemma DashAfterDigits(y: string, rest: string)
    requires Text.AllDigits(y)
    ensures DashIndex(y + "-" + rest) == |y|
  {
    JoinParts(y, rest);
  }

  /** `String(month).padStart(2, '0')` for a month 1 to 12: two digits worth the month. */
  function MonthDigits(month: int): (mm: string)
    requires 1 <= month <= 12
    ensures |mm| == 2 && Text.AllDigits(mm) && Text.DigitsValue(mm) == month
  {
    var digits := Text.NatToString(month);
    assert |digits| <= 2 by {
      if month >= 10 {
        assert Text.NatToString(month / 10) == "1";
      }
    }
    Text.PadZerosKeepsValue(digits, 2);
    Text.PadStart(digits, 2, '0')
  }

  datatype YearMonth = YearMonth(year: nat, month: nat)

  /** The first dash of `s`, or -1. */
  function DashIndex(s: string): (k: int)
    ensures -1 <= k < |s|
    ensures k == -1 <==> forall i :: 0 <= i < |s| ==> s[i] != '-'
    ensures k >= 0 ==> s[k] == '-' && forall i :: 0 <= i < k ==> s[i] != '-'
    decreases |s|
  {
    if s == [] then -1
    else if s[0] == '-' then 0
    else
      var k := DashIndex(s[1..]);
      if k == -1 then -1 else k + 1
  }

  /** Reads a month key back as `formatMonth` splits it: digits, a dash, digits. */
  function ParseMonthKey(s: string): Option<YearMonth> {
    var k := DashIndex(s);
    if k < 0 then None
    else
      var ys, ms := s[..k], s[k + 1..];
      if ys != [] && ms != [] && Text.AllDigits(ys) && Text.AllDigits(ms)
      then Some(YearMonth(Text.DigitsValue(ys), Text.DigitsValue(ms)))
      else None
  }

  /** The month key reads back as the year and the one-based month it was made from. */
  lemma MonthKeyRoundTrip(year: nat, monthIndex: int)
    requires 0 <= monthIndex < 12
    ensures ParseMonthKey(GetCurrentMonth(year, monthIndex)) == Some(YearMonth(year, monthIndex + 1))
  {
    var y := Text.NatToString(year);
    var mm := MonthDigits(monthIndex + 1);
    assert GetCurrentMonth(year, monthIndex) == y + "-" + mm;
    DashAfterDigits(y, mm);
    JoinParts(y, mm);
  }

  /** Two different months never share an entry key. */
  lemma MonthKeysDistinct(y1: nat, m1: int, y2: nat, m2: int)
    requires 0 <= m1 < 12 && 0 <= m2 < 12
    requires y1 != y2 || m1 != m2
    ensures GetCurrentMonth(y1, m1) != GetCurrentMonth(y2, m2)
  {
    MonthKeyRoundTrip(y1, m1);
    MonthKeyRoundTrip(y2, m2);
  }

  // ---------------------------------------------------------------- checkIsLastWeek

  /** Gregorian leap years, as the JavaScript `Date` counts them. */
  predicate IsLeapYear(year: int) {
    (year % 4 == 0 && year % 100 != 0) || year % 400 == 0
  }

  /** `new Date(year, monthIndex + 1, 0).getDate()`: the last day of the month. */
  function DaysInMonth(year: int, monthIndex: int): (days: int)
    requires 0 <= monthIndex < 12
    ensures 28 <= days <= 31
    ensures monthIndex == 1 ==> (days == 29 <==> IsLeapYear(year))
    ensures monthIndex != 1 ==> days >= 30
    ensures monthIndex != 1 ==> (days == 30 <==> monthIndex in {3, 5, 8, 10})
  {
    if monthIndex == 1 then (if IsLeapYear(year) then 29 else 28)
    else if monthIndex == 3 || monthIndex == 5 || monthIndex == 8 || monthIndex == 10 then 30
    else 31
  }

  /** `checkIsLastWeek()`: at most seven days remain after today in this month. */
  function CheckIsLastWeek(year: int, monthIndex: int, day: int): (open: bool)
    requires 0 <= monthIndex < 12 && 1 <= day <= DaysInMonth(year, monthIndex)
    ensures open <==> DaysInMonth(year, monthIndex) - day <= 7
  {
    DaysInMonth(year, monthIndex) - day <= 7
  }

  /**
   * The window is the month's last eight days: it opens on day 21 to 24 depending on
   * the month's length and stays open to the month's end.
   */
  lemma LastWeekWindow(year: int, monthIndex: int, day: int)
    requires 0 <= monthIndex < 12 && 1 <= day <= DaysInMonth(year, monthIndex)
    ensures var first := DaysInMonth(year, monthIndex) - 7;
      && 21 <= first <= 24
      && (CheckIsLastWeek(year, monthIndex, day) <==> first <= day)
      && CheckIsLastWeek(year, monthIndex, first) && !CheckIsLastWeek(year, monthIndex, first - 1)
  {
  }

  // ---------------------------------------------------------------- list editors

  /** `addToList`: blank input leaves the list alone, anything else is appended trimmed. */
  function AddToList(list: seq<string>, item: string): (r: seq<string>)
    ensures Text.IsBlank(item) ==> r == list
    ensures !Text.IsBlank(item) ==>
      && |r| == |list| + 1 && r[..|list|] == list
      && r[|list|] == Text.Trim(item) && r[|list|] != []
  {
    if Text.Trim(item) == [] then list else list + [Text.Trim(item)]
  }

  /** `list.filter((_, i) => i !== index)` on the part of the list starting at position `from`. */
  function DropPosition(list: seq<string>, index: int, from: int): (r: seq<string>)
    ensures if from <= index < from + |list| then r == list[..index - from] + list[index - from + 1..] else r == list
    decreases |list|
  {
    if list == [] then []
    else
      var rest := DropPosition(list[1..], index, from + 1);
      if from == index then
        assert rest == list[1..];
        rest
      else
        assert from < index < from + |list| ==> list[1..][..index - from - 1] == list[1..index - from];
        [list[0]] + rest
  }

  /** `removeFromList`: exactly the item at `index` goes, the others stay in order; other indexes change nothing. */
  function RemoveFromList(list: seq<string>, index: int): (r: seq<string>)
    ensures 0 <= index < |list| ==> |r| == |list| - 1 && r == list[..index] + list[index + 1..]
    ensures !(0 <= index < |list|) ==> r == list
  {
    DropPosition(list, index, 0)
  }

  /** Removing what was just added gives the list back. */
  lemma RemoveUndoesAdd(list: seq<string>, item: string)
    requires !Text.IsBlank(item)
    ensures RemoveFromList(AddToList(list, item), |list|) == list
  {
  }

  // ---------------------------------------------------------------- lock state

  /** `!!currentEntry?.lockedAt`: the first entry for the month exists and carries a non-zero stamp. */
  function IsLocked(es: seq<Journal.MonthlyEntry>, month: string): (locked: bool)
    ensures locked <==> Journal.FindMonth(es, month) >= 0 && Truthy(es[Journal.FindMonth(es, month)].lockedAt)
    ensures locked ==> exists i :: 0 <= i < |es| && es[i].month == month && Truthy(es[i].lockedAt)
  {
    var k := Journal.FindMonth(es, month);
    k >= 0 && Truthy(es[k].lockedAt)
  }

  /** With one entry per month, the month is locked exactly when its entry carries a stamp. */
  lemma IsLockedUnique(es: seq<Journal.MonthlyEntry>, month: string)
    requires Journal.UniqueMonths(es)
    ensures IsLocked(es, month) <==> exists i :: 0 <= i < |es| && es[i].month == month && Truthy(es[i].lockedAt)
  {
    if exists i :: 0 <= i < |es| && es[i].month == month && Truthy(es[i].lockedAt) {
      var i :| 0 <= i < |es| && es[i].month == month && Truthy(es[i].lockedAt);
      Journal.FindMonthUnique(es, month, i);
    }
  }

  /** `lockMonthlyEntry` locks a month that has an entry and, creating nothing, leaves a month without one unlocked. */
  lemma LockLocks(es: seq<Journal.MonthlyEntry>, month: string, now: Tasks.Timestamp)
    requires now != 0
    ensures Journal.FindMonth(es, month) >= 0 ==> IsLocked(Journal.LockMonthlyEntry(es, month, now), month)
    ensures Journal.FindMonth(es, month) < 0 ==> Journal.LockMonthlyEntry(es, month, now) == es && !IsLocked(es, month)
  {
    var r := Journal.LockMonthlyEntry(es, month, now);
    assert forall i :: 0 <= i < |es| ==> r[i].month == es[i].month;
    if Journal.FindMonth(es, month) >= 0 {
      assert Journal.FindMonth(r, month) == Journal.FindMonth(es, month) by {
        SameMonthsSameFind(es, r, month);
      }
    }
  }

  /** Entries with the same month keys at the same places find the same index. */
  lemma {:induction false} SameMonthsSameFind(a: seq<Journal.MonthlyEntry>, b: seq<Journal.MonthlyEntry>, month: string)
    requires |a| == |b| && forall i :: 0 <= i < |a| ==> a[i].month == b[i].month
    ensures Journal.FindMonth(a, month) == Journal.FindMonth(b, month)
    decreases |a|
  {
    if a != [] && a[0].month != month {
      SameMonthsSameFind(a[1..], b[1..], month);
    }
  }

  // ---------------------------------------------------------------- handlers

  /**
   * `handleAddWeeklyNote`: a blank note is dropped; any other goes to the store
   * untrimmed, for the current month.
   */
  function HandleAddWeeklyNote(es: seq<Journal.MonthlyEntry>, currentMonth: string, note: string, day: int,
                               noteId: string, entryId: string, now: Tasks.Timestamp): (r: seq<Journal.MonthlyEntry>)
    requires 1 <= day <= 31
    ensures Text.IsBlank(note) ==> r == es
    ensures !Text.IsBlank(note) ==> r == Journal.AddWeeklyNote(es, currentMonth, note, day, noteId, entryId, now)
  {
    if Text.Trim(note) == [] then es else Journal.AddWeeklyNote(es, currentMonth, note, day, noteId, entryId, now)
  }

  /**
   * The weekly-note field and button as rendered: disabled while the month is locked,
   * so through the screen a locked month's notes never change.
   */
  function SubmitWeeklyNote(es: seq<Journal.MonthlyEntry>, currentMonth: string, note: string, day: int,
                            noteId: string, entryId: string, now: Tasks.Timestamp): (r: seq<Journal.MonthlyEntry>)
    requires 1 <= day <= 31
    ensures IsLocked(es, currentMonth) || Text.IsBlank(note) ==> r == es
    ensures !IsLocked(es, currentMonth) ==> r == HandleAddWeeklyNote(es, currentMonth, note, day, noteId, entryId, now)
  {
    if IsLocked(es, currentMonth) then es else HandleAddWeeklyNote(es, currentMonth, note, day, noteId, entryId, now)
  }

  /** The snapshot form's values; income and debt arrive already parsed, or absent. */
  datatype Snapshot = Snapshot(
    income: Option<Journal.Amount>,
    incomeNote: string,
    debt: Option<Journal.Amount>,
    letGoOf: seq<string>,
    moveToward: seq<string>,
    oneLiner: string)

  /** The patch `handleSave` sends: all six snapshot keys present, an absent figure written as `undefined`. */
  function SnapshotPatch(form: Snapshot): Journal.EntryPatch {
    Journal.EntryPatch(None, None, Some(form.income), Some(Some(form.incomeNote)), Some(form.debt),
                       Some(form.letGoOf), Some(form.moveToward), Some(form.oneLiner), None, None, None)
  }

  /** The month's entry holds exactly the form's values. */
  predicate HoldsSnapshot(e: Journal.MonthlyEntry, form: Snapshot) {
    && e.income == form.income && e.incomeNote == Some(form.incomeNote) && e.debt == form.debt
    && e.letGoOf == form.letGoOf && e.moveToward == form.moveToward && e.oneLiner == form.oneLiner
  }

  /**
   * `handleSave`: afterwards the month has an entry holding exactly the form's values
   * (a cleared figure is cleared), its weekly notes and lock stamp as before.
   */
  function HandleSave(es: seq<Journal.MonthlyEntry>, currentMonth: string, form: Snapshot,
                      id: string, now: Tasks.Timestamp): (r: seq<Journal.MonthlyEntry>)
    ensures var k := Journal.FindMonth(r, currentMonth);
      && k >= 0 && HoldsSnapshot(r[k], form)
      && (Journal.FindMonth(es, currentMonth) >= 0 ==>
            && k == Journal.FindMonth(es, currentMonth) && |r| == |es|
            && r[k].id == es[k].id && r[k].createdAt == es[k].createdAt
            && r[k].weeklyNotes == es[k].weeklyNotes && r[k].lockedAt == es[k].lockedAt
            && forall i :: 0 <= i < |es| && i != k ==> r[i] == es[i])
      && (Journal.FindMonth(es, currentMonth) < 0 ==>
            && k == 0 && r[0].id == id && r[0].createdAt == now
            && r[0].weeklyNotes == [] && r[0].lockedAt == None && r[1..] == es)
  {
    var r := Journal.CreateOrUpdate(es, currentMonth, SnapshotPatch(form), id, now);
    assert |r| == |es| ==> forall i :: 0 <= i < |es| ==> r[i].month == es[i].month;
    SaveFinds(es, r, currentMonth, form, id, now);
    r
  }

  lemma SaveFinds(es: seq<Journal.MonthlyEntry>, r: seq<Journal.MonthlyEntry>, month: string, form: Snapshot,
                  id: string, now: Tasks.Timestamp)
    requires r == Journal.CreateOrUpdate(es, month, SnapshotPatch(form), id, now)
    ensures Journal.FindMonth(es, month) >= 0 ==> Journal.FindMonth(r, month) == Journal.FindMonth(es, month)
    ensures Journal.FindMonth(es, month) < 0 ==> Journal.FindMonth(r, month) == 0
  {
    if Journal.FindMonth(es, month) >= 0 {
      SameMonthsSameFind(es, r, month);
    }
  }

  /**
   * `handleLock` (once confirmed): save, then lock. The month ends up with an entry
   * holding the form's values and locked, which closes the snapshot form.
   */
  function HandleLock(es: seq<Journal.MonthlyEntry>, currentMonth: string, form: Snapshot,
                      id: string, now: Tasks.Timestamp): (r: seq<Journal.MonthlyEntry>)
    requires now != 0
    ensures IsLocked(r, currentMonth)
    ensures var k := Journal.FindMonth(r, currentMonth);
      && k >= 0 && HoldsSnapshot(r[k], form) && r[k].lockedAt == Some(now)
      && (Journal.FindMonth(es, currentMonth) >= 0 ==>
            && k == Journal.FindMonth(es, currentMonth) && |r| == |es|
            && r[k].id == es[k].id && r[k].createdAt == es[k].createdAt
            && r[k].weeklyNotes == es[k].weeklyNotes
            && forall i :: 0 <= i < |es| && i != k ==>
                 r[i] == if es[i].month == currentMonth then es[i].(lockedAt := Some(now)) else es[i])
      && (Journal.FindMonth(es, currentMonth) < 0 ==>
            && k == 0 && |r| == |es| + 1 && r[0].id == id && r[0].createdAt == now
            && r[0].weeklyNotes == [] && r[1..] == es)
    ensures !SnapshotOpen(r, currentMonth, true)
  {
    var saved := HandleSave(es, currentMonth, form, id, now);
    var r := Journal.LockMonthlyEntry(saved, currentMonth, now);
    LockAfterSave(es, currentMonth, form, id, now, saved, r);
    r
  }

  /** The step from the saved entries to the locked ones, one case of `handleSave` at a time. */
  lemma LockAfterSave(es: seq<Journal.MonthlyEntry>, currentMonth: string, form: Snapshot,
                      id: string, now: Tasks.Timestamp, saved: seq<Journal.MonthlyEntry>, r: seq<Journal.MonthlyEntry>)
    requires now != 0
    requires saved == HandleSave(es, currentMonth, form, id, now)
    requires r == Journal.LockMonthlyEntry(saved, currentMonth, now)
    ensures IsLocked(r, currentMonth)
    ensures var k := Journal.FindMonth(r, currentMonth);
      && k >= 0 && HoldsSnapshot(r[k], form) && r[k].lockedAt == Some(now)
      && (Journal.FindMonth(es, currentMonth) >= 0 ==>
            && k == Journal.FindMonth(es, currentMonth) && |r| == |es|
            && r[k].id == es[k].id && r[k].createdAt == es[k].createdAt
            && r[k].weeklyNotes == es[k].weeklyNotes
            && forall i :: 0 <= i < |es| && i != k ==>
                 r[i] == if es[i].month == currentMonth then es[i].(lockedAt := Some(now)) else es[i])
      && (Journal.FindMonth(es, currentMonth) < 0 ==>
            && k == 0 && |r| == |es| + 1 && r[0].id == id && r[0].createdAt == now
            && r[0].weeklyNotes == [] && r[1..] == es)
  {
    LockStampsFound(saved, currentMonth, now, r);
    if Journal.FindMonth(es, currentMonth) >= 0 {
      LockExisting(es, currentMonth, now, saved, r);
    } else {
      LockSkipsOthers(es, currentMonth, now);
      assert r == [r[0]] + Journal.LockMonthlyEntry(saved[1..], currentMonth, now);
    }
  }

  /** An entry saved in place: locking stamps the month's entries and leaves the others as they were. */
  lemma LockExisting(es: seq<Journal.MonthlyEntry>, month: string, now: Tasks.Timestamp,
                     saved: seq<Journal.MonthlyEntry>, r: seq<Journal.MonthlyEntry>)
    requires |saved| == |es| && 0 <= Journal.FindMonth(es, month)
    requires forall i :: 0 <= i < |es| && i != Journal.FindMonth(es, month) ==> saved[i] == es[i]
    requires r == Journal.LockMonthlyEntry(saved, month, now)
    ensures forall i :: 0 <= i < |es| && i != Journal.FindMonth(es, month) ==>
      r[i] == if es[i].month == month then es[i].(lockedAt := Some(now)) else es[i]
  {
  }

  /** Locking keeps the index `findIndex` reports and stamps exactly that entry there. */
  lemma LockStampsFound(saved: seq<Journal.MonthlyEntry>, month: string, now: Tasks.Timestamp, r: seq<Journal.MonthlyEntry>)
    requires now != 0
    requires Journal.FindMonth(saved, month) >= 0
    requires r == Journal.LockMonthlyEntry(saved, month, now)
    ensures Journal.FindMonth(r, month) == Journal.FindMonth(saved, month)
    ensures r[Journal.FindMonth(saved, month)] == saved[Journal.FindMonth(saved, month)].(lockedAt := Some(now))
    ensures IsLocked(r, month)
  {
    LockLocks(saved, month, now);
    assert forall i :: 0 <= i < |saved| ==> r[i].month == saved[i].month;
    SameMonthsSameFind(saved, r, month);
  }

  /** Locking a month that has no entry changes nothing. */
  lemma LockSkipsOthers(es: seq<Journal.MonthlyEntry>, month: string, now: Tasks.Timestamp)
    requires Journal.FindMonth(es, month) < 0
    ensures Journal.LockMonthlyEntry(es, month, now) == es
  {
  }

  /** The snapshot form is editable only in the last-week window and while the month is unlocked. */
  predicate SnapshotOpen(es: seq<Journal.MonthlyEntry>, currentMonth: string, isLastWeek: bool) {
    isLastWeek && !IsLocked(es, currentMonth)
  }
}
