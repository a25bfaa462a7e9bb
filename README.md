# DailyLock core, modelled in Dafny

DailyLock is a mobile-first planner. The user keeps a short **Today** list, parks
everything else in a **Backlog**, and each evening stages at most a handful of tasks
for **Tomorrow**. When the user locks tomorrow's plan:

- unfinished Today tasks fall back to the Backlog;
- finished Today tasks are cleared;
- staged tasks become the new Today list.

A **Reflect** screen keeps one journal entry per month (`YYYY-MM`). An entry holds a
money snapshot, two lists, a one-liner and weekly notes. The month can be locked,
which makes it read-only on screen.

This project models:

- the zustand store `useLockedStore`: its task actions, the nightly `lockTomorrow`
  rollover and the monthly-journal actions;
- the derived views and helpers of five screens: Locked Today, Backlog, Evening
  Ritual, Completed and Reflect.

Modules:

| module | models |
|---|---|
| `Wrappers` | `Option`, and JavaScript truthiness of an optional number (`0` and absent are falsy). |
| `Seqs` | `Array.prototype.filter`, an index-wise `map` that rewrites matching elements, and a descending sort by a numeric key (insertion sort). |
| `Text` | ECMAScript `String.prototype.trim` (its full whitespace set), `String(n)` for naturals, `padStart`. |
| `Tasks` | The `Task` record, the three buckets encoded by the `isBacklog`/`isTomorrow` flags, and every store action on `tasks` as a pure function on the task list. Includes `lockTomorrow`. |
| `Journal` | `WeeklyNote`, `MonthlyEntry`, `createOrUpdateMonthlyEntry`, `addWeeklyNote`, `lockMonthlyEntry`. |
| `Store` | The store itself, as a class whose fields are the store's state. Each action is a method that reassigns the fields as `set(...)` does and keeps the store invariant `Valid()`. |
| `LockedTodayScreen`, `BacklogScreen`, `EveningRitualScreen`, `CompletedScreen`, `ReflectScreen` | The screens' filters, sorts, counters, guards and handlers. |

Store invariant `Valid()`, built from `Tasks.Consistent` and `Journal.UniqueMonths`:

- task ids are unique;
- no task is in Backlog and Tomorrow at once;
- every completed task carries a completion stamp;
- there is at most one journal entry per month.

Every store action keeps it. The exceptions are ones the source allows:

- `updateTask` with a patch that rewrites `id`, `completed` or `completedAt` (it can break unique ids or the completion stamp);
- `updateTask` with a patch that rewrites `isBacklog` or `isTomorrow` (it can set both flags on one task);
- a journal upsert that rewrites `month`;
- `addTask` with an id already in use.

`Date.now()`, `crypto.randomUUID()` and the calendar day become parameters (`now`,
`id`, `day`, `year`/`monthIndex`).

Behaviour of the code worth knowing, each pinned down by a member:

- The store's `addTask` neither trims nor rejects blank text. The Backlog screen trims the input and rejects a blank one: see `BacklogScreen.SubmitInput`. The quick-capture sheet rejects blank text but stores it untrimmed (it is not modelled).
- The store never checks `lockedAt`. A locked month can still be overwritten by an upsert (`Journal.LockNotEnforced`) and can still get weekly notes (`Journal.AddWeeklyNoteAppends`). Only the Reflect screen hides or disables its inputs.
- `lockMonthlyEntry` re-stamps an already locked month (`Journal.RelockRestamps`).
- The weekly-note input is disabled while the month is locked (`ReflectScreen.SubmitWeeklyNote`). Notes cannot be added after the lock from the screen, even though the store would accept them.
- The "last week" test opens the snapshot form when at most 7 days remain. That is an 8-day window: day 24 onward of a 31-day month (`ReflectScreen.LastWeekWindow`).

## Model

| member | source | states |
|---|---|---|
| Tasks.BucketOf | store/useLockedStore.ts:6-16 | A task has a bucket exactly when it is not flagged both Backlog and Tomorrow; it is Today iff neither flag is set, Backlog iff only `isBacklog`, Tomorrow iff only `isTomorrow`. |
| Tasks.Place | store/useLockedStore.ts:135-151 | Placing a task puts it in exactly the requested bucket and changes nothing but the two flags. |
| Tasks.AddTask | store/useLockedStore.ts:98-103 | One new task is prepended with the given id, text and creation time. It is not completed, has no stamp, note or category. It lands in Backlog unless `isBacklog` is given as false, when it lands in Today. The old list follows unchanged. |
| Tasks.AddTaskConsistent | store/useLockedStore.ts:98-103 | Adding a task with a fresh id keeps the task list consistent. |
| Tasks.Merge | store/useLockedStore.ts:105-109 | Spreading a patch over a task: for each of the nine fields, a field given in the patch overrides the task's and a field left out keeps the task's; an empty patch changes nothing. |
| Tasks.UpdateTask | store/useLockedStore.ts:105-109 | Every task with the id gets the patch merged in, every other task is untouched, order and length kept; an unknown id leaves the list as it was. |
| Tasks.Toggle | store/useLockedStore.ts:111-123 | Toggling flips `completed`, stamps `completedAt` with now when it becomes completed and clears it otherwise, and changes nothing else. |
| Tasks.ToggleTask | store/useLockedStore.ts:111-123 | Exactly the tasks with the id are toggled, all others untouched; unknown id is a no-op. |
| Tasks.ToggleTwice | store/useLockedStore.ts:111-123 | Toggling twice restores each matching task's completion state; an open task's stamp is cleared again, a completed one is re-stamped with the later time. |
| Tasks.ToggleTwiceRestores | store/useLockedStore.ts:111-123 | On a consistent list, toggling an open task twice gives back the identical list. |
| Tasks.DeleteTask | store/useLockedStore.ts:125-127 | Afterwards no task carries the id, every other task keeps its multiplicity, and the list shrinks by exactly the number of matching tasks. |
| Tasks.DeleteKeepsOrder | store/useLockedStore.ts:125-127 | Deletion distributes over concatenation and keeps a single task exactly when its id differs, so the survivors keep their order. |
| Tasks.DeleteUnknown | store/useLockedStore.ts:125-127 | Deleting an id that is not present leaves the list unchanged. |
| Tasks.SetHasNote | store/useLockedStore.ts:129-133 | Exactly the tasks with the id get the new `hasNote`, all others untouched; unknown id is a no-op. |
| Tasks.MoveTo | store/useLockedStore.ts:135-151 | The tasks with the id are placed in the destination bucket (both flags written), the others are untouched, order and length kept; unknown id is a no-op. |
| Tasks.MoveKeepsConsistent | store/useLockedStore.ts:135-151 | Moving a task keeps the task list consistent. |
| Tasks.ToggleKeepsConsistent | store/useLockedStore.ts:111-123 | Toggling keeps the list consistent (a completed task always carries its stamp). |
| Tasks.EditKeepsConsistent | store/useLockedStore.ts:105-133 | `setHasNote`, and `updateTask` with a patch that leaves the id, the completion state and the bucket flags alone (text, category, note flag and creation time may change), keep the list consistent. |
| Tasks.DeleteKeepsConsistent | store/useLockedStore.ts:125-127 | Deleting keeps the list consistent. |
| Tasks.RollOver | store/useLockedStore.ts:162-180 | The per-task rule of `lockTomorrow`, in the code's branch order. A task is dropped iff it is a finished Today task. An open Today task goes to Backlog. A staged task becomes Today. A Backlog task stays as it is. A kept task is never left staged and changes only in its flags. |
| Tasks.RollOne | store/useLockedStore.ts:162-180 | The `map`-then-`filter(Boolean)` step for one task: no task if it is dropped, otherwise exactly the rolled-over task. |
| Tasks.LockTomorrow | store/useLockedStore.ts:153-187 | The new list is the old one minus exactly its finished Today tasks, and no task in it is staged for tomorrow or in two buckets. |
| Tasks.LockTomorrowAppend | store/useLockedStore.ts:162-180 | The rollover works task by task: it distributes over concatenation. |
| Tasks.LockTomorrowMembers | store/useLockedStore.ts:162-180 | A task is in the new list iff it is the rollover of some old task. |
| Tasks.LockTomorrowCases | store/useLockedStore.ts:159-180 | For each old task: an open Today task reappears in the Backlog, a staged task reappears in Today, a Backlog task reappears as it was, and a finished Today task's id is gone (when ids are unique). |
| Tasks.LockTomorrowConsistent | store/useLockedStore.ts:153-187 | The nightly lock keeps the task list consistent. |
| Tasks.PlanTripScenario | store/useLockedStore.ts:98-187 | A task added with the default lands in the Backlog; staged for tomorrow and locked, it is the only task and an open Today task. |
| Journal.Merge | store/useLockedStore.ts:199-212 | Spreading a patch over an entry: for each of the eleven fields, a field given in the patch overrides the entry's and a field left out keeps the entry's. |
| Journal.FindMonth | store/useLockedStore.ts:197 | `findIndex` by month: -1 iff no entry has the month, otherwise the first index holding it. |
| Journal.FindMonthUnique | store/useLockedStore.ts:197 | With one entry per month, `findIndex` returns the index of that month's entry. |
| Journal.CreateOrUpdate | store/useLockedStore.ts:196-217 | An existing month is merged in place, nothing else moves; a new month gets a blank entry with the patch applied, prepended. |
| Journal.CreateOrUpdateKeepsUnique | store/useLockedStore.ts:196-217 | An upsert that does not rewrite `month` keeps one entry per month and leaves an entry for the month. |
| Journal.LockNotEnforced | store/useLockedStore.ts:196-217 | An upsert on a locked month still overwrites its one-liner; the store does not enforce the lock. |
| Journal.WeekNumber | store/useLockedStore.ts:221 | `Math.ceil(day / 7)`: the week is 1..5 and is the one whose seven days contain the day. |
| Journal.AddWeeklyNote | store/useLockedStore.ts:219-250 | The note stamped with today's week is appended to the month's entry in place; without one, a blank entry holding just the note is prepended. |
| Journal.AddWeeklyNoteAppends | store/useLockedStore.ts:219-250 | Months stay unique, the month's entry exists and ends with the new note, its old notes are kept as a prefix and its lock stamp is unchanged (locking does not stop notes in the store). |
| Journal.LockMonthlyEntry | store/useLockedStore.ts:252-257 | Every entry for the month gets `lockedAt` = now, the others are untouched, no entry is created. |
| Journal.RelockRestamps | store/useLockedStore.ts:252-257 | Locking twice is the same as locking once at the later time: the stamp is overwritten. |
| Store.LockedStore.constructor | store/useLockedStore.ts:76-96 | The initial state: the given tasks, no journal entries, locked, on the Today tab, no base figures. |
| Store.LockedStore.AddTask | store/useLockedStore.ts:98-103 | `tasks` becomes `Tasks.AddTask` of the old tasks, all other state unchanged, the invariant kept for a fresh id. |
| Store.LockedStore.UpdateTask | store/useLockedStore.ts:105-109 | `tasks` becomes `Tasks.UpdateTask` of the old tasks, other state unchanged, invariant kept for a `Tasks.Editable` patch, one that leaves `id`, `completed`, `completedAt`, `isBacklog` and `isTomorrow` alone. |
| Store.LockedStore.ToggleTask | store/useLockedStore.ts:111-123 | `tasks` becomes `Tasks.ToggleTask`, other state unchanged, invariant kept. |
| Store.LockedStore.DeleteTask | store/useLockedStore.ts:125-127 | `tasks` becomes `Tasks.DeleteTask`, other state unchanged, invariant kept. |
| Store.LockedStore.SetHasNote | store/useLockedStore.ts:129-133 | `tasks` becomes `Tasks.SetHasNote`, other state unchanged, invariant kept. |
| Store.LockedStore.MoveToTomorrow | store/useLockedStore.ts:135-139 | The task is staged for tomorrow, other state unchanged, invariant kept. |
| Store.LockedStore.MoveToBacklog | store/useLockedStore.ts:141-145 | The task is moved to the Backlog, other state unchanged, invariant kept. |
| Store.LockedStore.MoveToToday | store/useLockedStore.ts:147-151 | The task is moved to Today, other state unchanged, invariant kept. |
| Store.LockedStore.LockTomorrow | store/useLockedStore.ts:153-187 | `tasks` becomes the rollover of the old tasks, the Today tab is shown and the day is locked; journal and base figures unchanged, invariant kept. |
| Store.LockedStore.SetLocked | store/useLockedStore.ts:189 | Only `isLocked` changes, to the given value. |
| Store.LockedStore.SetActiveTab | store/useLockedStore.ts:191 | Only `activeTab` changes, to the given tab. |
| Store.LockedStore.ClearAllTasks | store/useLockedStore.ts:193 | `tasks` becomes empty, nothing else changes, invariant kept. |
| Store.LockedStore.SetBaseFinancials | store/useLockedStore.ts:259 | Both base figures are overwritten (an omitted one becomes absent), nothing else changes. |
| Store.LockedStore.CreateOrUpdateMonthlyEntry | store/useLockedStore.ts:196-217 | `monthlyEntries` becomes the upsert, other state unchanged, invariant kept when `month` is not rewritten. |
| Store.LockedStore.AddWeeklyNote | store/useLockedStore.ts:219-250 | `monthlyEntries` becomes `Journal.AddWeeklyNote` for today's day, other state unchanged, invariant kept. |
| Store.LockedStore.LockMonthlyEntry | store/useLockedStore.ts:252-257 | `monthlyEntries` becomes the locked entries, other state unchanged, invariant kept. |
| Seqs.Filter | components/screens/LockedTodayScreen.tsx:14 | `filter`: never longer than the input; an element is in the result iff it is in the input and passes. |
| Seqs.FilterSplit | components/screens/LockedTodayScreen.tsx:14-16 | Filtering by a predicate and by its negation splits the list: the two lengths add up to the whole. |
| Seqs.FilterKeepsAll | components/screens/LockedTodayScreen.tsx:16 | `filter` keeps the whole list exactly when every element passes. |
| Seqs.FilterEmpty | components/screens/LockedTodayScreen.tsx:16 | `filter` leaves nothing exactly when no element passes. |
| Seqs.FilterMultiset | components/screens/BacklogScreen.tsx:15-16 | `filter` keeps every passing element with its full multiplicity and drops the rest. |
| Seqs.SortDesc | components/screens/BacklogScreen.tsx:17 | Sorting by a descending key comparator gives a permutation of the input that is ordered newest first. |
| Text.Trim | components/screens/BacklogScreen.tsx:20-21 | `trim()`: the input with a blank prefix and a blank suffix cut off, empty iff the input is all whitespace, and otherwise starting and ending with a non-space. |
| Text.TrimIdempotent | components/screens/BacklogScreen.tsx:20-21 | Trimming twice is trimming once. |
| Text.NatToString | components/screens/ReflectScreen.tsx:24 | `String(n)` for a natural: a non-empty string of digits whose value is n, with no leading zero. |
| Text.PadStart | components/screens/ReflectScreen.tsx:24 | `padStart(width, fill)`: at least `width` long, the original is the suffix, and only fill characters are added in front. |
| Text.PadZerosKeepsValue | components/screens/ReflectScreen.tsx:24 | Zero-padding a digit string keeps its numeric value. |
| LockedTodayScreen.TodayView | components/screens/LockedTodayScreen.tsx:14 | A task is listed iff it is in the store and flagged neither Backlog nor Tomorrow. |
| LockedTodayScreen.CompletedCount | components/screens/LockedTodayScreen.tsx:16 | The completed counter is the number of completed Today tasks. It never exceeds the number of Today tasks, equals it iff every Today task is completed, and is 0 iff none is. |
| LockedTodayScreen.RoundedPercent | components/screens/LockedTodayScreen.tsx:17 | `Math.round(done/total*100)` over exact rationals: 0..100, the nearest integer with halves rounding up, 100 for all done and 0 for none done. |
| LockedTodayScreen.ProgressPercentage | components/screens/LockedTodayScreen.tsx:17 | With Today tasks, the bar is `RoundedPercent` of the completed counter over the number of Today tasks, i.e. `Math.round` of the ratio times 100. It is 0..100, 0 with no Today tasks or when no Today task is completed, and 100 when there are Today tasks and every one is completed. |
| LockedTodayScreen.FullOnlyWhenDone | components/screens/LockedTodayScreen.tsx:17 | With fewer than 200 Today tasks the bar reads 100 iff every Today task is completed (and iff the counter equals the list's length). |
| LockedTodayScreen.RoundingShowsFullEarly | components/screens/LockedTodayScreen.tsx:17 | With 199 of 200 done the rounding already shows 100. |
| BacklogScreen.BacklogView | components/screens/BacklogScreen.tsx:15-17 | The list holds exactly the Backlog-flagged tasks, each as often as in the store, sorted newest first; the header count equals the number of such tasks. |
| BacklogScreen.NewestFirstExample | components/screens/BacklogScreen.tsx:15-17 | Three Backlog tasks created at 10, 30 and 20 are shown as 30, 20, 10. |
| BacklogScreen.SortExample | components/screens/BacklogScreen.tsx:17 | The descending sort puts keys 10, 30, 20 in the order 30, 20, 10. |
| BacklogScreen.SubmitInput | components/screens/BacklogScreen.tsx:19-25 | Enter on blank input, or any other key, adds nothing; otherwise exactly one open Backlog task with the trimmed, non-empty text is prepended. |
| BacklogScreen.SubmittedTaskIsListed | components/screens/BacklogScreen.tsx:19-25 | A submitted task appears in the Backlog list, whose count grows by exactly one. |
| CompletedScreen.CompletedView | components/screens/CompletedScreen.tsx:11-13 | The list holds exactly the completed tasks with their multiplicity, sorted by completion time descending (an absent stamp sorting as 0), so no unstamped task precedes a stamped one. |
| CompletedScreen.FormatDate | components/screens/CompletedScreen.tsx:15-23 | A falsy timestamp (absent or 0) renders as the empty string, any other is handed to the renderer. |
| CompletedScreen.ToggledTaskIsLabelled | components/screens/CompletedScreen.tsx:11-23 | A task just completed by `toggleTask` shows up in the Completed list with its completion time rendered. |
| EveningRitualScreen.SourceList | components/screens/EveningRitualScreen.tsx:15 | The pick list holds exactly the open Backlog tasks. |
| EveningRitualScreen.TomorrowStage | components/screens/EveningRitualScreen.tsx:16 | The stage holds exactly the tasks flagged for tomorrow. |
| EveningRitualScreen.FilledSlots | components/screens/EveningRitualScreen.tsx:18-19 | The counter is the stage's length, at most the number of tasks, and 0 iff nothing is staged. |
| EveningRitualScreen.SlotPills | components/screens/EveningRitualScreen.tsx:62-67 | `max(CAPACITY, filled)` pills, the i-th lit iff i < filled. |
| EveningRitualScreen.PillsMatchCounter | components/screens/EveningRitualScreen.tsx:54-67 | Exactly `filled` pills are lit and the rest of the four are dim. An extra pill appears iff the counter is shown red. |
| EveningRitualScreen.StageBecomesToday | components/screens/EveningRitualScreen.tsx:10-16 | After the lock the Today list is the old stage, each task promoted to Today, in the same order. |
| EveningRitualScreen.LockEmptiesStage | components/screens/EveningRitualScreen.tsx:10-19 | After the lock nothing is staged, the counter reads 0 and is not red. |
| ReflectScreen.GetCurrentMonth | components/screens/ReflectScreen.tsx:22-25 | The month key is the year's digits, a dash, and two digits whose value is the month number. |
| ReflectScreen.MonthDigits | components/screens/ReflectScreen.tsx:24 | The month number as exactly two digits with the same value. |
| ReflectScreen.DashIndex | components/screens/ReflectScreen.tsx:29 | The first dash of a string, or -1 iff it has none. |
| ReflectScreen.MonthKeyRoundTrip | components/screens/ReflectScreen.tsx:22-31 | Splitting a month key at its dash, as `formatMonth` does, gives back the year and month number. |
| ReflectScreen.MonthKeysDistinct | components/screens/ReflectScreen.tsx:22-25 | Distinct year/month pairs get distinct keys, so one entry per key is one entry per calendar month. |
| ReflectScreen.DaysInMonth | components/screens/ReflectScreen.tsx:37 | The day-0-of-next-month length: 28..31, February has 29 iff the Gregorian year is leap, April, June, September and November (indices 3, 5, 8, 10) have 30 and every other month 31. |
| ReflectScreen.CheckIsLastWeek | components/screens/ReflectScreen.tsx:35-40 | The window is open iff at most seven days of the month remain. |
| ReflectScreen.LastWeekWindow | components/screens/ReflectScreen.tsx:35-40 | The window opens on day (length - 7), so it spans 8 days and opens between day 21 and day 24. |
| ReflectScreen.AddToList | components/screens/ReflectScreen.tsx:92-96 | A blank item is ignored; otherwise the trimmed item is appended. |
| ReflectScreen.DropPosition | components/screens/ReflectScreen.tsx:98-100 | Filtering by position drops exactly the element at the given index, or nothing when it is out of range. |
| ReflectScreen.RemoveFromList | components/screens/ReflectScreen.tsx:98-100 | A valid index removes exactly that element, and an out-of-range index changes nothing. |
| ReflectScreen.RemoveUndoesAdd | components/screens/ReflectScreen.tsx:92-100 | Removing the last position undoes adding a non-blank item. |
| ReflectScreen.IsLocked | components/screens/ReflectScreen.tsx:45-62 | The month counts as locked iff the entry `find` returns has a truthy `lockedAt`. |
| ReflectScreen.IsLockedUnique | components/screens/ReflectScreen.tsx:45-62 | With one entry per month: locked iff some entry for the month has a truthy stamp. |
| ReflectScreen.LockLocks | components/screens/ReflectScreen.tsx:84-90 | Locking with a non-zero time locks an existing month; a missing month is left missing and unlocked. |
| ReflectScreen.HandleAddWeeklyNote | components/screens/ReflectScreen.tsx:77-82 | A blank note adds nothing; otherwise the untrimmed note goes to the store's `addWeeklyNote`. |
| ReflectScreen.SubmitWeeklyNote | components/screens/ReflectScreen.tsx:140-150 | While the month is locked the input is disabled and nothing is added; otherwise it behaves as `handleAddWeeklyNote`. |
| ReflectScreen.HandleSave | components/screens/ReflectScreen.tsx:65-75 | Afterwards the month's entry holds exactly the form's values; a cleared figure becomes absent. An existing entry keeps its index, id, creation time, notes and lock stamp, and every other entry is unchanged. A new entry, with the fresh id and now as creation time and without notes or stamp, is prepended to the unchanged list. |
| ReflectScreen.HandleLock | components/screens/ReflectScreen.tsx:84-90 | Save then lock: the month's entry holds the form's values and `lockedAt` is now, so the month is locked and the snapshot form closed. An existing entry keeps its index, id, creation time and notes. Every other entry is unchanged, except that other entries for the same month are stamped too. A new entry is prepended to the unchanged list. |

## Left out

- Persistence: zustand's `persist` middleware and `localStorage` are not modelled. The store is the in-memory state.
- The seed demo tasks of the initial state are not modelled. The constructor takes any starting task list.
- Push notifications, the install prompt and `app/actions.ts` are left out (browser and server I/O). The Settings screen's export/reset is left out too (`localStorage`, `confirm`, reload), as are routing and all presentational components.
- `Date.now()`, `crypto.randomUUID()`, `new Date()` and `getDate()` are parameters. A fresh id is an assumption of the invariant lemmas, not something the model generates.
- `addWeeklyNote` reads `Date.now()` twice. The model uses one `now` for both the note and a newly created entry.
- `ReflectScreen.HandleLock`: uses one `now` for a newly created entry's `createdAt` (store/useLockedStore.ts:212) and for its `lockedAt` (store/useLockedStore.ts:254); the source reads `Date.now()` separately in `createOrUpdateMonthlyEntry` and `lockMonthlyEntry`, so the two can differ by the time between the calls.
- The quick-capture sheet (components/ui-custom/QuickCaptureSheet.tsx:26-29) is not modelled: it rejects blank text and then calls the store's `addTask` with the untrimmed text, which `Tasks.AddTask` covers.
- Locale formatting (`toLocaleDateString`, `formatMonth`'s month name) is a renderer parameter or is left out. `formatMonth` is modelled only as far as splitting the key.
- `parseFloat` of the snapshot's income and debt fields is left out. The form hands over already-parsed figures (`Journal.Amount` is an integer; fractional amounts and `NaN` are not modelled).
- `LockedTodayScreen.RoundedPercent`: computed over exact rationals, not IEEE doubles. `Math.round` of `c / n * 100` can differ from the exact result when the float product lands a hair below a .5 boundary.
- The optional flags `isBacklog`, `isTomorrow` and `hasNote` are booleans: an absent flag is `false`. Every reader tests them only for truthiness.
- `Seqs.SortDesc`: the contract states order and permutation, not stability. Ties in `createdAt`/`completedAt` keep their filter order in the model, but that is not proved.
- `ReflectScreen.GetCurrentMonth`: the year is a natural number, so negative years are not modelled.
- `ReflectScreen.CheckIsLastWeek`: takes the year, month and day as parameters instead of reading the clock.
- The Reflect screen's `confirm` dialog is not modelled: `HandleLock` is the confirmed path, and the cancelled path changes nothing.
- `Store.LockedStore.UpdateTask`: the store invariant is promised only for patches that leave `id`, `completed`, `completedAt`, `isBacklog` and `isTomorrow` alone. Other patches can break unique ids, the completion stamp or the one-bucket rule, and the source does not prevent that.
