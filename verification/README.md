# JournalApp draft reconciliation and in-memory entry store, in Dafny

This project models two pieces of logic from JournalApp, a small Android journaling app.

* **The editor's draft reconciliation** (`EditScreen`). This part is stripped of Compose. The screen holds an
  `Editor` state: the latest entry value collected from the entry flow, a `prefilled` flag, and the
  title and content fields. Three pure decisions act on this state:
  * the one-time **prefill** of the fields from the first entry that arrives;
  * the **autosave guard**, which runs on each debounced `(title, content)` value and returns `NoOp` or
    `Upsert(e')`;
  * the **exit reconciliation**, which runs when the screen is disposed and returns `NoOp`,
    `Delete(e)` or `Upsert(e')`.
  
  A screen session is a sequence of events: an entry value arrives, or a field is typed into.
* **The in-memory entry store** (`FakeJournalEntryDao`). It holds a list of entries, the sorted list it
  last emitted, and a `nextId` counter. Its operations are `insert`, `update`, `delete`, `upsert`,
  the sorted view `getAll`, `getById` and `getLastInsertedId`.
* **Reconcile** connects the two parts. It carries out the editor's actions on the store, the way the view
  model passes them through, and proves what the store holds for the edited entry afterwards. The store
  here is `FakeJournalEntryDao`, the in-memory store used by the app's tests, and not the Room DAO the
  app runs on. The two differ for an absent nonzero id: Room's `@Upsert` inserts it, while the fake does
  nothing. The Reconcile lemmas only concern entries that are stored, where the two agree.

Modules:
* `Optional`: the nullable values.
* `Entries`: the entry record, Kotlin's `isWhitespace`/`isBlank`, and `copy(title, content)`.
* `DateOrder`: the stable newest-first sort.
* `FakeDao`: the store.
* `EditScreen`: the editor.
* `Reconcile`: the editor's actions applied to the store.

Modelling decisions:
* `JournalEntry` is not part of this model. It is taken as a record `{id, title, content, date}`.
  The fake store names the date field `date`. The Room interface orders by a column named
  `timestamp`. The model uses `date` throughout.
* Ids and dates are unbounded integers. The source uses `Int` in places and `Long` in others.
* The clock read `System.currentTimeMillis()` in `insert` is a parameter, `now`.
* `isBlank` means every character satisfies Kotlin's JVM `Char.isWhitespace`. That function is
  `Character.isWhitespace` or `Character.isSpaceChar`, and the model writes it out as an explicit
  set of code points.
* The prefill effect is keyed on `entry?.id`, so it re-runs only when the id changes. The model runs
  it after every new entry value. Its guard (`!prefilled && entry != null`) makes the two equivalent.
  Once an entry has arrived, `prefilled` is true and the guard blocks every later run.
* The model applies the prefill in the same step as the entry value that triggers it. It therefore
  has no state where an entry was collected but the fields are not yet prefilled. `Exit` itself never
  reads `prefilled`. In the model, leaving a screen that has an entry always happens after its
  prefill.
* `sortedByDescending` is stable. `SortByDateDesc` is proved sorted, a permutation, and stable: for
  each date, the entries with that date keep their order from the underlying list.

## Model

| member | source | states |
|---|---|---|
| `Entries.WithText` | app/src/main/java/com/example/journalapp/ui/screen/EditScreen.kt:104-107 | the written entry is the stored one with only title and content replaced; id and date are kept |
| `Entries.IsWhitespace` | app/src/main/java/com/example/journalapp/ui/screen/EditScreen.kt:120 | Kotlin's whitespace test accepts space, tab, newline and carriage return, and rejects ASCII letters and digits |
| `Entries.BlankLaws` | app/src/main/java/com/example/journalapp/ui/screen/EditScreen.kt:120 | the laws of `IsBlank`, which models `isBlank`, for all strings: `""` is blank; a one-character string is blank exactly when the character is whitespace; a concatenation is blank exactly when both parts are |
| `DateOrder.SortByDateDesc` | app/src/test/java/com/example/journalapp/data/FakeJournalEntryDao.kt:21 | the emitted list is ordered newest first and is a permutation of the items |
| `DateOrder.InsertByDateSorted` | app/src/test/java/com/example/journalapp/data/FakeJournalEntryDao.kt:21 | inserting one entry into a newest-first list keeps it newest first |
| `DateOrder.InsertByDateOfDate` | app/src/test/java/com/example/journalapp/data/FakeJournalEntryDao.kt:21 | the inserted entry comes before every entry of the same date that was already in the list |
| `DateOrder.SortIsStable` | app/src/test/java/com/example/journalapp/data/FakeJournalEntryDao.kt:21 | entries with equal dates keep their list order in the sorted view |
| `FakeDao.Empty` | app/src/test/java/com/example/journalapp/data/FakeJournalEntryDao.kt:16-18 | a freshly constructed store is valid, holds no items, emits the empty list and hands out id 1 first |
| `FakeDao.Emit` | app/src/test/java/com/example/journalapp/data/FakeJournalEntryDao.kt:20-22 | `emit` publishes a newest-first permutation of the items and changes nothing else |
| `FakeDao.GetAll` | app/src/test/java/com/example/journalapp/data/FakeJournalEntryDao.kt:24-27 | in a valid store, `getAll` is sorted newest first and holds exactly the items |
| `FakeDao.FirstWithId` | app/src/test/java/com/example/journalapp/data/FakeJournalEntryDao.kt:33 | `firstOrNull` returns the element with the id at the lowest index, or none when no element has the id |
| `FakeDao.GetById` | app/src/test/java/com/example/journalapp/data/FakeJournalEntryDao.kt:32-33 | `getById` returns an emitted entry with that id, or none exactly when no emitted entry has it |
| `FakeDao.GetByIdFinds` | app/src/test/java/com/example/journalapp/data/FakeJournalEntryDao.kt:32-33 | in a valid store, `getById(id)` returns `e` if and only if `e` is stored with that id |
| `FakeDao.NoStoredIdIsZero` | app/src/test/java/com/example/journalapp/data/FakeJournalEntryDao.kt:18 | a valid store never holds id 0, so looking up 0 finds nothing |
| `FakeDao.Insert` | app/src/test/java/com/example/journalapp/data/FakeJournalEntryDao.kt:40-46 | `insert` returns the old `nextId` and increments it; it appends the entry under that id with unchanged text; it keeps a nonzero date and replaces a zero date with the clock value; it re-emits |
| `FakeDao.InsertKeepsValid` | app/src/test/java/com/example/journalapp/data/FakeJournalEntryDao.kt:40-46 | `insert` preserves the invariant; the returned id is at least 1 and greater than every stored id |
| `FakeDao.InsertedHoldsMaxId` | app/src/test/java/com/example/journalapp/data/FakeJournalEntryDao.kt:41-43 | after an insert, the new entry alone holds the largest id |
| `FakeDao.InsertThenFind` | app/src/test/java/com/example/journalapp/data/FakeJournalEntryDao.kt:32-46 | `getById` on the returned id finds the inserted entry |
| `FakeDao.IndexOfFirst` | app/src/test/java/com/example/journalapp/data/FakeJournalEntryDao.kt:52 | `indexOfFirst` returns the lowest index holding the id, or -1 exactly when no index holds it |
| `FakeDao.Update` | app/src/test/java/com/example/journalapp/data/FakeJournalEntryDao.kt:51-57 | `update` replaces only the first item with the entry's id and re-emits; with no such item, the store is unchanged |
| `FakeDao.UpdateKeepsValid` | app/src/test/java/com/example/journalapp/data/FakeJournalEntryDao.kt:51-57 | `update` preserves the invariant |
| `FakeDao.RemoveId` | app/src/test/java/com/example/journalapp/data/FakeJournalEntryDao.kt:63 | `removeAll` keeps exactly the items with a different id and never grows the list; its recursion keeps them in list order |
| `FakeDao.RemoveIdCounts` | app/src/test/java/com/example/journalapp/data/FakeJournalEntryDao.kt:63 | `removeAll` keeps each item with another id exactly as often as before and keeps no item with the removed id |
| `FakeDao.RemoveIdKeepsUnique` | app/src/test/java/com/example/journalapp/data/FakeJournalEntryDao.kt:63 | removing items keeps ids unique |
| `FakeDao.Delete` | app/src/test/java/com/example/journalapp/data/FakeJournalEntryDao.kt:62-65 | `delete` leaves exactly `removeAll` of the argument's id: the other items, in their order and with their multiplicity; it re-emits the sorted view and keeps `nextId` |
| `FakeDao.DeleteKeepsValid` | app/src/test/java/com/example/journalapp/data/FakeJournalEntryDao.kt:62-65 | `delete` preserves the invariant |
| `FakeDao.DeleteUndoesInsert` | app/src/test/java/com/example/journalapp/data/FakeJournalEntryDao.kt:40-65 | deleting the entry just inserted restores the store; only the consumed id stays consumed |
| `FakeDao.Upsert` | app/src/test/java/com/example/journalapp/data/FakeJournalEntryDao.kt:70-72 | with id 0, `upsert` is `insert`: the entry's text is appended under the old `nextId`, with a zero date replaced by the clock, `nextId` is incremented, and the sorted view is re-emitted; with any other id it is `update`: the first item with that id is replaced and the rest kept, the sorted view is re-emitted, and with no such item the store is unchanged |
| `FakeDao.UpsertAbsentIsNoOp` | app/src/test/java/com/example/journalapp/data/FakeJournalEntryDao.kt:51-72 | upserting a nonzero id that is not stored changes nothing |
| `FakeDao.UpsertKeepsValid` | app/src/test/java/com/example/journalapp/data/FakeJournalEntryDao.kt:70-72 | `upsert` preserves the invariant |
| `FakeDao.GetLastInsertedId` | app/src/test/java/com/example/journalapp/data/FakeJournalEntryDao.kt:74-78 | `maxByOrNull` returns none exactly for an empty store; otherwise it returns the first stored item with the largest id |
| `FakeDao.ReplayKeepsValid` | app/src/test/java/com/example/journalapp/data/FakeJournalEntryDao.kt:40-72 | every sequence of insert/update/delete/upsert calls keeps ids unique, nonzero and below `nextId`, and keeps the emitted list sorted |
| `FakeDao.ReachableIsValid` | app/src/test/java/com/example/journalapp/data/FakeJournalEntryDao.kt:15-18 | every store reachable from a fresh one satisfies the invariant |
| `EditScreen.Open` | app/src/main/java/com/example/journalapp/ui/screen/EditScreen.kt:59-64 | the screen starts with no entry, blank fields and `prefilled` false, so exit and autosave both do nothing yet |
| `EditScreen.Step` | app/src/main/java/com/example/journalapp/ui/screen/EditScreen.kt:60-186 | the entry is collected at line 60 and the prefill effect runs at lines 84-90; the text fields' `onValueChange` at lines 179 and 186 handles typing. An entry value replaces the collected entry and, once prefilled, never changes the fields; typing changes only the field typed into and neither the entry nor `prefilled`; `prefilled` never goes back to false |
| `EditScreen.Prefill` | app/src/main/java/com/example/journalapp/ui/screen/EditScreen.kt:84-90 | the prefill copies the entry's text and sets `prefilled` only when an entry is present and `prefilled` was false; otherwise the state is unchanged |
| `EditScreen.Autosave` | app/src/main/java/com/example/journalapp/ui/screen/EditScreen.kt:93-111 | autosave never deletes and writes nothing before prefill; it writes if and only if an entry is loaded and the text differs; what it writes is the entry with only title and content replaced |
| `EditScreen.Exit` | app/src/main/java/com/example/journalapp/ui/screen/EditScreen.kt:116-132 | with no entry, exit does nothing; with an entry, it deletes if and only if both fields are blank, and upserts the entry with the new text if and only if the fields are not both blank and differ from it |
| `EditScreen.PrefilledIgnoresEntryValues` | app/src/main/java/com/example/journalapp/ui/screen/EditScreen.kt:84-90 | after prefill, later entry values never change the fields; the fields hold the last typed text or their previous value |
| `EditScreen.PrefilledIffEntrySeen` | app/src/main/java/com/example/journalapp/ui/screen/EditScreen.kt:84-89 | `prefilled` is set exactly when some event so far carried an entry |
| `EditScreen.FirstEntryPrefills` | app/src/main/java/com/example/journalapp/ui/screen/EditScreen.kt:84-89 | the first arriving entry fills both fields with its text |
| `EditScreen.SessionBuffer` | app/src/main/java/com/example/journalapp/ui/screen/EditScreen.kt:60-90 | over a whole session, the fields hold the first entry's text unless the user typed over it afterwards |
| `EditScreen.NeverLoadedExitDoesNothing` | app/src/main/java/com/example/journalapp/ui/screen/EditScreen.kt:118-119 | if no entry ever arrived, exit takes no action |
| `EditScreen.BlankTakesPriority` | app/src/main/java/com/example/journalapp/ui/screen/EditScreen.kt:120-122 | blank fields delete the entry even when they equal its stored text |
| `EditScreen.ExitBeforePrefillDeletes` | app/src/main/java/com/example/journalapp/ui/screen/EditScreen.kt:116-121 | exit does not consult `prefilled`: a collected entry with both fields still empty is deleted, whatever its stored text |
| `EditScreen.NoAutosaveBeforeLoad` | app/src/main/java/com/example/journalapp/ui/screen/EditScreen.kt:93-96 | no autosave is written before an entry has arrived |
| `Reconcile.Perform` | app/src/main/java/com/example/journalapp/data/JournalEntryViewModel.kt:32-38 | the view model forwards actions unchanged: `NoOp` leaves the store as it is, `Delete` is the store's `delete` of the target, and `Upsert` is the store's `upsert` of the written entry, with those members' full contracts; in particular `Delete` removes exactly the items with the target's id, and an `Upsert` of a stored (nonzero) id allocates no id |
| `Reconcile.UpsertStored` | app/src/test/java/com/example/journalapp/data/FakeJournalEntryDao.kt:51-72 | upserting over a stored entry's id makes the written entry what `getById` returns; it allocates no id |
| `Reconcile.DeleteStored` | app/src/test/java/com/example/journalapp/data/FakeJournalEntryDao.kt:62-65 | after `delete`, nothing is found under the entry's id |
| `Reconcile.ExitReconciles` | app/src/main/java/com/example/journalapp/ui/screen/EditScreen.kt:116-132 | after exit, the store holds nothing under the id when both fields were blank; otherwise it holds the entry with exactly the fields' text, same id and date; the store stays valid and allocates no id |
| `Reconcile.ExitSettles` | app/src/main/java/com/example/journalapp/ui/screen/EditScreen.kt:118-122 | once its action is carried out, a second exit against the stored value does nothing |
| `Reconcile.ViewingWritesNothing` | app/src/main/java/com/example/journalapp/ui/screen/EditScreen.kt:84-132 | opening an entry and leaving without typing deletes it if it is blank; otherwise the store is left exactly as it was |
| `Reconcile.AutosaveStores` | app/src/main/java/com/example/journalapp/ui/screen/EditScreen.kt:101-109 | after autosave on a prefilled screen, the store holds the debounced text, with id and date kept; before prefill, the store is untouched |
| `Reconcile.AutosaveSettles` | app/src/main/java/com/example/journalapp/ui/screen/EditScreen.kt:101-102 | once the saved entry comes back from the store, the same debounced value is not written again |

## Left out

- Debounce timing, `distinctUntilChanged`, `collectLatest` and `snapshotFlow` (EditScreen.kt:94-100). These are library semantics and timing. The model starts from a debounced value that has already arrived, so it does not show that repeated equal values are dropped.
- `distinctUntilChanged` on `getById` (FakeJournalEntryDao.kt:33), and the flows in general. Subscriptions are modelled as the current value, not as a stream of emissions.
- Scheduling of the fire-and-forget writes on `Dispatchers.IO` in the view model. This is concurrency. The view model and repository pass calls straight through, so `Reconcile.Perform` calls the store directly.
- The Room interface and the database builder (JournalEntryDao.kt, JournalDatabase.kt). These are SQL annotations and a library singleton. The blank-entry filter in their query is therefore not modelled.
- Compose UI: layout, colours, the loading text, and the time formatting. Navigation and the "Add Entry" title (EditScreen.kt:140) are also left out.
- `createDraft`, which the view-model test calls. It is not part of this model.
- Reconcile.ViewingWritesNothing: holds only because the model applies the prefill in the same step as the entry value that triggers it. In the app the prefill effect (EditScreen.kt:84-90) runs as a coroutine after the entry is collected. If the screen is disposed in that window, exit sees an entry with both fields still empty and deletes it even when it has text. `EditScreen.ExitBeforePrefillDeletes` states that outcome, but no event sequence of the model reaches that state.
- Reconcile.ExitReconciles: requires the collected entry to be the value the store currently holds. In the app, the screen's own writes reach `entry` only later, through the flow (JournalEntryViewModel.kt:36-38, FakeJournalEntryDao.kt:33), so the collected value can be stale. A stale entry whose text equals the fields makes exit a `NoOp` even when the store holds other text. The same requirement applies to `Reconcile.ExitSettles` and `Reconcile.AutosaveStores`.
- FakeDao.Insert: ids are unbounded integers. The Kotlin `Long` counter would wrap after 2^63 - 1 inserts, and that wrap is not modelled.
