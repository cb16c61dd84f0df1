# To-do list page: task list, filters and recycle bin

This project models the state of the to-do list page in Dafny and proves properties of that model. The page state is:

- the `#taskList` items, each with:
  - its text;
  - its "completed" class;
  - its due-date span;
  - its "overdue" and "due-today" classes;
  - whether it is displayed;
- the `#recycleBin` items;
- the filter button that carries "active-filter";
- `localStorage`, with its "tasks" and "recycleBin" keys.

The model covers three versions of the page:

- **The split-module version.** Its files are `Scripts/JS/taskManager.js`, `Assets/JS/recycleBin.js`, `Assets/JS/utils.js` and `Assets/JS/filters.js`. It is modelled by:
  - module `Model`: the data, the `Page` class, and `saveTasks`/`saveRecycleBin`;
  - `DateStatus`, `Text`, `SortPolicy`, `Utils`, `Filters`, `TaskManager` and `RecycleBin`.
- **The single-file version, `Scripts/JS/script.js`.** Several of its functions behave as in the split modules under the conventions below (its `saveEdit` has no 10 ms timer and tests `=== ""`; its `saveDueDate` has no `input.parentNode` guard and removes no listeners), and the shared members model them:
  - `checkTaskStatus` (84-99) and `sortTasksByDate` (109-132);
  - `saveDueDate` (164-174), `updateTaskStatus` (179-188) and `addTask` (194-213);
  - `createTaskElement` (229-281) and `saveEdit` (396-403);
  - `saveTasks` (410-422) and `loadTasks` (431-439);
  - `restoreTask` (514-525), `saveRecycleBin` (532-543) and `loadRecycleBin` (551-566);
  - the clear-bin handler (574-578) and the restore-all handler (580-587).

  Module `LatestScript` holds what this version does differently:
  - a `filterTasks` that throws when no button exists;
  - the `deleteAllTasks.triggered` property;
  - a due-date editor without the Enter flag.
- **The early version, `Assets/JS/script.js`.** It has no due dates, no sorting and no bin. Module `EarlyScript` models it.

Conventions of the model:

- A calendar day is a natural number.
- The current day is the parameter `today`.
- The locale rendering of a day is its decimal digits. A date text parses exactly when it is a non-empty run of digits; any other non-empty text is an Invalid Date.
- The 300 ms and 10 ms timers fire at once.
- Where a `Page` method corresponds to an event handler, it takes the index of the item acted on.

Where the code and its own comments or documentation differ, the model follows the code:

- `sortTasksByDate` keeps only items whose date parses or whose date text is empty. An item whose date is an Invalid Date is dropped from the list (`SortPolicy.SortByDateDropsBadDates`).
- `createTaskElement` takes a `completed` argument but never reads it, so every item it creates is pending. Loading the list (`Model.TaskRecordsRoundTrip`) and restoring from the bin (`RecycleBin.RemoveThenRestore`) therefore give pending items, even though both pass the completed flag along. The early version applies the flag when loading; see "## Findings".
- The saved recycle bin keeps no completed flag either. As the code stands this makes no difference, since every restore gives a pending item (`RecycleBin.ReloadedBinRestoresPending`).

## Model

| member | source | states |
|---|---|---|
| Text.Trim | Scripts/JS/taskManager.js:76-77 | the result is no longer than the input and neither starts nor ends with white space (ECMAScript WhiteSpace and LineTerminator) |
| Text.TrimInfix | Scripts/JS/taskManager.js:76-77 | the result is the infix of the input left once leading and trailing white space, and only that, is removed |
| Text.TrimEmptyIff | Scripts/JS/taskManager.js:76-81 | a task name is rejected exactly when it consists only of white space |
| Text.TrimIdempotent | Scripts/JS/taskManager.js:142 | trimming an already trimmed text changes nothing |
| DateStatus.DecimalValueOfDigits | Assets/JS/utils.js:11-15 | reading back the rendering of a day gives that day |
| DateStatus.FormatDate | Assets/JS/utils.js:11-15 | a parsable date renders to a text that parses back to the same day; an unparsable one renders as "Invalid Date" |
| DateStatus.DueOfText | Scripts/JS/taskManager.js:32-35 | an empty text gives no date; otherwise the text gives a day exactly when it parses, and then that day |
| DateStatus.LabelOfText | Scripts/JS/taskManager.js:32 | the due-date span reads "Due: " plus the formatted date, or is empty for an empty date |
| DateStatus.DueDateTextRoundTrip | Scripts/JS/taskManager.js:234 | stripping "Due: " from a span and creating an item from what is left gives back the same due date, whether valid, missing or invalid |
| DateStatus.RemoveFirstAt | Scripts/JS/taskManager.js:234 | `replace` with a text pattern cuts out exactly the first occurrence of the pattern |
| DateStatus.RemoveFirstAbsent | Scripts/JS/taskManager.js:234 | where the pattern does not occur, `replace` leaves the text unchanged |
| DateStatus.CheckTaskStatus | Assets/JS/utils.js:28-41 | "today" exactly for the current day, "overdue" exactly for an earlier day, "future" otherwise; a missing or invalid date counts as "future" |
| Model.UpdateTaskStatus | Scripts/JS/taskManager.js:335-344 | only the status classes change: "overdue" exactly when the date is overdue, "due-today" exactly when it is today, never both |
| Model.NewTask | Scripts/JS/taskManager.js:21-42 | a displayed, pending item (the `completed` argument is never read) with the given text, the date parsed from the date text, and the status class of the date only when a date text is given, never both classes |
| Model.NewTaskLabel | Scripts/JS/taskManager.js:34-36 | the new item's `.due-date` span reads "Due: " and the formatted date, or is empty when no date text is given |
| Model.NewTaskIntended | Scripts/JS/taskManager.js:21 | the corrected createTaskElement: the same item, with the completed class exactly when `completed` is set |
| Model.TaskRecordsOf | Scripts/JS/taskManager.js:228-236 | one record per item, in list order: text, completed class, span text without "Due: " |
| Model.TasksFromRecords | Scripts/JS/taskManager.js:248-252 | one new item per stored record, in stored order, with the record's text and date, and pending whatever the record's flag |
| Model.TasksFromRecordsIntended | Scripts/JS/taskManager.js:248-252 | with the corrected createTaskElement: one item per record, in order, with the record's text, flag and date |
| Model.EntriesOf | Scripts/JS/taskManager.js:183-197 | one bin item per task, in order, keeping text, stripped date and completed flag |
| Model.BinRecordsOf | Assets/JS/recycleBin.js:36-43 | one record per bin item, in bin order: text and date attribute, no completed flag |
| Model.EntriesFromRecords | Assets/JS/recycleBin.js:57-66 | one bin item per stored record, in order, whose Restore button restores as pending |
| Model.TaskRecordsRoundTrip | Scripts/JS/taskManager.js:226-254 | a saved list loads back with the same texts and due dates, in the same order, all displayed and all pending |
| Model.ReloadLosesCompleted | Scripts/JS/taskManager.js:250 | a completed item that is saved and loaded again comes back pending |
| Model.TaskRecordsRoundTripIntended | Scripts/JS/taskManager.js:226-254 | with the corrected createTaskElement, texts, completed flags and due dates all survive a save and a load |
| Model.BinRecordsRoundTrip | Assets/JS/recycleBin.js:34-68 | a saved bin loads back with the same texts and dates and saves to the same records; only the Restore flags are lost |
| Model.Page.constructor | Assets/JS/main.js:9 | a fresh document has an empty list and bin, no active button, and the storage it was given |
| Model.Page.SaveTasks | Scripts/JS/taskManager.js:226-238 | the "tasks" key is overwritten with the records of the list; nothing else changes |
| Model.Page.SaveRecycleBin | Assets/JS/recycleBin.js:34-45 | the "recycleBin" key is overwritten with the records of the bin; nothing else changes |
| SortPolicy.SelectConcat | Assets/JS/utils.js:56-61 | filtering distributes over concatenation |
| SortPolicy.GroupsPartition | Assets/JS/utils.js:56-61 | every item has a parsable date, an empty date text, or an unparsable date, and exactly one of these |
| SortPolicy.Insert | Assets/JS/utils.js:63-67 | inserting adds exactly the new item |
| SortPolicy.InsertAscending | Assets/JS/utils.js:63-67 | inserting into an ascending list keeps it ascending |
| SortPolicy.InsertOnDay | Assets/JS/utils.js:63-67 | inserting places the new item after every item already due on its day |
| SortPolicy.StableSort | Assets/JS/utils.js:63-67 | the sorted list is a permutation of the input |
| SortPolicy.StableSortCorrect | Assets/JS/utils.js:63-67 | the sort is ascending by day, and items due on the same day keep their order (the comparator `dateA - dateB` on a stable sort) |
| SortPolicy.AscendingUnique | Assets/JS/utils.js:63-67 | only one list is ascending and keeps the per-day order of a given list |
| SortPolicy.SortByDateOrder | Assets/JS/utils.js:69 | dated items come before undated ones, and no item with an unparsable date is left |
| SortPolicy.SortByDateGroups | Assets/JS/utils.js:56-69 | the dated part is the sorted dated part of the input; the undated part is unchanged |
| SortPolicy.SortByDateOnDay | Assets/JS/utils.js:53-73 | items due on the same day keep their relative order |
| SortPolicy.SortByDateMultiset | Assets/JS/utils.js:56-61 | the items lost are exactly those with an unparsable date |
| SortPolicy.SortByDateCorrect | Assets/JS/utils.js:53-73 | the whole specification of sortTasksByDate: group order, ascending stable dated part, unchanged undated part, only unparsable items lost |
| SortPolicy.SortByDateUnique | Assets/JS/utils.js:53-73 | any list meeting that specification is the sorted list |
| SortPolicy.SortByDateAbsorbs | Assets/JS/utils.js:53-73 | sorting, appending items and sorting again equals appending and sorting once |
| SortPolicy.SortByDateIdempotent | Assets/JS/utils.js:53-73 | sorting a sorted list changes nothing |
| SortPolicy.SortByDatePermutes | Assets/JS/utils.js:53-73 | without unparsable dates the sort is a permutation |
| SortPolicy.SortByDateDropsBadDates | Assets/JS/utils.js:56-61 | an item whose date does not parse is gone after sorting |
| SortPolicy.SortByDateSubset | Assets/JS/utils.js:69-72 | every item of the sorted list was in the list before |
| Utils.SplitByDate | Assets/JS/utils.js:56-61 | the two groups are the items with a parsable date and the items with an empty date text, each in list order |
| Utils.SortDated | Assets/JS/utils.js:63-67 | the dated items ascending by day, same-day items in their old order, a permutation |
| Utils.SortTasksByDate | Assets/JS/utils.js:53-73 | the list becomes `SortByDate` of the old list; bin, storage and buttons unchanged |
| Utils.SortedOrder | Assets/JS/utils.js:54-69 | the new order is `SortByDate` of the list, and every item in it comes from the list |
| Utils.AppendAll | Assets/JS/utils.js:71-72 | after emptying and appending, the list is exactly the given items in the given order; bin, storage and buttons unchanged |
| Filters.ButtonId | Assets/JS/filters.js:14-15 | a button `${filter}Filter` exists exactly for the five filter names |
| Filters.SameBeforeSuffix | Assets/JS/filters.js:14 | two names with the same button id are the same name |
| Filters.Visible | Assets/JS/filters.js:25-35 | "completed" shows exactly the completed items, "pending" the others, "dueToday" the items due today, "overdue" the overdue ones; any other name shows all |
| Filters.CompletedXorPending | Assets/JS/filters.js:25-28 | every item is shown under exactly one of "completed" and "pending" |
| Filters.UndatedHiddenByDateFilters | Assets/JS/filters.js:29-32 | an item without a usable date is hidden by both date filters |
| Filters.ApplyFilter | Assets/JS/filters.js:20-36 | same items in the same order; only the display changes, to visibility under the filter |
| Filters.FilterTasks | Assets/JS/filters.js:12-37 | the active marker moves to the filter's button only if that exists; every item is shown iff visible |
| TaskManager.ShownHiddenPartition | Scripts/JS/taskManager.js:213 | the displayed and the hidden items together are the list |
| TaskManager.MarkersAfterUpdate | Scripts/JS/taskManager.js:335-344 | replacing one item by one with at most one status class keeps that true of the list |
| TaskManager.BothStoresWritten | Scripts/JS/taskManager.js:216-217 | once both stores are written, what earlier saves wrote there no longer matters |
| TaskManager.AddedTask | Scripts/JS/taskManager.js:76-82 | the new item carries the trimmed name, is pending and displayed, and has the date of the trimmed date text |
| TaskManager.AddTask | Scripts/JS/taskManager.js:75-89 | an all-white-space name changes nothing; otherwise the list saved is the old list plus the new item, and the list shown is that list sorted |
| TaskManager.AddedTaskListed | Scripts/JS/taskManager.js:82-88 | without unparsable dates, adding grows the list by exactly the new item |
| TaskManager.AddedTaskWithBadDateDropped | Scripts/JS/taskManager.js:82-88 | an item added with an unparsable date is not in the list that results |
| TaskManager.SaveEdit | Scripts/JS/taskManager.js:141-153 | an edit that trims to empty saves nothing and changes no item's record (the input left in place of the span is not modelled); otherwise only that item's text changes, to the trimmed text, and the list is saved |
| TaskManager.Toggle | Scripts/JS/taskManager.js:163 | only the completed class of that item flips; its text, date, display and status classes stay, and every other item is unchanged |
| TaskManager.ToggleTwice | Scripts/JS/taskManager.js:163 | toggling the same item twice gives back the list |
| TaskManager.CompleteTask | Scripts/JS/taskManager.js:162-173 | the toggled list is saved; when a filter button is active, every item ends up displayed and the button stays active |
| TaskManager.ActiveFilterName | Scripts/JS/taskManager.js:172 | the filter name whose button is active, or "all"; always a filter name |
| TaskManager.ActiveFilterNameRoundTrip | Assets/JS/filters.js:14-18 | reading the active button back gives the filter that was applied |
| TaskManager.CompleteTaskIntended | Scripts/JS/taskManager.js:162-173 | the toggled list is saved and the filter in force is applied again; its button stays active |
| TaskManager.ReapplyIgnoresActiveFilter | Scripts/JS/taskManager.js:172 | under the "completed" filter, an item made pending is hidden by that filter but shown by the call in the code |
| TaskManager.RemoveTask | Scripts/JS/taskManager.js:182-204 | the item leaves the list, its bin item is appended, and both stores are saved with the new contents |
| TaskManager.HandleTaskClick | Scripts/JS/taskManager.js:104-108 | only a click on a delete button removes, and then exactly that item |
| TaskManager.DeleteStep | Scripts/JS/taskManager.js:213-214 | each item of the snapshot is still at the position the loop reaches |
| TaskManager.EntriesOfSnoc | Scripts/JS/taskManager.js:214 | appending one task appends its bin item |
| TaskManager.DeleteAllTasks | Scripts/JS/taskManager.js:212-218 | the hidden items stay, the displayed items go to the bin in list order, and both stores are saved |
| TaskManager.RemoveShown | Scripts/JS/taskManager.js:213-214 | every displayed item is removed in list order: the hidden items stay in order, the bin gains the displayed items in order, other stored keys unchanged |
| TaskManager.LoadTasks | Scripts/JS/taskManager.js:247-254 | the stored records become pending items (none for a missing key), are appended, and the list is sorted; storage unchanged |
| TaskManager.SaveThenLoad | Scripts/JS/taskManager.js:226-254 | a saved list loads into an empty page with every text and due date intact, every item pending, and nothing lost |
| TaskManager.SaveDueDate | Scripts/JS/taskManager.js:303-320 | an empty value saves nothing and changes no item's record (the input left in place of the span is not modelled); otherwise the item takes the new date and its status classes, the list is saved, then sorted |
| TaskManager.SavedDueDateStatus | Scripts/JS/taskManager.js:307-317 | after a saved edit the span shows the new date and the classes are "overdue"/"due-today" exactly as the new date calls for |
| TaskManager.DueDateEditor.constructor | Scripts/JS/taskManager.js:276 | the Enter flag starts unset |
| TaskManager.DueDateEditor.KeyPress | Scripts/JS/taskManager.js:278-283 | only Enter saves, and it sets the flag |
| TaskManager.DueDateEditor.OnBlur | Scripts/JS/taskManager.js:285-291 | a blur saves exactly when the flag is unset |
| TaskManager.EditCommits | Scripts/JS/taskManager.js:265-292 | in an editing session every Enter saves, and a blur saves exactly when no Enter came before it |
| TaskManager.NoBlurSaveAfterEnter | Scripts/JS/taskManager.js:276-291 | after an Enter, no later blur saves |
| RecycleBin.RestoreTask | Assets/JS/recycleBin.js:16-25 | the bin item leaves the bin, a new pending item with the given text and the bin item's date is appended, both stores are saved, then the list is sorted |
| RecycleBin.ClickRestore | Scripts/JS/taskManager.js:192-195 | the Restore button restores with its own text and date; the completed flag it passes is lost and the item is pending |
| RecycleBin.RestoredFrom | Assets/JS/recycleBin.js:17-19 | the restored item has the bin item's text and date, is displayed, and is pending whatever flag the button kept |
| RecycleBin.RestoredFromIntended | Assets/JS/recycleBin.js:17-19 | with the corrected createTaskElement, the restored item also has the flag the button kept |
| RecycleBin.RemoveThenRestore | Scripts/JS/taskManager.js:182-195 | removing and restoring gives back the item's text and date, displayed, pending, with its status worked out for the current day |
| RecycleBin.RestoreLosesCompleted | Assets/JS/recycleBin.js:18 | a completed item that is removed and restored comes back pending |
| RecycleBin.RemoveThenRestoreIntended | Scripts/JS/taskManager.js:182-195 | with the corrected createTaskElement, removing and restoring gives the same item back, flag included |
| RecycleBin.ReloadedBinRestoresPending | Assets/JS/recycleBin.js:64 | after a reload the bin restores the same items, with their dates, as before it; with the corrected createTaskElement the reloaded buttons would restore as pending |
| RecycleBin.LoadRecycleBin | Assets/JS/recycleBin.js:55-68 | the stored records become bin items, appended in order, restoring as pending; list and storage unchanged |
| RecycleBin.ClearRecycleBin | Assets/JS/recycleBin.js:78-82 | the bin is empty, its key is gone (a later load finds nothing), the stored tasks are untouched |
| RecycleBin.RestoredAll | Assets/JS/recycleBin.js:93-97 | one pending item per bin item, in bin order |
| RecycleBin.AfterRestoresStep | Assets/JS/recycleBin.js:94-97 | sorting after each restore equals sorting once after all of them |
| RecycleBin.StorageAfterStep | Assets/JS/recycleBin.js:22-23 | each restore overwrites both stores |
| RecycleBin.LastSavedSorts | Assets/JS/recycleBin.js:92-99 | the list the last restore saves sorts to the final list |
| RecycleBin.LastSavedStored | Assets/JS/recycleBin.js:92-99 | the last restore leaves an empty stored bin |
| RecycleBin.RestoreAllTasks | Assets/JS/recycleBin.js:92-99 | the bin ends empty and stored empty; the list is the old list plus every bin item as pending, sorted |
| RecycleBin.RestoreEach | Assets/JS/recycleBin.js:93-97 | after the loop, list, bin and storage are those left by restoring the first, then the second, … bin item |
| RecycleBin.MidRestoreDone | Assets/JS/recycleBin.js:92-99 | once every item was restored one by one, the list is the old list plus the restored items sorted once, and the stored tasks sort to it |
| RecycleBin.RestoreAllKeepsEverything | Assets/JS/recycleBin.js:92-99 | without unparsable dates, restoring all grows the list by exactly the bin's items |
| LatestScript.FilterTasks | Scripts/JS/script.js:475-500 | the markers are cleared; an unknown filter throws before any item changes; a known one marks its button and filters as in the split version |
| LatestScript.CompleteTask | Scripts/JS/script.js:446-457 | with a filter button active, the call on line 456 throws: no button stays active and no display changes |
| LatestScript.ReapplyThrows | Scripts/JS/script.js:456 | a button id is never a filter name |
| LatestScript.CompleteTaskIntended | Scripts/JS/script.js:446-457 | re-applying the active filter by its name never throws and keeps its button |
| LatestScript.RemoveTask | Scripts/JS/script.js:302-335 | the list is always saved; the bin is saved only while `deleteAllTasks.triggered` is unset |
| LatestScript.HandleTaskClick | Scripts/JS/script.js:463-469 | only a click on a delete button removes, and then exactly that item |
| LatestScript.DeleteAllTasks | Scripts/JS/script.js:287-294 | sets the property, moves the displayed items to the bin, saves both stores |
| LatestScript.DeleteAllTasksIntended | Scripts/JS/script.js:287-294 | the same, with the property cleared afterwards |
| LatestScript.DeleteAllThenRemove | Scripts/JS/script.js:328-333 | after a bulk deletion, a single deletion does not reach the saved bin |
| LatestScript.DeleteAllThenRemoveIntended | Scripts/JS/script.js:287-335 | with the property cleared, the saved bin matches the bin |
| LatestScript.FlaglessCommits | Scripts/JS/script.js:141-155 | running the two listeners over a sequence of events, every Enter and every blur saves, and no other key does |
| LatestScript.FlaglessSavesMore | Scripts/JS/script.js:151-153 | every save of the split editor also happens here, and a blur after an Enter saves here but not in the split editor |
| EarlyScript.EarlyRecordsOf | Assets/JS/script.js:113-119 | one record per item, in order: text and completed class |
| EarlyScript.EarlyTasksFromRecords | Assets/JS/script.js:128-135 | one displayed item per record, completed as recorded |
| EarlyScript.EarlySaveLoadRoundTrip | Assets/JS/script.js:113-135 | a saved list loads back with the same texts and flags, displayed, and saves to the same records |
| EarlyScript.EarlyVisible | Assets/JS/script.js:161-167 | "completed" and "pending" show the matching items; any other name shows all |
| EarlyScript.EarlyPage.constructor | Assets/JS/script.js:1 | a fresh page has no items and no active button |
| EarlyScript.EarlyPage.SaveTasks | Assets/JS/script.js:113-119 | the "tasks" key is overwritten with the records of the list |
| EarlyScript.EarlyPage.AddTask | Assets/JS/script.js:27-36 | an all-white-space name changes nothing; otherwise a pending item is appended and saved |
| EarlyScript.EarlyPage.ToggleTask | Assets/JS/script.js:52-55 | only that item's completed class flips, and the list is saved |
| EarlyScript.EarlyPage.HandleTaskClick | Assets/JS/script.js:143-148 | a delete-button click removes exactly that item and saves |
| EarlyScript.EarlyPage.ClickDelete | Assets/JS/script.js:62-65 | the item leaves the list and the list is saved; the click then bubbles to `handleTaskClick`, whose removal of the detached item changes nothing and whose save writes the same records |
| EarlyScript.EarlyPage.SaveEdit | Assets/JS/script.js:99-106 | an edit that trims to empty saves nothing and changes no item's record (the input left in place of the span is not modelled); otherwise the item takes the trimmed text and the list is saved |
| EarlyScript.EarlyPage.LoadTasks | Assets/JS/script.js:128-135 | the stored records become displayed items, appended in order |
| EarlyScript.EarlyPage.FilterTasks | Assets/JS/script.js:154-169 | a filter without a button throws before any item changes; the three named filters mark their button and show exactly the matching items |

## Left out

- Notifications (`Scripts/JS/notifications.js` and `showNotification`) are left out. They only display messages.
- Drag and drop (`Assets/JS/dragDrop.js`, and the `dragstart`/`dragend` listeners whose `dragend` saves the list) is left out. Reordering by pointer position is DOM geometry.
- The JSON export and import of `Scripts/JS/fileHandler.js` and the save/load buttons of `Scripts/JS/script.js` (618-649) are left out. They are file I/O.
- Real dates are not modelled: `new Date` parsing, time zones and `toLocaleDateString`.
  - A day is a number, and its rendering is its digits.
  - `checkTaskStatus` compares whole days. The code compares a midnight-UTC date with the current instant, which can differ by a day near midnight in some time zones.
- The `toISOString` call that prefills the date input in `editDueDate` is left out. It throws on a span reading "Invalid Date"; only what happens after the input is committed is modelled.
- The 300 ms removal timer and the 10 ms edit and blur timers fire at once. Interleavings of user actions with pending timers are not modelled.
- While an edit is in progress, the item's span is replaced by an input. The model does not represent that state, so a save during the edit reads the item as it was.
- An empty commit leaves the input in place for good. In the code, `saveEdit` and `saveDueDate` return before their `replaceWith` when the value is empty (Scripts/JS/taskManager.js:143 and :305, Scripts/JS/script.js:166 and :398, Assets/JS/script.js:101), so the input stays where the span was. The model treats such a commit as a no-op on the item's record and does not model what follows:
  - after an aborted text edit, every later `saveTasks` reads the `.due-date` span as the item's text and completed flag (Scripts/JS/taskManager.js:229);
  - after an aborted date edit, `saveTasks` stores an empty date (Scripts/JS/taskManager.js:234), and every later `sortTasksByDate` throws on the missing `.due-date` span (Assets/JS/utils.js:57);
  - in the early version, `saveTasks` skips the item with no span, so it is lost on reload (Assets/JS/script.js:115).
- `TaskManager.SaveEdit`: an empty edit is modelled as changing nothing; the input that stays in place, and the wrong records later saves write, are not modelled.
- `TaskManager.SaveDueDate`: an empty value is modelled as changing nothing; the input that stays in place, the empty date later saves write, and the throwing sorts are not modelled.
- `EarlyScript.EarlyPage.SaveEdit`: an empty edit is modelled as changing nothing; the input that stays in place, and the item later saves leave out, are not modelled.
- `Text.Trim` uses the fixed set of white-space code points of ECMAScript. It does not handle UTF-16 surrogate pairs.
- `Page.Valid` includes that each key of the storage holds records of its own kind. Storage entries written by other code, or JSON that does not parse, are not modelled.
- `SortPolicy.SortByDatePermutes`: assumes no item has an unparsable date, because the sort drops such items (`SortPolicy.SortByDateMultiset` covers the general case).
- `TaskManager.AddedTaskListed`, `TaskManager.SaveThenLoad` and `RecycleBin.RestoreAllKeepsEverything`: hold only without unparsable dates, for the same reason.
- Bin item texts are written into the page as HTML (`innerHTML = <span>${text}</span>`, Scripts/JS/taskManager.js:187 and Assets/JS/recycleBin.js:59) and read back as the span's `textContent`. So text with markup or character references changes when it is read back: "a<b>c</b>" is read as "ac", and "x&lt;y" as "x<y". The model treats every text as plain text, which holds for texts with no `<` or `&`. This affects the members below.
- `Model.BinRecordsOf`: saves each entry's text as is, where saveRecycleBin saves the parsed `textContent`.
- `Model.BinRecordsRoundTrip`: texts come back unchanged only for texts without markup.
- `RecycleBin.LoadRecycleBin`: builds each bin item from the stored text as is, not from its parsed HTML.
- `RecycleBin.ReloadedBinRestoresPending`: "the same items" holds only for plain text. After a reload the Restore button holds the text parsed from HTML, while before it the button held the raw text (Assets/JS/recycleBin.js:55-68 against Scripts/JS/taskManager.js:187).
- `RecycleBin.RestoredAll`: restoreAllTasks restores the parsed span text, while a single Restore button restores the text it captured; the model uses the entry's text for both.

## Findings

| source | as written | input that shows it | evidently intended | confidence | as-written member | corrected member |
|---|---|---|---|---|---|---|
| Scripts/JS/taskManager.js:172 | `completeTask` re-applies the filter with the active button's id ("completedFilter"), which is no filter name, so every item is shown | "completed" filter active, click a completed item to make it pending: it stays displayed | re-apply the filter whose button is active, so the item disappears | not executed | TaskManager.ReapplyIgnoresActiveFilter | TaskManager.CompleteTaskIntended |
| Scripts/JS/script.js:456 | the same call reaches a `filterTasks` that dereferences `getElementById("completedFilterFilter")`, which is null, so it throws after clearing every active marker | any filter button active, click any item | re-apply the active filter; the marker stays | not executed | LatestScript.CompleteTask | LatestScript.CompleteTaskIntended |
| Scripts/JS/taskManager.js:250 | `loadTasks` passes `task.completed` to `createTaskElement`, which never reads it, so a reload makes every item pending | save a list with a completed item, reload: the item is pending | apply the completed class as the early version's `loadTasks` does (Assets/JS/script.js:132) | not executed | Model.ReloadLosesCompleted | Model.TaskRecordsRoundTripIntended |
| Assets/JS/recycleBin.js:18 | `restoreTask` passes the Restore button's completed flag to `createTaskElement`, which ignores it | delete a completed item, click its Restore button: it comes back pending | the restored item keeps its completed class | not executed | RecycleBin.RestoreLosesCompleted | RecycleBin.RemoveThenRestoreIntended |
| Scripts/JS/script.js:288 | `deleteAllTasks.triggered` is set and never cleared, so every later `removeTask` skips `saveRecycleBin` (lines 328-333) | press "Delete all" with some items hidden, show all, delete one item, reload: it is missing from the bin | clear the property after the bulk deletion | not executed | LatestScript.DeleteAllThenRemove | LatestScript.DeleteAllThenRemoveIntended |
