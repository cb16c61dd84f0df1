/**
  * The recycle bin (Assets/JS/recycleBin.js): restoring one item or all of them,
  * saving, loading and emptying the bin.
  */
module RecycleBin {
  import opened DateStatus
  import opened Model
  import opened SortPolicy
  import opened Utils
  import opened TaskManager

  /**
    * restoreTask: a new item is created from the text and the bin item's
    * `data-due-date` (the completed flag is handed to createTaskElement, which
    * ignores it, so the item is pending), appended to the list; the bin item goes
    * away; both stores are saved before the list is sorted.
    */
  method RestoreTask(page: Page, text: string, completed: bool, j: nat, today: nat)
    requires page.Valid() && j < |page.bin|
    modifies page
    ensures page.Valid()
    ensures page.tasks == SortByDate(old(page.tasks) + [NewTask(text, completed, old(page.bin)[j].dueDate, today)])
    ensures page.bin == old(page.bin)[..j] + old(page.bin)[j + 1..]
    ensures page.storage == old(page.storage)
      [TasksKey := TaskRecords(TaskRecordsOf(old(page.tasks) + [NewTask(text, completed, old(page.bin)[j].dueDate, today)]))]
      [BinKey := BinRecords(BinRecordsOf(page.bin))]
    ensures page.activeButton == old(page.activeButton) && page.deleteAllTriggered == old(page.deleteAllTriggered)
  {
    var dueDate := page.bin[j].dueDate;
    var taskItem := NewTask(text, completed, dueDate, today);
    page.tasks := page.tasks + [taskItem];
    page.bin := page.bin[..j] + page.bin[j + 1..];
    page.SaveTasks();
    page.SaveRecycleBin();
    SortTasksByDate(page);
  }

  /**
    * A click on the Restore button of bin item `j`: its own text and the flag its
    * button keeps are passed on, and the item comes back pending.
    */
  method ClickRestore(page: Page, j: nat, today: nat)
    requires page.Valid() && j < |page.bin|
    modifies page
    ensures page.Valid()
    ensures page.tasks == SortByDate(old(page.tasks) + [RestoredFrom(old(page.bin)[j], today)])
    ensures page.bin == old(page.bin)[..j] + old(page.bin)[j + 1..]
    ensures page.activeButton == old(page.activeButton) && page.deleteAllTriggered == old(page.deleteAllTriggered)
  {
    var entry := page.bin[j];
    RestoreTask(page, entry.text, entry.restoreCompleted, j, today);
  }

  /** The item a Restore button creates: the bin item's text and date, pending whatever flag the button keeps. */
  function RestoredFrom(e: Entry, today: nat): (t: Task)
    ensures t.text == e.text && !t.completed && t.due == DueOfText(e.dueDate) && t.shown
  {
    NewTask(e.text, e.restoreCompleted, e.dueDate, today)
  }

  /** The item a Restore button would create with the corrected createTaskElement. */
  function RestoredFromIntended(e: Entry, today: nat): (t: Task)
    ensures t.text == e.text && t.completed == e.restoreCompleted && t.due == DueOfText(e.dueDate) && t.shown
  {
    NewTaskIntended(e.text, e.restoreCompleted, e.dueDate, today)
  }

  /**
    * Removing an item and restoring it gives back its text and due date, displayed,
    * with its status classes worked out again for the current day, and pending.
    */
  lemma RemoveThenRestore(t: Task, today: nat)
    ensures RestoredFrom(EntryOf(t), today)
      == t.(completed := false, overdue := CheckTaskStatus(t.due, today) == Overdue, dueToday := CheckTaskStatus(t.due, today) == Today, shown := true)
  {
    DueDateTextRoundTrip(t.due);
  }

  /** The discrepancy: a completed item that is removed and restored comes back pending. */
  lemma RestoreLosesCompleted(t: Task, today: nat)
    requires t.completed
    ensures RestoredFrom(EntryOf(t), today).completed != t.completed
  {
  }

  /** With the corrected createTaskElement, removing and restoring keeps the completed flag too. */
  lemma RemoveThenRestoreIntended(t: Task, today: nat)
    ensures RestoredFromIntended(EntryOf(t), today)
      == t.(overdue := CheckTaskStatus(t.due, today) == Overdue, dueToday := CheckTaskStatus(t.due, today) == Today, shown := true)
  {
    DueDateTextRoundTrip(t.due);
  }

  /**
    * Once the bin has been saved and loaded again, its Restore buttons restore the
    * same items as before the reload, each with its own due date. With the corrected
    * createTaskElement they would differ: the reloaded buttons restore as pending.
    */
  lemma {:induction false} ReloadedBinRestoresPending(ts: seq<Task>, today: nat)
    ensures var reloaded := EntriesFromRecords(BinRecordsOf(EntriesOf(ts)));
      |reloaded| == |ts|
      && forall i :: 0 <= i < |ts| ==>
        RestoredFrom(reloaded[i], today) == RestoredFrom(EntryOf(ts[i]), today)
        && RestoredFrom(reloaded[i], today).due == ts[i].due
        && RestoredFromIntended(reloaded[i], today) == RestoredFromIntended(EntryOf(ts[i]), today).(completed := false)
  {
    forall i | 0 <= i < |ts| ensures DueOfText(DueDateText(ts[i].due)) == ts[i].due {
      DueDateTextRoundTrip(ts[i].due);
    }
  }

  /**
    * loadRecycleBin: one bin item per stored record, appended in stored order; their
    * Restore buttons restore as pending.
    */
  method LoadRecycleBin(page: Page)
    requires page.Valid()
    modifies page
    ensures page.Valid()
    ensures page.bin == old(page.bin) + EntriesFromRecords(StoredBin(old(page.storage)))
    ensures page.tasks == old(page.tasks) && page.storage == old(page.storage)
    ensures page.activeButton == old(page.activeButton) && page.deleteAllTriggered == old(page.deleteAllTriggered)
  {
    var binTasks := StoredBin(page.storage);
    for k := 0 to |binTasks|
      invariant page.Valid()
      invariant page.bin == old(page.bin) + EntriesFromRecords(binTasks[..k])
      invariant page.tasks == old(page.tasks) && page.storage == old(page.storage)
      invariant page.activeButton == old(page.activeButton) && page.deleteAllTriggered == old(page.deleteAllTriggered)
    {
      var task := binTasks[k];
      assert EntriesFromRecords(binTasks[..k + 1]) == EntriesFromRecords(binTasks[..k]) + [Entry(task.text, task.dueDate, false)];
      page.bin := page.bin + [Entry(task.text, task.dueDate, false)];
    }
    assert binTasks[..|binTasks|] == binTasks;
  }

  /** clearRecycleBin: the bin is emptied and its key removed, so a later load finds nothing. */
  method ClearRecycleBin(page: Page)
    requires page.Valid()
    modifies page
    ensures page.Valid()
    ensures page.bin == [] && page.storage == old(page.storage) - {BinKey}
    ensures BinKey !in page.storage && StoredBin(page.storage) == []
    ensures StoredTasks(page.storage) == StoredTasks(old(page.storage))
    ensures page.tasks == old(page.tasks)
    ensures page.activeButton == old(page.activeButton) && page.deleteAllTriggered == old(page.deleteAllTriggered)
  {
    page.bin := [];
    page.storage := page.storage - {BinKey};
  }

  /** The items restoreAllTasks creates for the bin items, in bin order, all pending. */
  function RestoredAll(es: seq<Entry>, today: nat): (ts: seq<Task>)
    ensures |ts| == |es|
    ensures forall i :: 0 <= i < |es| ==> ts[i] == RestoredFrom(es[i].(restoreCompleted := false), today)
  {
    seq(|es|, i requires 0 <= i < |es| => NewTask(es[i].text, false, es[i].dueDate, today))
  }

  /** The list after the first `n` bin items were restored one by one. */
  function AfterRestores(ts: seq<Task>, es: seq<Entry>, n: nat, today: nat): seq<Task>
    requires n <= |es|
  {
    if n == 0 then ts else SortByDate(ts + RestoredAll(es[..n], today))
  }

  /** What the last restoreTask call of restoreAllTasks saves under "tasks", before its sort. */
  function LastSavedTasks(ts: seq<Task>, es: seq<Entry>, today: nat): seq<Task>
    requires es != []
  {
    AfterRestores(ts, es, |es| - 1, today) + [RestoredAll(es, today)[|es| - 1]]
  }

  /** One more restore: sorting after each step is the same as sorting once at the end. */
  lemma {:induction false} AfterRestoresStep(ts: seq<Task>, es: seq<Entry>, n: nat, today: nat)
    requires n < |es|
    ensures SortByDate(AfterRestores(ts, es, n, today) + [RestoredAll(es, today)[n]]) == AfterRestores(ts, es, n + 1, today)
  {
    var r := RestoredAll(es, today)[n];
    assert RestoredAll(es[..n + 1], today) == RestoredAll(es[..n], today) + [r];
    if n > 0 {
      SortByDateAbsorbs(ts + RestoredAll(es[..n], today), [r]);
      assert (ts + RestoredAll(es[..n], today)) + [r] == ts + RestoredAll(es[..n + 1], today);
    } else {
      assert RestoredAll(es[..1], today) == [r];
    }
  }

  /** The storage after the first `n` bin items were restored one by one. */
  function StorageAfterRestores(m: map<string, Stored>, ts: seq<Task>, es: seq<Entry>, n: nat, today: nat): map<string, Stored>
    requires n <= |es|
  {
    if n == 0 then m
    else m[TasksKey := TaskRecords(TaskRecordsOf(AfterRestores(ts, es, n - 1, today) + [RestoredAll(es, today)[n - 1]]))]
          [BinKey := BinRecords(BinRecordsOf(es[n..]))]
  }

  /** One more restore writes both stores over what the previous one wrote. */
  lemma StorageAfterStep(m: map<string, Stored>, ts: seq<Task>, es: seq<Entry>, n: nat, today: nat)
    requires n < |es|
    ensures StorageAfterRestores(m, ts, es, n, today)
        [TasksKey := TaskRecords(TaskRecordsOf(AfterRestores(ts, es, n, today) + [RestoredAll(es, today)[n]]))]
        [BinKey := BinRecords(BinRecordsOf(es[n + 1..]))]
      == StorageAfterRestores(m, ts, es, n + 1, today)
  {
    var x := TaskRecords(TaskRecordsOf(AfterRestores(ts, es, n, today) + [RestoredAll(es, today)[n]]));
    var y := BinRecords(BinRecordsOf(es[n + 1..]));
    BothStoresWritten(StorageAfterRestores(m, ts, es, n, today), m, x, y);
  }

  /** The list the last restore saves sorts to the final list. */
  lemma LastSavedSorts(ts: seq<Task>, es: seq<Entry>, today: nat)
    requires es != []
    ensures SortByDate(LastSavedTasks(ts, es, today)) == AfterRestores(ts, es, |es|, today)
    ensures AfterRestores(ts, es, |es|, today) == SortByDate(ts + RestoredAll(es, today))
  {
    AfterRestoresStep(ts, es, |es| - 1, today);
    assert es[..|es|] == es;
  }

  /** The storage after the last restore, written with the final contents of both stores. */
  lemma LastSavedStored(m: map<string, Stored>, ts: seq<Task>, es: seq<Entry>, today: nat)
    requires es != []
    ensures m[TasksKey := TaskRecords(TaskRecordsOf(AfterRestores(ts, es, |es| - 1, today) + [RestoredAll(es, today)[|es| - 1]]))]
             [BinKey := BinRecords(BinRecordsOf(es[|es|..]))]
      == m[TasksKey := TaskRecords(TaskRecordsOf(LastSavedTasks(ts, es, today)))][BinKey := BinRecords([])]
  {
    assert BinRecordsOf(es[|es|..]) == [];
  }

  /**
    * restoreAllTasks: every bin item is restored as pending, in bin order; the bin
    * ends empty, and the list is the old list with the restored items, sorted.
    * The stored tasks are what the last restore saved, which sorts to that list.
    */
  method RestoreAllTasks(page: Page, today: nat)
    requires page.Valid()
    modifies page
    ensures page.Valid()
    ensures page.bin == []
    ensures old(page.bin) == [] ==> page.tasks == old(page.tasks) && page.storage == old(page.storage)
    ensures old(page.bin) != [] ==> page.tasks == SortByDate(old(page.tasks) + RestoredAll(old(page.bin), today))
    ensures old(page.bin) != [] ==>
      page.storage == old(page.storage)
        [TasksKey := TaskRecords(TaskRecordsOf(LastSavedTasks(old(page.tasks), old(page.bin), today)))]
        [BinKey := BinRecords([])]
      && SortByDate(LastSavedTasks(old(page.tasks), old(page.bin), today)) == page.tasks
    ensures page.activeButton == old(page.activeButton) && page.deleteAllTriggered == old(page.deleteAllTriggered)
  {
    ghost var before, recycleItems := page.tasks, page.bin;
    RestoreEach(page, today);
    MidRestoreDone(page, before, recycleItems, old(page.storage), today);
  }

  /** The loop of restoreAllTasks: every item the bin held at the start is restored, first to last. */
  method RestoreEach(page: Page, today: nat)
    requires page.Valid()
    modifies page
    ensures MidRestore(page, old(page.tasks), old(page.bin), |old(page.bin)|, old(page.storage), today)
    ensures page.activeButton == old(page.activeButton) && page.deleteAllTriggered == old(page.deleteAllTriggered)
  {
    var recycleItems := page.bin;
    for k := 0 to |recycleItems|
      invariant MidRestore(page, old(page.tasks), recycleItems, k, old(page.storage), today)
      invariant page.activeButton == old(page.activeButton) && page.deleteAllTriggered == old(page.deleteAllTriggered)
    {
      RestoreFirst(page, old(page.tasks), recycleItems, k, old(page.storage), today);
    }
  }

  /** Once every item is restored, the page is what restoreAllTasks promises. */
  lemma MidRestoreDone(page: Page, ts: seq<Task>, es: seq<Entry>, storage0: map<string, Stored>, today: nat)
    requires MidRestore(page, ts, es, |es|, storage0, today)
    ensures page.bin == []
    ensures es == [] ==> page.tasks == ts && page.storage == storage0
    ensures es != [] ==> page.tasks == SortByDate(ts + RestoredAll(es, today))
    ensures es != [] ==>
      page.storage == storage0[TasksKey := TaskRecords(TaskRecordsOf(LastSavedTasks(ts, es, today)))][BinKey := BinRecords([])]
      && SortByDate(LastSavedTasks(ts, es, today)) == page.tasks
  {
    if es != [] {
      LastSavedSorts(ts, es, today);
      LastSavedStored(storage0, ts, es, today);
    }
  }

  /** The page after restoreAllTasks restored the first `k` of the items `es` it started from. */
  ghost predicate MidRestore(page: Page, ts: seq<Task>, es: seq<Entry>, k: nat, storage0: map<string, Stored>, today: nat)
    reads page
  {
    page.Valid() && k <= |es| && page.bin == es[k..]
    && page.tasks == AfterRestores(ts, es, k, today)
    && page.storage == StorageAfterRestores(storage0, ts, es, k, today)
  }

  /** One turn of the loop of restoreAllTasks: the first item left in the bin is restored as pending. */
  method RestoreFirst(page: Page, ghost ts: seq<Task>, ghost es: seq<Entry>, ghost k: nat, ghost storage0: map<string, Stored>, today: nat)
    requires MidRestore(page, ts, es, k, storage0, today) && k < |es|
    modifies page
    ensures MidRestore(page, ts, es, k + 1, storage0, today)
    ensures page.activeButton == old(page.activeButton) && page.deleteAllTriggered == old(page.deleteAllTriggered)
  {
    var text := page.bin[0].text;
    assert es[k..][1..] == es[k + 1..];
    RestoreTask(page, text, false, 0, today);
    AfterRestoresStep(ts, es, k, today);
    StorageAfterStep(storage0, ts, es, k, today);
  }

  /**
    * With no unparsable date in the list or in the bin, restoring everything grows
    * the list by exactly the bin's items.
    */
  lemma RestoreAllKeepsEverything(ts: seq<Task>, es: seq<Entry>, today: nat)
    requires forall t :: t in ts ==> !HasBadDate(t)
    requires forall e :: e in es ==> DueOfText(e.dueDate) != Unparsable
    ensures multiset(SortByDate(ts + RestoredAll(es, today))) == multiset(ts) + multiset(RestoredAll(es, today))
    ensures |SortByDate(ts + RestoredAll(es, today))| == |ts| + |es|
  {
    var rs := RestoredAll(es, today);
    forall t | t in ts + rs ensures !HasBadDate(t) {
      if t !in ts {
        var i :| 0 <= i < |rs| && rs[i] == t;
        assert es[i] in es;
      }
    }
    SortByDatePermutes(ts + rs);
  }
}
