/**
  * The single-file version of the page (Scripts/JS/script.js). Where its functions
  * are the same code as the split modules, the members of TaskManager, RecycleBin,
  * Utils and DateStatus model them; this module holds what differs: a filterTasks
  * that throws when the button is missing, the `deleteAllTasks.triggered` property
  * that stops removeTask from saving the bin, and a due-date editor without a flag.
  */
module LatestScript {
  import opened Wrappers
  import opened Model
  import Filters
  import opened TaskManager

  /**
    * filterTasks: every button loses "active-filter", then `getElementById` of the
    * button is dereferenced. Without such a button this throws a TypeError (`ok` is
    * false) and no item changes; otherwise the button becomes active and the items
    * are shown or hidden as in the split version.
    */
  method FilterTasks(page: Page, filter: string, today: nat) returns (ok: bool)
    requires page.Valid()
    modifies page
    ensures page.Valid()
    ensures ok <==> filter in Filters.FilterNames
    ensures ok ==> page.activeButton == Some(Filters.ButtonId(filter)) && page.tasks == Filters.ApplyFilter(old(page.tasks), filter, today)
    ensures !ok ==> page.activeButton == None && page.tasks == old(page.tasks)
    ensures page.bin == old(page.bin) && page.storage == old(page.storage) && page.deleteAllTriggered == old(page.deleteAllTriggered)
  {
    page.activeButton := None;
    if Filters.ButtonId(filter) !in Filters.FilterButtons {
      return false;
    }
    Filters.FilterTasks(page, filter, today);
    ok := true;
  }

  /**
    * completeTask: toggles and saves as in the split version, then calls the
    * throwing filterTasks with the active button's id. With a filter button active
    * that call throws: no button is active any more and no item's display changes.
    */
  method CompleteTask(page: Page, i: nat, today: nat) returns (ok: bool)
    requires page.Valid() && i < |page.tasks|
    modifies page
    ensures page.Valid()
    ensures page.storage == old(page.storage)[TasksKey := TaskRecords(TaskRecordsOf(Toggle(old(page.tasks), i)))]
    ensures old(page.activeButton).Some? && old(page.activeButton).value in Filters.FilterButtons ==>
      !ok && page.activeButton == None && page.tasks == Toggle(old(page.tasks), i)
    ensures old(page.activeButton).None? ==>
      ok && page.activeButton == Some("allFilter") && page.tasks == Filters.ApplyFilter(Toggle(old(page.tasks), i), "all", today)
    ensures page.bin == old(page.bin) && page.deleteAllTriggered == old(page.deleteAllTriggered)
  {
    var li := page.tasks[i];
    assert li in page.tasks;
    MarkersAfterUpdate(page.tasks, i, li.(completed := !li.completed));
    page.tasks := page.tasks[i := li.(completed := !li.completed)];
    page.SaveTasks();
    Filters.ButtonIdsAreNoNames();
    ok := FilterTasks(page, ReapplyArgument(page.activeButton), today);
  }

  /** The button ids are no filter names, so reapplying one of them always throws. */
  lemma ReapplyThrows(id: string)
    requires id in Filters.FilterButtons
    ensures ReapplyArgument(Some(id)) !in Filters.FilterNames
  {
  }

  /**
    * completeTask as evidently intended: the filter in force is looked up from the
    * active button and applied again, which never throws.
    */
  method CompleteTaskIntended(page: Page, i: nat, today: nat) returns (ok: bool)
    requires page.Valid() && i < |page.tasks|
    modifies page
    ensures page.Valid()
    ensures ok
    ensures page.storage == old(page.storage)[TasksKey := TaskRecords(TaskRecordsOf(Toggle(old(page.tasks), i)))]
    ensures page.tasks == Filters.ApplyFilter(Toggle(old(page.tasks), i), ActiveFilterName(old(page.activeButton)), today)
    ensures old(page.activeButton).Some? && old(page.activeButton).value in Filters.FilterButtons ==> page.activeButton == old(page.activeButton)
    ensures page.bin == old(page.bin) && page.deleteAllTriggered == old(page.deleteAllTriggered)
  {
    var li := page.tasks[i];
    assert li in page.tasks;
    MarkersAfterUpdate(page.tasks, i, li.(completed := !li.completed));
    page.tasks := page.tasks[i := li.(completed := !li.completed)];
    page.SaveTasks();
    ok := FilterTasks(page, ActiveFilterName(page.activeButton), today);
  }

  /**
    * removeTask: as in the split version, except that the bin is saved only while
    * `deleteAllTasks.triggered` is unset; the list is always saved.
    */
  method RemoveTask(page: Page, i: nat)
    requires page.Valid() && i < |page.tasks|
    modifies page
    ensures page.Valid()
    ensures page.tasks == old(page.tasks)[..i] + old(page.tasks)[i + 1..]
    ensures page.bin == old(page.bin) + [EntryOf(old(page.tasks)[i])]
    ensures page.deleteAllTriggered ==> page.storage == old(page.storage)[TasksKey := TaskRecords(TaskRecordsOf(page.tasks))]
    ensures !page.deleteAllTriggered ==>
      page.storage == old(page.storage)[TasksKey := TaskRecords(TaskRecordsOf(page.tasks))][BinKey := BinRecords(BinRecordsOf(page.bin))]
    ensures page.activeButton == old(page.activeButton) && page.deleteAllTriggered == old(page.deleteAllTriggered)
  {
    var taskItem := page.tasks[i];
    var recycleItem := Entry(taskItem.text, DateStatus.StripDuePrefix(DateStatus.Label(taskItem.due)), taskItem.completed);
    page.bin := page.bin + [recycleItem];
    page.tasks := page.tasks[..i] + page.tasks[i + 1..];
    assert forall t :: t in page.tasks ==> t in old(page.tasks);
    page.SaveTasks();
    if !page.deleteAllTriggered {
      page.SaveRecycleBin();
    }
  }

  /** handleTaskClick: a click on a delete button removes its item. */
  method HandleTaskClick(page: Page, target: ClickTarget)
    requires page.Valid()
    requires target.DeleteButton? ==> target.index < |page.tasks|
    modifies page
    ensures page.Valid()
    ensures target.Elsewhere? ==> page.tasks == old(page.tasks) && page.bin == old(page.bin) && page.storage == old(page.storage)
    ensures target.DeleteButton? ==>
      page.tasks == old(page.tasks)[..target.index] + old(page.tasks)[target.index + 1..]
      && page.bin == old(page.bin) + [EntryOf(old(page.tasks)[target.index])]
    ensures page.activeButton == old(page.activeButton) && page.deleteAllTriggered == old(page.deleteAllTriggered)
  {
    if target.DeleteButton? {
      RemoveTask(page, target.index);
    }
  }

  /**
    * deleteAllTasks: sets `deleteAllTasks.triggered` (and never clears it), moves
    * every displayed item to the bin, then saves both stores.
    */
  method DeleteAllTasks(page: Page)
    requires page.Valid()
    modifies page
    ensures page.Valid()
    ensures page.deleteAllTriggered
    ensures page.tasks == Hidden(old(page.tasks))
    ensures page.bin == old(page.bin) + EntriesOf(Shown(old(page.tasks)))
    ensures page.storage == old(page.storage)[TasksKey := TaskRecords(TaskRecordsOf(page.tasks))][BinKey := BinRecords(BinRecordsOf(page.bin))]
    ensures page.activeButton == old(page.activeButton)
  {
    page.deleteAllTriggered := true;
    ghost var orig := page.tasks;
    ghost var k: nat := 0;
    var i: nat := 0;
    while i < |page.tasks|
      invariant Midway(page, orig, k, i, old(page.bin), old(page.storage))
      invariant page.activeButton == old(page.activeButton) && page.deleteAllTriggered
      decreases |orig| - k
    {
      i := RemoveShownStep(page, orig, k, i, old(page.bin), old(page.storage));
      k := k + 1;
    }
    MidwayDone(page, orig, k, i, old(page.bin), old(page.storage));
    ghost var beforeSaves := page.storage;
    page.SaveTasks();
    page.SaveRecycleBin();
    BothStoresWritten(beforeSaves, old(page.storage), TaskRecords(TaskRecordsOf(page.tasks)), BinRecords(BinRecordsOf(page.bin)));
  }

  /** One turn of the loop of deleteAllTasks: this file's removeTask on item `k` if it is displayed. */
  method RemoveShownStep(page: Page, ghost orig: seq<Task>, ghost k: nat, i: nat, ghost bin0: seq<Entry>, ghost storage0: map<string, Stored>)
      returns (next: nat)
    requires Midway(page, orig, k, i, bin0, storage0) && k < |orig|
    modifies page
    ensures Midway(page, orig, k + 1, next, bin0, storage0)
    ensures page.activeButton == old(page.activeButton) && page.deleteAllTriggered == old(page.deleteAllTriggered)
  {
    DeleteStep(orig, k);
    if page.tasks[i].shown {
      EntriesOfSnoc(Shown(orig[..k]), orig[k]);
      RemoveTask(page, i);
      next := i;
    } else {
      next := i + 1;
    }
  }

  /**
    * deleteAllTasks as evidently intended: the property is cleared once the bulk
    * deletion is over, so later single deletions save the bin again.
    */
  method DeleteAllTasksIntended(page: Page)
    requires page.Valid()
    modifies page
    ensures page.Valid()
    ensures !page.deleteAllTriggered
    ensures page.tasks == Hidden(old(page.tasks))
    ensures page.bin == old(page.bin) + EntriesOf(Shown(old(page.tasks)))
    ensures page.storage == old(page.storage)[TasksKey := TaskRecords(TaskRecordsOf(page.tasks))][BinKey := BinRecords(BinRecordsOf(page.bin))]
    ensures page.activeButton == old(page.activeButton)
  {
    DeleteAllTasks(page);
    page.deleteAllTriggered := false;
  }

  /**
    * The discrepancy: after a bulk deletion, switching to "all" and deleting one more
    * item leaves that item out of the saved bin, so it is gone after a reload.
    */
  method DeleteAllThenRemove(page: Page, today: nat) returns (binSaved: bool)
    requires page.Valid() && Hidden(page.tasks) != []
    modifies page
    ensures !binSaved
  {
    DeleteAllTasks(page);
    var shown := FilterTasks(page, "all", today);
    RemoveTask(page, 0);
    binSaved := StoredBin(page.storage) == BinRecordsOf(page.bin);
    assert |BinRecordsOf(page.bin)| == |StoredBin(page.storage)| + 1;
  }

  /** The same steps with the corrected bulk deletion: the saved bin matches the bin. */
  method DeleteAllThenRemoveIntended(page: Page, today: nat) returns (binSaved: bool)
    requires page.Valid() && Hidden(page.tasks) != []
    modifies page
    ensures binSaved
  {
    DeleteAllTasksIntended(page);
    var shown := FilterTasks(page, "all", today);
    RemoveTask(page, 0);
    binSaved := StoredBin(page.storage) == BinRecordsOf(page.bin);
  }

  /**
    * editDueDate here has no flag: the blur listener always calls saveDueDate, and
    * the keypress listener calls it on Enter. The events reach the two listeners of
    * one date input in order.
    */
  method FlaglessCommits(events: seq<EditEvent>) returns (commits: seq<bool>)
    ensures |commits| == |events|
    ensures forall i :: 0 <= i < |events| ==> (commits[i] <==> events[i] != OtherKey)
  {
    commits := [];
    for i := 0 to |events|
      invariant |commits| == i
      invariant forall j :: 0 <= j < i ==> (commits[j] <==> events[j] != OtherKey)
    {
      var commit;
      if events[i] == Blur {
        commit := true;
      } else {
        commit := events[i] == EnterKey;
      }
      commits := commits + [commit];
    }
  }

  /**
    * Every save of the split version's editor (`split`, as TaskManager.EditCommits
    * gives it) is also a save here (`flagless`), and a blur after an Enter saves here
    * but not there.
    */
  lemma {:induction false} FlaglessSavesMore(events: seq<EditEvent>, split: seq<bool>, flagless: seq<bool>, i: nat)
    requires |split| == |events| && |flagless| == |events|
    requires forall k :: 0 <= k < |events| ==>
      (split[k] <==> events[k] == EnterKey || (events[k] == Blur && EnterKey !in events[..k]))
    requires forall k :: 0 <= k < |events| ==> (flagless[k] <==> events[k] != OtherKey)
    requires i < |events|
    ensures split[i] ==> flagless[i]
    ensures events[i] == Blur && EnterKey in events[..i] ==> flagless[i] && !split[i]
  {
  }
}
