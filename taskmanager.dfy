/**
  * Task creation, editing, completion, deletion and storage (Scripts/JS/taskManager.js).
  * The 300 ms and 10 ms timers of removeTask, saveEdit and editDueDate are taken to
  * fire at once; notifications and drag and drop are not part of this model.
  */
module TaskManager {
  import opened Wrappers
  import opened Text
  import opened DateStatus
  import opened Model
  import opened SortPolicy
  import opened Utils
  import opened Filters

  /** The displayed items of a list, in list order. */
  function Shown(s: seq<Task>): seq<Task> {
    if s == [] then [] else Shown(s[..|s| - 1]) + (if s[|s| - 1].shown then [s[|s| - 1]] else [])
  }

  /** The items of a list whose display is "none", in list order. */
  function Hidden(s: seq<Task>): seq<Task> {
    if s == [] then [] else Hidden(s[..|s| - 1]) + (if s[|s| - 1].shown then [] else [s[|s| - 1]])
  }

  /** Every item is either displayed or hidden, so the two parts together are the list. */
  lemma {:induction false} ShownHiddenPartition(s: seq<Task>)
    ensures multiset(Shown(s)) + multiset(Hidden(s)) == multiset(s)
    ensures forall t :: t in Shown(s) ==> t in s && t.shown
    ensures forall t :: t in Hidden(s) ==> t in s && !t.shown
  {
    if s != [] {
      var init := s[..|s| - 1];
      ShownHiddenPartition(init);
      assert s == init + [s[|s| - 1]];
    }
  }

  /** Replacing one item by an item without both status classes keeps the page invariant. */
  lemma MarkersAfterUpdate(ts: seq<Task>, i: nat, t: Task)
    requires i < |ts| && MarkersExclusive(t)
    requires forall u :: u in ts ==> MarkersExclusive(u)
    ensures forall u :: u in ts[i := t] ==> MarkersExclusive(u)
  {
    forall u | u in ts[i := t] ensures MarkersExclusive(u) {
      var j :| 0 <= j < |ts| && ts[i := t][j] == u;
      if j != i {
        assert ts[j] in ts;
      }
    }
  }

  /** Two storages that hold the same values under every key but the two stores. */
  ghost predicate SameOtherKeys(a: map<string, Stored>, b: map<string, Stored>) {
    forall key :: key != TasksKey && key != BinKey ==> (key in a <==> key in b) && (key in a ==> a[key] == b[key])
  }

  /** Once both stores are written, what they held before no longer matters. */
  lemma {:induction false} BothStoresWritten(a: map<string, Stored>, b: map<string, Stored>, x: Stored, y: Stored)
    requires SameOtherKeys(a, b)
    ensures a[TasksKey := x][BinKey := y] == b[TasksKey := x][BinKey := y]
  {
    var a', b' := a[TasksKey := x][BinKey := y], b[TasksKey := x][BinKey := y];
    assert forall key :: key in a' <==> key in b';
    assert forall key :: key in a' ==> a'[key] == b'[key];
  }

  /** The item that addTask appends for the two input fields. */
  function AddedTask(taskInput: string, dueDateInput: string, today: nat): (t: Task)
    ensures t.text == Trim(taskInput) && !t.completed && t.shown
    ensures t.due == DueOfText(Trim(dueDateInput))
  {
    NewTask(Trim(taskInput), false, Trim(dueDateInput), today)
  }

  /**
    * addTask: nothing happens when the trimmed task text is empty. Otherwise a new,
    * pending item is appended, the list is saved in that order and only then sorted.
    */
  method AddTask(page: Page, taskInput: string, dueDateInput: string, today: nat) returns (added: bool)
    requires page.Valid()
    modifies page
    ensures page.Valid()
    ensures added <==> Trim(taskInput) != ""
    ensures !added ==> page.tasks == old(page.tasks) && page.storage == old(page.storage)
    ensures added ==> page.tasks == SortByDate(old(page.tasks) + [AddedTask(taskInput, dueDateInput, today)])
    ensures added ==> page.storage == old(page.storage)[TasksKey := TaskRecords(TaskRecordsOf(old(page.tasks) + [AddedTask(taskInput, dueDateInput, today)]))]
    ensures page.bin == old(page.bin) && page.activeButton == old(page.activeButton) && page.deleteAllTriggered == old(page.deleteAllTriggered)
  {
    var taskText := Trim(taskInput);
    var dueDate := Trim(dueDateInput);
    if taskText == "" {
      return false;
    }
    var taskItem := NewTask(taskText, false, dueDate, today);
    page.tasks := page.tasks + [taskItem];
    page.SaveTasks();
    SortTasksByDate(page);
    added := true;
  }

  /**
    * When neither the list nor the new item carries an unparsable date, adding grows
    * the list by exactly the new item.
    */
  lemma AddedTaskListed(ts: seq<Task>, item: Task)
    requires forall t :: t in ts ==> !HasBadDate(t)
    requires !HasBadDate(item)
    ensures multiset(SortByDate(ts + [item])) == multiset(ts) + multiset{item}
    ensures |SortByDate(ts + [item])| == |ts| + 1
  {
    SortByDatePermutes(ts + [item]);
  }

  /** An item added with a due text that does not parse is dropped by the sort that follows. */
  lemma AddedTaskWithBadDateDropped(ts: seq<Task>, taskInput: string, dueDateInput: string, today: nat)
    requires ParseDate(Trim(dueDateInput)).None? && Trim(dueDateInput) != ""
    ensures AddedTask(taskInput, dueDateInput, today) !in SortByDate(ts + [AddedTask(taskInput, dueDateInput, today)])
  {
    var item := AddedTask(taskInput, dueDateInput, today);
    assert item in ts + [item];
    SortByDateDropsBadDates(ts + [item], item);
  }

  /**
    * saveEdit: an edit whose trimmed text is empty is ignored; otherwise the item's
    * text becomes the trimmed text and the list is saved.
    */
  method SaveEdit(page: Page, i: nat, inputValue: string) returns (saved: bool)
    requires page.Valid() && i < |page.tasks|
    modifies page
    ensures page.Valid()
    ensures saved <==> Trim(inputValue) != ""
    ensures !saved ==> page.tasks == old(page.tasks) && page.storage == old(page.storage)
    ensures saved ==> page.tasks == old(page.tasks)[i := old(page.tasks)[i].(text := Trim(inputValue))]
    ensures saved ==> page.storage == old(page.storage)[TasksKey := TaskRecords(TaskRecordsOf(page.tasks))]
    ensures page.bin == old(page.bin) && page.activeButton == old(page.activeButton) && page.deleteAllTriggered == old(page.deleteAllTriggered)
  {
    var newText := Trim(inputValue);
    if newText == "" {
      return false;
    }
    var li := page.tasks[i];
    assert li in page.tasks;
    MarkersAfterUpdate(page.tasks, i, li.(text := newText));
    page.tasks := page.tasks[i := li.(text := newText)];
    page.SaveTasks();
    saved := true;
  }

  /** The list with the completed class of item `i` toggled. */
  function Toggle(ts: seq<Task>, i: nat): (r: seq<Task>)
    requires i < |ts|
    ensures |r| == |ts| && r[i].completed == !ts[i].completed
    ensures r[i].text == ts[i].text && r[i].due == ts[i].due && r[i].shown == ts[i].shown
    ensures r[i].overdue == ts[i].overdue && r[i].dueToday == ts[i].dueToday
    ensures forall j :: 0 <= j < |ts| && j != i ==> r[j] == ts[j]
  {
    ts[i := ts[i].(completed := !ts[i].completed)]
  }

  /** Clicking the same item twice gives back the list it started from. */
  lemma ToggleTwice(ts: seq<Task>, i: nat)
    requires i < |ts|
    ensures Toggle(Toggle(ts, i), i) == ts
  {
  }

  /** `document.querySelector(".active-filter")?.id || "all"`: the button's id, not a filter name. */
  function ReapplyArgument(active: Option<string>): string {
    if active.Some? && active.value != "" then active.value else "all"
  }

  /**
    * completeTask: toggles the item, saves the list, and calls filterTasks with the
    * id of the active button. That id is no filter name, so whenever a filter button
    * is active every item ends up displayed and the active button stays.
    */
  method CompleteTask(page: Page, i: nat, today: nat)
    requires page.Valid() && i < |page.tasks|
    modifies page
    ensures page.Valid()
    ensures page.storage == old(page.storage)[TasksKey := TaskRecords(TaskRecordsOf(Toggle(old(page.tasks), i)))]
    ensures page.tasks == ApplyFilter(Toggle(old(page.tasks), i), ReapplyArgument(old(page.activeButton)), today)
    ensures old(page.activeButton).Some? && old(page.activeButton).value in FilterButtons ==>
      page.activeButton == old(page.activeButton) && forall j :: 0 <= j < |page.tasks| ==> page.tasks[j].shown
    ensures old(page.activeButton).None? ==> page.activeButton == Some("allFilter")
    ensures page.bin == old(page.bin) && page.deleteAllTriggered == old(page.deleteAllTriggered)
  {
    var li := page.tasks[i];
    assert li in page.tasks;
    MarkersAfterUpdate(page.tasks, i, li.(completed := !li.completed));
    page.tasks := page.tasks[i := li.(completed := !li.completed)];
    page.SaveTasks();
    ButtonIdsAreNoNames();
    var filter := ReapplyArgument(page.activeButton);
    FilterTasks(page, filter, today);
  }

  /** The filter name whose button carries "active-filter", or "all" when none does. */
  function ActiveFilterName(active: Option<string>): (f: string)
    ensures f in FilterNames
    ensures active.Some? && active.value in FilterButtons ==> ButtonId(f) == active.value
    ensures !(active.Some? && active.value in FilterButtons) ==> f == "all"
  {
    assert "all" + "Filter" == "allFilter" && "completed" + "Filter" == "completedFilter";
    assert "pending" + "Filter" == "pendingFilter" && "dueToday" + "Filter" == "dueTodayFilter";
    assert "overdue" + "Filter" == "overdueFilter";
    if active == Some("completedFilter") then "completed"
    else if active == Some("pendingFilter") then "pending"
    else if active == Some("dueTodayFilter") then "dueToday"
    else if active == Some("overdueFilter") then "overdue"
    else "all"
  }

  /** Reading the active button back gives the filter that was applied. */
  lemma ActiveFilterNameRoundTrip(f: string)
    requires f in FilterNames
    ensures ActiveFilterName(Some(ButtonId(f))) == f
  {
    var g := ActiveFilterName(Some(ButtonId(f)));
    SameBeforeSuffix(g, f, "Filter");
  }

  /**
    * completeTask as evidently intended: the filter in force is applied again, so
    * the toggled item disappears from a "completed" or "pending" view it no longer
    * belongs to.
    */
  method CompleteTaskIntended(page: Page, i: nat, today: nat)
    requires page.Valid() && i < |page.tasks|
    modifies page
    ensures page.Valid()
    ensures page.storage == old(page.storage)[TasksKey := TaskRecords(TaskRecordsOf(Toggle(old(page.tasks), i)))]
    ensures page.tasks == ApplyFilter(Toggle(old(page.tasks), i), ActiveFilterName(old(page.activeButton)), today)
    ensures old(page.activeButton).Some? && old(page.activeButton).value in FilterButtons ==> page.activeButton == old(page.activeButton)
    ensures page.activeButton == Some(ButtonId(ActiveFilterName(old(page.activeButton))))
    ensures page.bin == old(page.bin) && page.deleteAllTriggered == old(page.deleteAllTriggered)
  {
    var li := page.tasks[i];
    assert li in page.tasks;
    MarkersAfterUpdate(page.tasks, i, li.(completed := !li.completed));
    page.tasks := page.tasks[i := li.(completed := !li.completed)];
    page.SaveTasks();
    var filter := ActiveFilterName(page.activeButton);
    FilterTasks(page, filter, today);
  }

  /**
    * The discrepancy: with the "completed" filter active, an item marked pending
    * again stays displayed, although the filter hides pending items.
    */
  lemma ReapplyIgnoresActiveFilter(t: Task, today: nat)
    requires !t.completed
    ensures ReapplyArgument(Some(ButtonId("completed"))) == "completedFilter"
    ensures !Visible(t, "completed", today)
    ensures Visible(t, ReapplyArgument(Some(ButtonId("completed"))), today)
    ensures !Visible(t, ActiveFilterName(Some(ButtonId("completed"))), today)
  {
    assert "completed" + "Filter" == "completedFilter";
  }

  /**
    * removeTask: a bin item with the task's text, its stripped due-date text and a
    * Restore button that keeps the completed flag is appended to the bin; the item
    * leaves the list; both stores are saved.
    */
  method RemoveTask(page: Page, i: nat)
    requires page.Valid() && i < |page.tasks|
    modifies page
    ensures page.Valid()
    ensures page.tasks == old(page.tasks)[..i] + old(page.tasks)[i + 1..]
    ensures page.bin == old(page.bin) + [EntryOf(old(page.tasks)[i])]
    ensures page.storage == old(page.storage)[TasksKey := TaskRecords(TaskRecordsOf(page.tasks))][BinKey := BinRecords(BinRecordsOf(page.bin))]
    ensures page.activeButton == old(page.activeButton) && page.deleteAllTriggered == old(page.deleteAllTriggered)
  {
    var taskItem := page.tasks[i];
    var recycleItem := Entry(taskItem.text, StripDuePrefix(Label(taskItem.due)), taskItem.completed);
    page.bin := page.bin + [recycleItem];
    page.tasks := page.tasks[..i] + page.tasks[i + 1..];
    assert forall t :: t in page.tasks ==> t in old(page.tasks);
    page.SaveTasks();
    page.SaveRecycleBin();
  }

  /** What a click on the task list hit. */
  datatype ClickTarget = DeleteButton(index: nat) | Elsewhere

  /** handleTaskClick: only a click on a delete button removes its item. */
  method HandleTaskClick(page: Page, target: ClickTarget)
    requires page.Valid()
    requires target.DeleteButton? ==> target.index < |page.tasks|
    modifies page
    ensures page.Valid()
    ensures target.Elsewhere? ==> page.tasks == old(page.tasks) && page.bin == old(page.bin) && page.storage == old(page.storage)
    ensures target.DeleteButton? ==>
      page.tasks == old(page.tasks)[..target.index] + old(page.tasks)[target.index + 1..]
      && page.bin == old(page.bin) + [EntryOf(old(page.tasks)[target.index])]
    ensures page.activeButton == old(page.activeButton) && page.deleteAllTriggered == old(page.deleteAllTriggered)
  {
    if target.DeleteButton? {
      RemoveTask(page, target.index);
    }
  }

  /** One step of deleteAllTasks over the list `orig`: item `k` sits at index `|Hidden(orig[..k])|`. */
  lemma {:induction false} DeleteStep(orig: seq<Task>, k: nat)
    requires k < |orig|
    ensures var current, i := Hidden(orig[..k]) + orig[k..], |Hidden(orig[..k])|;
      i < |current| && current[i] == orig[k]
      && (orig[k].shown ==>
            current[..i] + current[i + 1..] == Hidden(orig[..k + 1]) + orig[k + 1..]
            && Shown(orig[..k + 1]) == Shown(orig[..k]) + [orig[k]])
      && (!orig[k].shown ==>
            current == Hidden(orig[..k + 1]) + orig[k + 1..]
            && i + 1 == |Hidden(orig[..k + 1])|
            && Shown(orig[..k + 1]) == Shown(orig[..k]))
  {
    var hidden := Hidden(orig[..k]);
    var next := orig[..k + 1];
    assert next[..|next| - 1] == orig[..k] && next[|next| - 1] == orig[k];
    assert orig[k..] == [orig[k]] + orig[k + 1..];
    var current := hidden + orig[k..];
    assert current == hidden + ([orig[k]] + orig[k + 1..]);
    if orig[k].shown {
      assert current[..|hidden|] == hidden && current[|hidden| + 1..] == orig[k + 1..];
    } else {
      assert current == (hidden + [orig[k]]) + orig[k + 1..];
    }
  }

  lemma EntriesOfSnoc(ts: seq<Task>, t: Task)
    ensures EntriesOf(ts + [t]) == EntriesOf(ts) + [EntryOf(t)]
  {
  }

  /**
    * The page part-way through deleteAllTasks over the list `orig`: the first `k`
    * items have been dealt with, the displayed ones among them are in the bin, the
    * hidden ones stay in front of the items still to come, and `i` is where the next
    * item sits. Only the two stores' keys of localStorage have been written.
    */
  ghost predicate Midway(page: Page, orig: seq<Task>, k: nat, i: nat, bin0: seq<Entry>, storage0: map<string, Stored>)
    reads page
  {
    && page.Valid()
    && k <= |orig|
    && page.tasks == Hidden(orig[..k]) + orig[k..]
    && i == |Hidden(orig[..k])|
    && page.bin == bin0 + EntriesOf(Shown(orig[..k]))
    && SameOtherKeys(page.storage, storage0)
  }

  /** One turn of the loop of deleteAllTasks: removeTask on item `k` if it is displayed. */
  method RemoveShownStep(page: Page, ghost orig: seq<Task>, ghost k: nat, i: nat, ghost bin0: seq<Entry>, ghost storage0: map<string, Stored>)
      returns (next: nat)
    requires Midway(page, orig, k, i, bin0, storage0) && k < |orig|
    modifies page
    ensures Midway(page, orig, k + 1, next, bin0, storage0)
    ensures page.activeButton == old(page.activeButton) && page.deleteAllTriggered == old(page.deleteAllTriggered)
  {
    DeleteStep(orig, k);
    if page.tasks[i].shown {
      EntriesOfSnoc(Shown(orig[..k]), orig[k]);
      RemoveTask(page, i);
      next := i;
    } else {
      next := i + 1;
    }
  }

  /**
    * The loop of deleteAllTasks: removeTask on every displayed item, in list order.
    * Hidden items stay; only the two stores' keys of localStorage are written.
    */
  method RemoveShown(page: Page)
    requires page.Valid()
    modifies page
    ensures page.Valid()
    ensures page.tasks == Hidden(old(page.tasks))
    ensures page.bin == old(page.bin) + EntriesOf(Shown(old(page.tasks)))
    ensures SameOtherKeys(page.storage, old(page.storage))
    ensures page.activeButton == old(page.activeButton) && page.deleteAllTriggered == old(page.deleteAllTriggered)
  {
    ghost var orig := page.tasks;
    ghost var k: nat := 0;
    var i: nat := 0;
    while i < |page.tasks|
      invariant Midway(page, orig, k, i, old(page.bin), old(page.storage))
      invariant page.activeButton == old(page.activeButton) && page.deleteAllTriggered == old(page.deleteAllTriggered)
      decreases |orig| - k
    {
      i := RemoveShownStep(page, orig, k, i, old(page.bin), old(page.storage));
      k := k + 1;
    }
    MidwayDone(page, orig, k, i, old(page.bin), old(page.storage));
  }

  /** Once the next index is past the end of the list, every item has been dealt with. */
  lemma MidwayDone(page: Page, orig: seq<Task>, k: nat, i: nat, bin0: seq<Entry>, storage0: map<string, Stored>)
    requires Midway(page, orig, k, i, bin0, storage0) && i >= |page.tasks|
    ensures page.tasks == Hidden(orig) && page.bin == bin0 + EntriesOf(Shown(orig))
  {
    assert orig[..k] == orig;
  }

  /**
    * deleteAllTasks: every displayed item moves to the bin, in list order; hidden
    * items stay; both stores are saved.
    */
  method DeleteAllTasks(page: Page)
    requires page.Valid()
    modifies page
    ensures page.Valid()
    ensures page.tasks == Hidden(old(page.tasks))
    ensures page.bin == old(page.bin) + EntriesOf(Shown(old(page.tasks)))
    ensures page.storage == old(page.storage)[TasksKey := TaskRecords(TaskRecordsOf(page.tasks))][BinKey := BinRecords(BinRecordsOf(page.bin))]
    ensures page.activeButton == old(page.activeButton) && page.deleteAllTriggered == old(page.deleteAllTriggered)
  {
    RemoveShown(page);
    ghost var beforeSaves := page.storage;
    page.SaveTasks();
    page.SaveRecycleBin();
    BothStoresWritten(beforeSaves, old(page.storage), TaskRecords(TaskRecordsOf(page.tasks)), BinRecords(BinRecordsOf(page.bin)));
  }

  /**
    * loadTasks: one item per stored record, appended in stored order (a missing key
    * reads as no records), then the list is sorted.
    */
  method LoadTasks(page: Page, today: nat)
    requires page.Valid()
    modifies page
    ensures page.Valid()
    ensures page.tasks == SortByDate(old(page.tasks) + TasksFromRecords(StoredTasks(old(page.storage)), today))
    ensures page.bin == old(page.bin) && page.storage == old(page.storage)
    ensures page.activeButton == old(page.activeButton) && page.deleteAllTriggered == old(page.deleteAllTriggered)
  {
    var tasks := StoredTasks(page.storage);
    for k := 0 to |tasks|
      invariant page.Valid()
      invariant page.tasks == old(page.tasks) + TasksFromRecords(tasks[..k], today)
      invariant page.bin == old(page.bin) && page.storage == old(page.storage)
      invariant page.activeButton == old(page.activeButton) && page.deleteAllTriggered == old(page.deleteAllTriggered)
    {
      var task := tasks[k];
      LoadStep(tasks, k, today);
      page.tasks := page.tasks + [NewTask(task.text, task.completed, task.dueDate, today)];
    }
    assert tasks[..|tasks|] == tasks;
    SortTasksByDate(page);
  }

  lemma LoadStep(rs: seq<TaskRecord>, k: nat, today: nat)
    requires k < |rs|
    ensures TasksFromRecords(rs[..k + 1], today) == TasksFromRecords(rs[..k], today) + [NewTask(rs[k].text, rs[k].completed, rs[k].dueDate, today)]
  {
    var a, b := TasksFromRecords(rs[..k + 1], today), TasksFromRecords(rs[..k], today);
    forall j | 0 <= j < k ensures a[j] == b[j] {
      assert rs[..k + 1][j] == rs[..k][j];
    }
  }

  /**
    * A list saved and then loaded into an empty page comes back sorted, with every
    * item's text and due date as they were and every item pending.
    */
  lemma {:induction false} SaveThenLoad(ts: seq<Task>, today: nat)
    requires forall t :: t in ts ==> !HasBadDate(t)
    ensures var back := TasksFromRecords(TaskRecordsOf(ts), today);
      |SortByDate(back)| == |ts|
      && (forall i :: 0 <= i < |ts| ==> back[i].text == ts[i].text && !back[i].completed && back[i].due == ts[i].due)
  {
    var back := TasksFromRecords(TaskRecordsOf(ts), today);
    TaskRecordsRoundTrip(ts, today);
    forall t | t in back ensures !HasBadDate(t) {
      var i :| 0 <= i < |back| && back[i] == t;
      assert ts[i] in ts;
    }
    SortByDatePermutes(back);
  }

  /**
    * saveDueDate: an empty value changes nothing. Otherwise the item's span shows
    * the new date, its status classes follow checkTaskStatus of the new date, the
    * list is saved, then sorted.
    */
  method SaveDueDate(page: Page, i: nat, newDate: string, today: nat) returns (saved: bool)
    requires page.Valid() && i < |page.tasks|
    modifies page
    ensures page.Valid()
    ensures saved <==> newDate != ""
    ensures !saved ==> page.tasks == old(page.tasks) && page.storage == old(page.storage)
    ensures saved ==> var updated := old(page.tasks)[i := UpdateTaskStatus(old(page.tasks)[i].(due := DueOfText(newDate)), newDate, today)];
      page.storage == old(page.storage)[TasksKey := TaskRecords(TaskRecordsOf(updated))]
      && page.tasks == SortByDate(updated)
    ensures page.bin == old(page.bin) && page.activeButton == old(page.activeButton) && page.deleteAllTriggered == old(page.deleteAllTriggered)
  {
    if newDate == "" {
      return false;
    }
    var taskItem := page.tasks[i].(due := DueOfText(newDate));
    LabelOfText(newDate);
    assert Label(taskItem.due) == DuePrefix + FormatDate(newDate);
    taskItem := UpdateTaskStatus(taskItem, newDate, today);
    MarkersAfterUpdate(page.tasks, i, taskItem);
    page.tasks := page.tasks[i := taskItem];
    page.SaveTasks();
    SortTasksByDate(page);
    saved := true;
  }

  /** The item a committed due-date edit leaves: the new date, with the status classes it calls for. */
  lemma SavedDueDateStatus(t: Task, newDate: string, today: nat)
    requires newDate != ""
    ensures var u := UpdateTaskStatus(t.(due := DueOfText(newDate)), newDate, today);
      u.text == t.text && u.completed == t.completed && Label(u.due) == DuePrefix + FormatDate(newDate)
      && (u.overdue <==> ParseDate(newDate).Some? && ParseDate(newDate).value < today)
      && (u.dueToday <==> ParseDate(newDate) == Some(today))
      && MarkersExclusive(u)
  {
    LabelOfText(newDate);
  }

  /** What reaches the date input while it is being edited. */
  datatype EditEvent = EnterKey | OtherKey | Blur

  /**
    * The date input editDueDate puts in place of the span: the `enterPressed` flag
    * is set by Enter, and a blur saves only while it is unset.
    */
  class DueDateEditor {
    var enterPressed: bool

    constructor ()
      ensures !enterPressed
    {
      enterPressed := false;
    }

    /** The keypress listener: Enter sets the flag and saves. */
    method KeyPress(event: EditEvent) returns (commit: bool)
      requires event != Blur
      modifies this
      ensures commit <==> event == EnterKey
      ensures enterPressed == (old(enterPressed) || event == EnterKey)
    {
      commit := event == EnterKey;
      if commit {
        enterPressed := true;
      }
    }

    /** The blur listener: saves unless Enter was pressed earlier. */
    method OnBlur() returns (commit: bool)
      ensures commit == !enterPressed
    {
      commit := !enterPressed;
    }
  }

  /**
    * The events of one editing session, and for each whether it calls saveDueDate:
    * every Enter does, and a blur does exactly when no Enter came before it.
    */
  method EditCommits(events: seq<EditEvent>) returns (commits: seq<bool>)
    ensures |commits| == |events|
    ensures forall i :: 0 <= i < |events| ==>
      (commits[i] <==> events[i] == EnterKey || (events[i] == Blur && EnterKey !in events[..i]))
  {
    var editor := new DueDateEditor();
    commits := [];
    for i := 0 to |events|
      invariant |commits| == i
      invariant editor.enterPressed <==> EnterKey in events[..i]
      invariant forall j :: 0 <= j < i ==>
        (commits[j] <==> events[j] == EnterKey || (events[j] == Blur && EnterKey !in events[..j]))
    {
      assert events[..i + 1] == events[..i] + [events[i]];
      var commit;
      if events[i] == Blur {
        commit := editor.OnBlur();
      } else {
        commit := editor.KeyPress(events[i]);
      }
      commits := commits + [commit];
    }
  }

  /** After the first Enter of a session, no later blur saves again. */
  lemma {:induction false} NoBlurSaveAfterEnter(events: seq<EditEvent>, commits: seq<bool>, i: nat, j: nat)
    requires |commits| == |events|
    requires forall k :: 0 <= k < |events| ==>
      (commits[k] <==> events[k] == EnterKey || (events[k] == Blur && EnterKey !in events[..k]))
    requires i < j < |events| && events[i] == EnterKey && events[j] == Blur
    ensures !commits[j]
  {
    assert events[..j][i] == EnterKey;
  }
}
