/**
  * The early version of the page (Assets/JS/script.js): plain items with a text and
  * a completed class, three filter buttons, no due dates, no sorting and no recycle
  * bin. Deleting removes the item outright.
  */
module EarlyScript {
  import opened Wrappers
  import opened Text

  /** One `#taskList` item: text, completed class, and whether it is displayed. */
  datatype EarlyTask = EarlyTask(text: string, completed: bool, shown: bool)

  /** The record saveTasks pushes for one item. */
  datatype EarlyRecord = EarlyRecord(text: string, completed: bool)

  const EarlyTasksKey: string := "tasks"

  /** The filter names wired to a button, and the ids of those buttons. */
  const EarlyFilterNames: set<string> := {"all", "completed", "pending"}
  const EarlyFilterButtons: set<string> := {"allFilter", "completedFilter", "pendingFilter"}

  function EarlyRecordsOf(ts: seq<EarlyTask>): (rs: seq<EarlyRecord>)
    ensures |rs| == |ts|
    ensures forall i :: 0 <= i < |ts| ==> rs[i] == EarlyRecord(ts[i].text, ts[i].completed)
  {
    seq(|ts|, i requires 0 <= i < |ts| => EarlyRecord(ts[i].text, ts[i].completed))
  }

  /** The items loadTasks creates: displayed, completed as recorded. */
  function EarlyTasksFromRecords(rs: seq<EarlyRecord>): (ts: seq<EarlyTask>)
    ensures |ts| == |rs|
    ensures forall i :: 0 <= i < |rs| ==> ts[i] == EarlyTask(rs[i].text, rs[i].completed, true)
  {
    seq(|rs|, i requires 0 <= i < |rs| => EarlyTask(rs[i].text, rs[i].completed, true))
  }

  /** A saved list loads back with the same texts and completed flags, all displayed. */
  lemma EarlySaveLoadRoundTrip(ts: seq<EarlyTask>)
    ensures var back := EarlyTasksFromRecords(EarlyRecordsOf(ts));
      |back| == |ts| && forall i :: 0 <= i < |ts| ==> back[i] == ts[i].(shown := true)
    ensures EarlyRecordsOf(EarlyTasksFromRecords(EarlyRecordsOf(ts))) == EarlyRecordsOf(ts)
  {
  }

  /** Whether an item stays displayed: "completed" and "pending" hide the others, anything else shows all. */
  function EarlyVisible(t: EarlyTask, filter: string): (v: bool)
    ensures filter == "completed" ==> (v <==> t.completed)
    ensures filter == "pending" ==> (v <==> !t.completed)
    ensures filter != "completed" && filter != "pending" ==> v
  {
    if filter == "completed" && !t.completed then false
    else if filter == "pending" && t.completed then false
    else true
  }

  /** A click on the task list: on the delete button of an item, or anywhere else. */
  datatype EarlyClick = DeleteButtonOf(index: nat) | ElsewhereInList

  class EarlyPage {
    var tasks: seq<EarlyTask>
    var storage: map<string, seq<EarlyRecord>>
    var activeButton: Option<string>

    constructor (kept: map<string, seq<EarlyRecord>>)
      ensures tasks == [] && storage == kept && activeButton == None
    {
      tasks, storage, activeButton := [], kept, None;
    }

    /** `JSON.parse(localStorage.getItem("tasks")) || []` */
    function StoredRecords(): seq<EarlyRecord>
      reads this
    {
      if EarlyTasksKey in storage then storage[EarlyTasksKey] else []
    }

    /** saveTasks: the text and completed class of every item's span, in list order. */
    method SaveTasks()
      modifies this
      ensures storage == old(storage)[EarlyTasksKey := EarlyRecordsOf(tasks)]
      ensures tasks == old(tasks) && activeButton == old(activeButton)
    {
      var records: seq<EarlyRecord> := [];
      for i := 0 to |tasks|
        invariant |records| == i
        invariant forall k :: 0 <= k < i ==> records[k] == EarlyRecord(tasks[k].text, tasks[k].completed)
      {
        records := records + [EarlyRecord(tasks[i].text, tasks[i].completed)];
      }
      assert records == EarlyRecordsOf(tasks);
      storage := storage[EarlyTasksKey := records];
    }

    /** addTask: an empty trimmed text does nothing; otherwise a pending item is appended and saved. */
    method AddTask(taskInput: string) returns (added: bool)
      modifies this
      ensures added <==> Trim(taskInput) != ""
      ensures !added ==> tasks == old(tasks) && storage == old(storage)
      ensures added ==> tasks == old(tasks) + [EarlyTask(Trim(taskInput), false, true)]
      ensures added ==> storage == old(storage)[EarlyTasksKey := EarlyRecordsOf(tasks)]
      ensures activeButton == old(activeButton)
    {
      var taskText := Trim(taskInput);
      if taskText == "" {
        return false;
      }
      tasks := tasks + [EarlyTask(taskText, false, true)];
      SaveTasks();
      added := true;
    }

    /** The span's click listener in createTaskElement: toggle the completed class and save. */
    method ToggleTask(i: nat)
      requires i < |tasks|
      modifies this
      ensures tasks == old(tasks)[i := old(tasks)[i].(completed := !old(tasks)[i].completed)]
      ensures storage == old(storage)[EarlyTasksKey := EarlyRecordsOf(tasks)]
      ensures activeButton == old(activeButton)
    {
      tasks := tasks[i := tasks[i].(completed := !tasks[i].completed)];
      SaveTasks();
    }

    /** handleTaskClick: a click on a delete button removes its item and saves. */
    method HandleTaskClick(target: EarlyClick)
      requires target.DeleteButtonOf? ==> target.index < |tasks|
      modifies this
      ensures target.ElsewhereInList? ==> tasks == old(tasks) && storage == old(storage)
      ensures target.DeleteButtonOf? ==> tasks == old(tasks)[..target.index] + old(tasks)[target.index + 1..]
      ensures target.DeleteButtonOf? ==> storage == old(storage)[EarlyTasksKey := EarlyRecordsOf(tasks)]
      ensures activeButton == old(activeButton)
    {
      if target.DeleteButtonOf? {
        tasks := tasks[..target.index] + tasks[target.index + 1..];
        SaveTasks();
      }
    }

    /**
      * A click on an item's delete button: the button's own listener removes the item
      * and saves; the click then reaches handleTaskClick, whose removal of the already
      * detached item changes nothing and whose save writes the same records again.
      */
    method ClickDelete(i: nat)
      requires i < |tasks|
      modifies this
      ensures tasks == old(tasks)[..i] + old(tasks)[i + 1..]
      ensures storage == old(storage)[EarlyTasksKey := EarlyRecordsOf(tasks)]
      ensures activeButton == old(activeButton)
    {
      tasks := tasks[..i] + tasks[i + 1..];
      SaveTasks();
      SaveTasks();
    }

    /** saveEdit: an empty trimmed text is ignored; otherwise the item takes the trimmed text and the list is saved. */
    method SaveEdit(i: nat, inputValue: string) returns (saved: bool)
      requires i < |tasks|
      modifies this
      ensures saved <==> Trim(inputValue) != ""
      ensures !saved ==> tasks == old(tasks) && storage == old(storage)
      ensures saved ==> tasks == old(tasks)[i := old(tasks)[i].(text := Trim(inputValue))]
      ensures saved ==> storage == old(storage)[EarlyTasksKey := EarlyRecordsOf(tasks)]
      ensures activeButton == old(activeButton)
    {
      var newText := Trim(inputValue);
      if newText == "" {
        return false;
      }
      tasks := tasks[i := tasks[i].(text := newText)];
      SaveTasks();
      saved := true;
    }

    /** loadTasks: one displayed item per stored record, appended in stored order. */
    method LoadTasks()
      modifies this
      ensures tasks == old(tasks) + EarlyTasksFromRecords(old(StoredRecords()))
      ensures storage == old(storage) && activeButton == old(activeButton)
    {
      var records := StoredRecords();
      for k := 0 to |records|
        invariant tasks == old(tasks) + EarlyTasksFromRecords(records[..k])
        invariant storage == old(storage) && activeButton == old(activeButton)
      {
        var task := records[k];
        var taskItem := EarlyTask(task.text, false, true);
        if task.completed {
          taskItem := taskItem.(completed := true);
        }
        assert EarlyTasksFromRecords(records[..k + 1]) == EarlyTasksFromRecords(records[..k]) + [taskItem];
        tasks := tasks + [taskItem];
      }
      assert records[..|records|] == records;
    }

    /**
      * filterTasks: every button loses "active-filter"; a filter without a button
      * throws a TypeError (`ok` false) before any item changes; otherwise its button
      * becomes active and every item is displayed iff visible under the filter.
      */
    method FilterTasks(filter: string) returns (ok: bool)
      modifies this
      ensures ok <==> filter + "Filter" in EarlyFilterButtons
      ensures filter in EarlyFilterNames ==> ok
      ensures !ok ==> activeButton == None && tasks == old(tasks)
      ensures ok ==> activeButton == Some(filter + "Filter")
      ensures |tasks| == |old(tasks)|
      ensures ok ==> forall i :: 0 <= i < |tasks| ==> tasks[i] == old(tasks)[i].(shown := EarlyVisible(old(tasks)[i], filter))
      ensures storage == old(storage)
    {
      assert "all" + "Filter" == "allFilter" && "completed" + "Filter" == "completedFilter" && "pending" + "Filter" == "pendingFilter";
      activeButton := None;
      if filter + "Filter" !in EarlyFilterButtons {
        return false;
      }
      activeButton := Some(filter + "Filter");
      for i := 0 to |tasks|
        invariant |tasks| == |old(tasks)|
        invariant forall k :: 0 <= k < i ==> tasks[k] == old(tasks)[k].(shown := EarlyVisible(old(tasks)[k], filter))
        invariant forall k :: i <= k < |tasks| ==> tasks[k] == old(tasks)[k]
        invariant storage == old(storage) && activeButton == Some(filter + "Filter")
      {
        tasks := tasks[i := tasks[i].(shown := EarlyVisible(tasks[i], filter))];
      }
      ok := true;
    }
  }
}
