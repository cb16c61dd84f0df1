/**
  * The state of the page: the `#taskList` and `#recycleBin` children read as
  * records, the active filter button, and localStorage as a map from keys to
  * record sequences. Shared by the split-module version (Scripts/JS/taskManager.js,
  * Assets/JS/recycleBin.js, Assets/JS/utils.js, Assets/JS/filters.js) and the
  * single-file version (Scripts/JS/script.js).
  */
module Model {
  import opened Wrappers
  import opened DateStatus

  /** The localStorage keys of the two stores. */
  const TasksKey: string := "tasks"
  const BinKey: string := "recycleBin"

  /**
    * One `#taskList` item: its text, whether its text span has the "completed"
    * class, the due date its `.due-date` span shows, its "overdue" and "due-today"
    * classes, and whether its `style.display` is anything but "none".
    */
  datatype Task = Task(text: string, completed: bool, due: Due, overdue: bool, dueToday: bool, shown: bool)

  /**
    * One `#recycleBin` item: its text, its `data-due-date` attribute, and the
    * completed flag its Restore button hands back to restoreTask.
    */
  datatype Entry = Entry(text: string, dueDate: string, restoreCompleted: bool)

  /** The JSON records the two stores hold. */
  datatype TaskRecord = TaskRecord(text: string, completed: bool, dueDate: string)
  datatype BinRecord = BinRecord(text: string, dueDate: string)

  datatype Stored = TaskRecords(taskRecords: seq<TaskRecord>) | BinRecords(binRecords: seq<BinRecord>)

  /** Each key holds the records of its own store. */
  predicate StorageShaped(storage: map<string, Stored>) {
    (TasksKey in storage ==> storage[TasksKey].TaskRecords?)
    && (BinKey in storage ==> storage[BinKey].BinRecords?)
  }

  /** An item never carries both status classes. */
  predicate MarkersExclusive(t: Task) {
    !(t.overdue && t.dueToday)
  }

  /**
    * updateTaskStatus: both status classes are removed, then the one that matches
    * checkTaskStatus of the date text is added ("future" adds none).
    */
  function UpdateTaskStatus(t: Task, dueDate: string, today: nat): (u: Task)
    ensures u.text == t.text && u.completed == t.completed && u.due == t.due && u.shown == t.shown
    ensures u.overdue <==> CheckTaskStatus(DueOfText(dueDate), today) == Overdue
    ensures u.dueToday <==> CheckTaskStatus(DueOfText(dueDate), today) == Today
    ensures MarkersExclusive(u)
  {
    var status := CheckTaskStatus(DueOfText(dueDate), today);
    t.(overdue := status == Overdue, dueToday := status == Today)
  }

  /**
    * createTaskElement(text, completed, dueDate): a shown item whose span shows
    * "Due: " and the formatted date (or nothing), and whose status class matches
    * checkTaskStatus when a date text is given. The `completed` argument is never
    * read: every new item is pending, whatever its caller passes.
    */
  function NewTask(text: string, completed: bool, dueDate: string, today: nat): (t: Task)
    ensures t.text == text && !t.completed && t.shown
    ensures t.due == DueOfText(dueDate)
    ensures t.overdue <==> dueDate != "" && CheckTaskStatus(t.due, today) == Overdue
    ensures t.dueToday <==> dueDate != "" && CheckTaskStatus(t.due, today) == Today
    ensures MarkersExclusive(t)
  {
    UpdateTaskStatus(Task(text, false, DueOfText(dueDate), false, false, true), dueDate, today)
  }

  /**
    * createTaskElement as evidently intended, and as the early version's loadTasks
    * does it: the "completed" class is added when `completed` is set.
    */
  function NewTaskIntended(text: string, completed: bool, dueDate: string, today: nat): (t: Task)
    ensures t.completed == completed
    ensures t.text == text && t.shown && t.due == DueOfText(dueDate)
    ensures t.overdue <==> dueDate != "" && CheckTaskStatus(t.due, today) == Overdue
    ensures t.dueToday <==> dueDate != "" && CheckTaskStatus(t.due, today) == Today
    ensures MarkersExclusive(t)
  {
    NewTask(text, completed, dueDate, today).(completed := completed)
  }

  /** The `.due-date` span of a new item: "Due: " and the formatted date, or nothing when no date text is given. */
  lemma NewTaskLabel(text: string, completed: bool, dueDate: string, today: nat)
    ensures Label(NewTask(text, completed, dueDate, today).due) == if dueDate == "" then "" else DuePrefix + FormatDate(dueDate)
  {
    LabelOfText(dueDate);
  }

  /** The record saveTasks pushes for one item. */
  function ToRecord(t: Task): TaskRecord {
    TaskRecord(t.text, t.completed, DueDateText(t.due))
  }

  function TaskRecordsOf(ts: seq<Task>): (rs: seq<TaskRecord>)
    ensures |rs| == |ts|
    ensures forall i :: 0 <= i < |ts| ==> rs[i] == ToRecord(ts[i])
  {
    seq(|ts|, i requires 0 <= i < |ts| => ToRecord(ts[i]))
  }

  /**
    * The items loadTasks creates from stored records, in stored order: each with
    * its record's text and date, and pending, since createTaskElement drops the
    * record's completed flag.
    */
  function TasksFromRecords(rs: seq<TaskRecord>, today: nat): (ts: seq<Task>)
    ensures |ts| == |rs|
    ensures forall i :: 0 <= i < |rs| ==> ts[i] == NewTask(rs[i].text, rs[i].completed, rs[i].dueDate, today)
    ensures forall i :: 0 <= i < |rs| ==> ts[i].text == rs[i].text && !ts[i].completed && ts[i].due == DueOfText(rs[i].dueDate)
  {
    seq(|rs|, i requires 0 <= i < |rs| => NewTask(rs[i].text, rs[i].completed, rs[i].dueDate, today))
  }

  /** The items loadTasks would create with the corrected createTaskElement. */
  function TasksFromRecordsIntended(rs: seq<TaskRecord>, today: nat): (ts: seq<Task>)
    ensures |ts| == |rs|
    ensures forall i :: 0 <= i < |rs| ==> ts[i].text == rs[i].text && ts[i].completed == rs[i].completed && ts[i].due == DueOfText(rs[i].dueDate) && ts[i].shown
  {
    seq(|rs|, i requires 0 <= i < |rs| => NewTaskIntended(rs[i].text, rs[i].completed, rs[i].dueDate, today))
  }

  /** The bin item removeTask creates for a task: its Restore button keeps the completed flag. */
  function EntryOf(t: Task): Entry {
    Entry(t.text, DueDateText(t.due), t.completed)
  }

  function EntriesOf(ts: seq<Task>): (es: seq<Entry>)
    ensures |es| == |ts|
    ensures forall i :: 0 <= i < |ts| ==> es[i] == EntryOf(ts[i])
  {
    seq(|ts|, i requires 0 <= i < |ts| => EntryOf(ts[i]))
  }

  /** The record saveRecycleBin pushes for one bin item: no completed flag. */
  function ToBinRecord(e: Entry): BinRecord {
    BinRecord(e.text, e.dueDate)
  }

  function BinRecordsOf(es: seq<Entry>): (rs: seq<BinRecord>)
    ensures |rs| == |es|
    ensures forall i :: 0 <= i < |es| ==> rs[i] == ToBinRecord(es[i])
  {
    seq(|es|, i requires 0 <= i < |es| => ToBinRecord(es[i]))
  }

  /** The bin items loadRecycleBin creates: their Restore buttons restore as not completed. */
  function EntriesFromRecords(rs: seq<BinRecord>): (es: seq<Entry>)
    ensures |es| == |rs|
    ensures forall i :: 0 <= i < |rs| ==> es[i] == Entry(rs[i].text, rs[i].dueDate, false)
  {
    seq(|rs|, i requires 0 <= i < |rs| => Entry(rs[i].text, rs[i].dueDate, false))
  }

  /** `JSON.parse(localStorage.getItem("tasks")) || []` */
  function StoredTasks(storage: map<string, Stored>): seq<TaskRecord> {
    if TasksKey in storage && storage[TasksKey].TaskRecords? then storage[TasksKey].taskRecords else []
  }

  /** `JSON.parse(localStorage.getItem("recycleBin")) || []` */
  function StoredBin(storage: map<string, Stored>): seq<BinRecord> {
    if BinKey in storage && storage[BinKey].BinRecords? then storage[BinKey].binRecords else []
  }

  /**
    * A saved task list, loaded again, has the same texts and due dates in the same
    * order, every item displayed and pending: the completed flags are saved but
    * not applied again.
    */
  lemma {:induction false} TaskRecordsRoundTrip(ts: seq<Task>, today: nat)
    ensures var back := TasksFromRecords(TaskRecordsOf(ts), today);
      |back| == |ts| &&
      forall i :: 0 <= i < |ts| ==>
        back[i].text == ts[i].text && !back[i].completed && back[i].due == ts[i].due && back[i].shown
  {
    forall i | 0 <= i < |ts| ensures DueOfText(DueDateText(ts[i].due)) == ts[i].due {
      DueDateTextRoundTrip(ts[i].due);
    }
  }

  /** The discrepancy: a completed item that is saved and loaded again comes back pending. */
  lemma ReloadLosesCompleted(t: Task, today: nat)
    requires t.completed
    ensures TasksFromRecords(TaskRecordsOf([t]), today)[0].completed != t.completed
  {
  }

  /** With the corrected createTaskElement, texts, flags and due dates all survive a save and a load. */
  lemma {:induction false} TaskRecordsRoundTripIntended(ts: seq<Task>, today: nat)
    ensures var back := TasksFromRecordsIntended(TaskRecordsOf(ts), today);
      |back| == |ts| &&
      forall i :: 0 <= i < |ts| ==>
        back[i].text == ts[i].text && back[i].completed == ts[i].completed && back[i].due == ts[i].due && back[i].shown
  {
    forall i | 0 <= i < |ts| ensures DueOfText(DueDateText(ts[i].due)) == ts[i].due {
      DueDateTextRoundTrip(ts[i].due);
    }
  }

  /**
    * A saved bin, loaded again, has the same texts and date attributes in the same
    * order, and saves to the same records; only the Restore buttons' flags are lost.
    */
  lemma BinRecordsRoundTrip(es: seq<Entry>)
    ensures var back := EntriesFromRecords(BinRecordsOf(es));
      BinRecordsOf(back) == BinRecordsOf(es) &&
      forall i :: 0 <= i < |es| ==> back[i] == es[i].(restoreCompleted := false)
  {
  }

  /**
    * The page: the task list, the recycle bin, localStorage, the id of the filter
    * button carrying "active-filter", and the `deleteAllTasks.triggered` property
    * that only Scripts/JS/script.js sets.
    */
  class Page {
    var tasks: seq<Task>
    var bin: seq<Entry>
    var storage: map<string, Stored>
    var activeButton: Option<string>
    var deleteAllTriggered: bool

    ghost predicate Valid()
      reads this
    {
      StorageShaped(storage) && forall i :: 0 <= i < |tasks| ==> MarkersExclusive(tasks[i])
    }

    /** A freshly loaded document over what localStorage kept from earlier visits. */
    constructor (kept: map<string, Stored>)
      requires StorageShaped(kept)
      ensures Valid()
      ensures tasks == [] && bin == [] && storage == kept
      ensures activeButton == None && !deleteAllTriggered
    {
      tasks, bin, storage := [], [], kept;
      activeButton, deleteAllTriggered := None, false;
    }

    /** saveTasks: one record per item, in list order, overwriting the "tasks" key. */
    method SaveTasks()
      requires Valid()
      modifies this
      ensures Valid()
      ensures storage == old(storage)[TasksKey := TaskRecords(TaskRecordsOf(tasks))]
      ensures tasks == old(tasks) && bin == old(bin)
      ensures activeButton == old(activeButton) && deleteAllTriggered == old(deleteAllTriggered)
    {
      var records: seq<TaskRecord> := [];
      for i := 0 to |tasks|
        invariant |records| == i
        invariant forall k :: 0 <= k < i ==> records[k] == ToRecord(tasks[k])
      {
        records := records + [ToRecord(tasks[i])];
      }
      assert records == TaskRecordsOf(tasks);
      storage := storage[TasksKey := TaskRecords(records)];
    }

    /** saveRecycleBin: one record per bin item, in bin order, overwriting the "recycleBin" key. */
    method SaveRecycleBin()
      requires Valid()
      modifies this
      ensures Valid()
      ensures storage == old(storage)[BinKey := BinRecords(BinRecordsOf(bin))]
      ensures tasks == old(tasks) && bin == old(bin)
      ensures activeButton == old(activeButton) && deleteAllTriggered == old(deleteAllTriggered)
    {
      var records: seq<BinRecord> := [];
      for i := 0 to |bin|
        invariant |records| == i
        invariant forall k :: 0 <= k < i ==> records[k] == ToBinRecord(bin[k])
      {
        records := records + [ToBinRecord(bin[i])];
      }
      assert records == BinRecordsOf(bin);
      storage := storage[BinKey := BinRecords(records)];
    }
  }
}
