/** sortTasksByDate (Assets/JS/utils.js), working on the page's task list. */
module Utils {
  import opened Model
  import opened SortPolicy

  /** The two groups sortTasksByDate collects: items with a parsable date, items with an empty date text. */
  method SplitByDate(tasks: seq<Task>) returns (withDate: seq<Task>, withoutDate: seq<Task>)
    ensures withDate == WithDate(tasks) && withoutDate == WithoutDate(tasks)
  {
    withDate, withoutDate := [], [];
    for i := 0 to |tasks|
      invariant withDate == WithDate(tasks[..i])
      invariant withoutDate == WithoutDate(tasks[..i])
    {
      assert tasks[..i + 1] == tasks[..i] + [tasks[i]];
      SelectConcat(tasks[..i], [tasks[i]], Dated);
      SelectConcat(tasks[..i], [tasks[i]], Undated);
      if HasDate(tasks[i]) {
        withDate := withDate + [tasks[i]];
      }
      if HasNoDate(tasks[i]) {
        withoutDate := withoutDate + [tasks[i]];
      }
    }
    assert tasks[..|tasks|] == tasks;
  }

  /** `withDate.sort(...)`: a stable sort by due day, built by insertion. */
  method SortDated(withDate: seq<Task>) returns (sorted: seq<Task>)
    ensures sorted == StableSort(withDate)
    ensures Ascending(sorted) && multiset(sorted) == multiset(withDate)
    ensures forall k: nat :: OnDay(sorted, k) == OnDay(withDate, k)
  {
    sorted := [];
    for i := 0 to |withDate|
      invariant sorted == StableSort(withDate[..i])
    {
      assert withDate[..i + 1][..i] == withDate[..i];
      sorted := Insert(sorted, withDate[i]);
    }
    assert withDate[..|withDate|] == withDate;
    StableSortCorrect(withDate);
  }

  /**
    * The first half of sortTasksByDate: the items with a parsable date, sorted
    * stably by day, followed by the items with an empty date text.
    */
  method SortedOrder(tasks: seq<Task>) returns (combined: seq<Task>)
    ensures combined == SortByDate(tasks)
    ensures forall t :: t in combined ==> t in tasks
  {
    var withDate, withoutDate := SplitByDate(tasks);
    var sorted := SortDated(withDate);
    combined := sorted + withoutDate;
    SortByDateSubset(tasks);
  }

  /**
    * sortTasksByDate: computes the new order, empties `#taskList` and appends the
    * items in that order.
    */
  method SortTasksByDate(page: Page)
    requires page.Valid()
    modifies page
    ensures page.Valid()
    ensures page.tasks == SortByDate(old(page.tasks))
    ensures page.bin == old(page.bin) && page.storage == old(page.storage)
    ensures page.activeButton == old(page.activeButton) && page.deleteAllTriggered == old(page.deleteAllTriggered)
  {
    var combined := SortedOrder(page.tasks);
    MarkersKept(page.tasks, combined);
    AppendAll(page, combined);
  }

  /** Empties `#taskList` and appends `items` one after another. */
  method AppendAll(page: Page, items: seq<Task>)
    requires StorageShaped(page.storage)
    requires forall j :: 0 <= j < |items| ==> MarkersExclusive(items[j])
    modifies page
    ensures page.Valid()
    ensures page.tasks == items
    ensures page.bin == old(page.bin) && page.storage == old(page.storage)
    ensures page.activeButton == old(page.activeButton) && page.deleteAllTriggered == old(page.deleteAllTriggered)
  {
    page.tasks := [];
    for i := 0 to |items|
      invariant page.tasks == items[..i]
      invariant page.bin == old(page.bin) && page.storage == old(page.storage)
      invariant page.activeButton == old(page.activeButton) && page.deleteAllTriggered == old(page.deleteAllTriggered)
    {
      page.tasks := page.tasks + [items[i]];
    }
  }

  /** Items drawn from a list whose items never carry both status classes carry at most one. */
  lemma MarkersKept(ts: seq<Task>, r: seq<Task>)
    requires forall i :: 0 <= i < |ts| ==> MarkersExclusive(ts[i])
    requires forall t :: t in r ==> t in ts
    ensures forall j :: 0 <= j < |r| ==> MarkersExclusive(r[j])
  {
    forall j | 0 <= j < |r| ensures MarkersExclusive(r[j]) {
      assert r[j] in r;
      var i :| 0 <= i < |ts| && ts[i] == r[j];
    }
  }
}
