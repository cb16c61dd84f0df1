/** filterTasks (Assets/JS/filters.js): the active filter button and the visibility of every item. */
module Filters {
  import opened Wrappers
  import opened DateStatus
  import opened Model

  /** The filter names that have a button: the button of `name` has the id `name + "Filter"`. */
  const FilterNames: set<string> := {"all", "completed", "pending", "dueToday", "overdue"}

  /** The ids of the five filter buttons of the page. */
  const FilterButtons: set<string> := {"allFilter", "completedFilter", "pendingFilter", "dueTodayFilter", "overdueFilter"}

  /** The id `${filter}Filter` that filterTasks looks up: a button exists exactly for the five filter names. */
  function ButtonId(filter: string): (id: string)
    ensures id in FilterButtons <==> filter in FilterNames
  {
    ButtonIdIff(filter);
    filter + "Filter"
  }

  /** The five filter names, and only they, lead to an existing button. */
  lemma ButtonIdIff(filter: string)
    ensures filter + "Filter" in FilterButtons <==> filter in FilterNames
  {
    var id := filter + "Filter";
    assert "all" + "Filter" == "allFilter" && "completed" + "Filter" == "completedFilter";
    assert "pending" + "Filter" == "pendingFilter" && "dueToday" + "Filter" == "dueTodayFilter";
    assert "overdue" + "Filter" == "overdueFilter";
    if id !in FilterButtons { }
    else if id == "allFilter" { SameBeforeSuffix(filter, "all", "Filter"); }
    else if id == "completedFilter" { SameBeforeSuffix(filter, "completed", "Filter"); }
    else if id == "pendingFilter" { SameBeforeSuffix(filter, "pending", "Filter"); }
    else if id == "dueTodayFilter" { SameBeforeSuffix(filter, "dueToday", "Filter"); }
    else { SameBeforeSuffix(filter, "overdue", "Filter"); }
  }

  /** No button id is itself a filter name. */
  lemma ButtonIdsAreNoNames()
    ensures forall id :: id in FilterButtons ==> id !in FilterNames
  {
  }

  lemma SameBeforeSuffix(a: string, b: string, suffix: string)
    requires a + suffix == b + suffix
    ensures a == b
  {
    assert |a| == |b|;
    assert a == (a + suffix)[..|a|];
    assert b == (b + suffix)[..|b|];
  }

  /**
    * Whether an item stays displayed under `filter`: only completed items under
    * "completed", only pending ones under "pending", only items due today under
    * "dueToday", only overdue items under "overdue", and every item under "all" or
    * any name the chain does not test. The date is read back from the item's
    * `.due-date` span with the "Due: " prefix stripped.
    */
  function Visible(t: Task, filter: string, today: nat): (v: bool)
    ensures filter == "completed" ==> (v <==> t.completed)
    ensures filter == "pending" ==> (v <==> !t.completed)
    ensures filter == "dueToday" ==> (v <==> t.due == Day(today))
    ensures filter == "overdue" ==> (v <==> t.due.Day? && t.due.day < today)
    ensures filter !in FilterNames - {"all"} ==> v
  {
    var dueDate := DueDateText(t.due);
    DueDateTextRoundTrip(t.due);
    if filter == "completed" && !t.completed then false
    else if filter == "pending" && t.completed then false
    else if filter == "dueToday" && CheckTaskStatus(DueOfText(dueDate), today) != Today then false
    else if filter == "overdue" && CheckTaskStatus(DueOfText(dueDate), today) != Overdue then false
    else true
  }

  /** Every item is displayed under exactly one of "completed" and "pending". */
  lemma CompletedXorPending(t: Task, today: nat)
    ensures Visible(t, "completed", today) != Visible(t, "pending", today)
  {
  }

  /** An item without a usable due date is hidden by both date filters. */
  lemma UndatedHiddenByDateFilters(t: Task, today: nat)
    requires !t.due.Day?
    ensures !Visible(t, "dueToday", today) && !Visible(t, "overdue", today)
  {
  }

  /** The items after filtering: the same items in the same order, each displayed iff visible. */
  function ApplyFilter(ts: seq<Task>, filter: string, today: nat): (r: seq<Task>)
    ensures |r| == |ts|
    ensures forall i :: 0 <= i < |ts| ==>
      r[i].text == ts[i].text && r[i].completed == ts[i].completed && r[i].due == ts[i].due
      && r[i].overdue == ts[i].overdue && r[i].dueToday == ts[i].dueToday
      && r[i].shown == Visible(ts[i], filter, today)
  {
    seq(|ts|, i requires 0 <= i < |ts| => ts[i].(shown := Visible(ts[i], filter, today)))
  }

  /**
    * filterTasks: the "active-filter" class moves to the button of `filter` if there
    * is one (and stays where it was otherwise); then every item is shown or hidden.
    */
  method FilterTasks(page: Page, filter: string, today: nat)
    requires page.Valid()
    modifies page
    ensures page.Valid()
    ensures page.activeButton == if ButtonId(filter) in FilterButtons then Some(ButtonId(filter)) else old(page.activeButton)
    ensures page.tasks == ApplyFilter(old(page.tasks), filter, today)
    ensures page.bin == old(page.bin) && page.storage == old(page.storage) && page.deleteAllTriggered == old(page.deleteAllTriggered)
  {
    if ButtonId(filter) in FilterButtons {
      page.activeButton := Some(ButtonId(filter));
    }
    ghost var before := page.tasks;
    for i := 0 to |page.tasks|
      invariant |page.tasks| == |before|
      invariant forall k :: 0 <= k < i ==> page.tasks[k] == before[k].(shown := Visible(before[k], filter, today))
      invariant forall k :: i <= k < |before| ==> page.tasks[k] == before[k]
      invariant page.activeButton == (if ButtonId(filter) in FilterButtons then Some(ButtonId(filter)) else old(page.activeButton))
      invariant page.bin == old(page.bin) && page.storage == old(page.storage) && page.deleteAllTriggered == old(page.deleteAllTriggered)
    {
      var li := page.tasks[i];
      page.tasks := page.tasks[i := li.(shown := Visible(li, filter, today))];
    }
    assert page.tasks == ApplyFilter(before, filter, today);
    assert forall t :: t in page.tasks ==> exists k :: 0 <= k < |before| && t == page.tasks[k];
    assert forall k :: 0 <= k < |before| ==> before[k] in before;
  }
}
