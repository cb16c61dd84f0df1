/**
  * The order sortTasksByDate (Assets/JS/utils.js, Scripts/JS/script.js) gives the
  * task list: the tasks whose due text parses to a day, stably sorted by day
  * (Array.prototype.sort is stable), then the tasks with an empty due text in
  * their old order. A task whose due text is non-empty but unparsable passes
  * neither filter and is left out.
  */
module SortPolicy {
  import opened DateStatus
  import opened Model

  predicate HasDate(t: Task) { t.due.Day? }
  predicate HasNoDate(t: Task) { t.due.NoDate? }
  predicate HasBadDate(t: Task) { t.due.Unparsable? }

  /** The groups the sort tells apart: the three kinds of due text, and the tasks due on one day. */
  datatype Group = Dated | Undated | BadDate | DueOn(day: nat)

  predicate InGroup(t: Task, g: Group) {
    match g
    case Dated => HasDate(t)
    case Undated => HasNoDate(t)
    case BadDate => HasBadDate(t)
    case DueOn(k) => t.due == Day(k)
  }

  /** Array.prototype.filter with the test of group `g`. */
  function Select(s: seq<Task>, g: Group): (r: seq<Task>)
    ensures |r| <= |s|
  {
    if s == [] then [] else (if InGroup(s[0], g) then [s[0]] else []) + Select(s[1..], g)
  }

  /** What the filter keeps are tasks of the list that belong to the group. */
  lemma {:induction false} SelectMembers(s: seq<Task>, g: Group)
    ensures forall x :: x in Select(s, g) ==> x in s && InGroup(x, g)
  {
    if s != [] {
      SelectMembers(s[1..], g);
    }
  }

  lemma {:induction false} SelectConcat(a: seq<Task>, b: seq<Task>, g: Group)
    ensures Select(a + b, g) == Select(a, g) + Select(b, g)
  {
    if a != [] {
      var h := if InGroup(a[0], g) then [a[0]] else [];
      calc {
        Select(a + b, g);
        { assert (a + b)[0] == a[0] && (a + b)[1..] == a[1..] + b; }
        h + Select(a[1..] + b, g);
        { SelectConcat(a[1..], b, g); }
        h + (Select(a[1..], g) + Select(b, g));
        (h + Select(a[1..], g)) + Select(b, g);
      }
    } else {
      assert a + b == b;
    }
  }

  lemma {:induction false} SelectAll(s: seq<Task>, g: Group)
    requires forall x :: x in s ==> InGroup(x, g)
    ensures Select(s, g) == s
  {
    if s != [] {
      assert s[0] in s;
      SelectAll(s[1..], g);
    }
  }

  lemma {:induction false} SelectNone(s: seq<Task>, g: Group)
    requires forall x :: x in s ==> !InGroup(x, g)
    ensures Select(s, g) == []
  {
    if s != [] {
      assert s[0] in s;
      SelectNone(s[1..], g);
    }
  }

  /** `tasksWithDate`: a non-empty due text that parses. */
  function WithDate(s: seq<Task>): seq<Task> { Select(s, Dated) }

  /** `tasksWithoutDate`: an empty due text. */
  function WithoutDate(s: seq<Task>): seq<Task> { Select(s, Undated) }

  /** The tasks neither filter keeps. */
  function WithBadDate(s: seq<Task>): seq<Task> { Select(s, BadDate) }

  /** The tasks due on day `k`, in order: what a stable sort must not reorder. */
  function OnDay(s: seq<Task>, k: nat): seq<Task> {
    Select(s, DueOn(k))
  }

  /** Every task falls in exactly one of the three groups. */
  lemma {:induction false} GroupsPartition(s: seq<Task>)
    ensures multiset(s) == multiset(WithDate(s)) + multiset(WithoutDate(s)) + multiset(WithBadDate(s))
    ensures |s| == |WithDate(s)| + |WithoutDate(s)| + |WithBadDate(s)|
  {
    if s != [] {
      var t, tl := s[0], s[1..];
      GroupsPartition(tl);
      var d, u, x := WithDate(tl), WithoutDate(tl), WithBadDate(tl);
      assert multiset(s) == multiset{t} + multiset(tl) by { assert s == [t] + tl; }
      var rest := multiset(d) + multiset(u) + multiset(x);
      if HasDate(t) {
        assert WithDate(s) == [t] + d && WithoutDate(s) == u && WithBadDate(s) == x;
        assert multiset([t] + d) == multiset{t} + multiset(d);
        assert multiset(WithDate(s)) + multiset(WithoutDate(s)) + multiset(WithBadDate(s)) == multiset{t} + rest;
      } else if HasNoDate(t) {
        assert WithDate(s) == d && WithoutDate(s) == [t] + u && WithBadDate(s) == x;
        assert multiset([t] + u) == multiset{t} + multiset(u);
        assert multiset(WithDate(s)) + multiset(WithoutDate(s)) + multiset(WithBadDate(s)) == multiset{t} + rest;
      } else {
        assert WithDate(s) == d && WithoutDate(s) == u && WithBadDate(s) == [t] + x;
        assert multiset([t] + x) == multiset{t} + multiset(x);
        assert multiset(WithDate(s)) + multiset(WithoutDate(s)) + multiset(WithBadDate(s)) == multiset{t} + rest;
      }
    }
  }

  /** The day a dated task is compared by (`dateA - dateB`). */
  function Key(t: Task): nat {
    if t.due.Day? then t.due.day else 0
  }

  predicate Ascending(s: seq<Task>) {
    forall i, j :: 0 <= i < j < |s| ==> Key(s[i]) <= Key(s[j])
  }

  predicate AllDated(s: seq<Task>) {
    forall t :: t in s ==> HasDate(t)
  }

  /** One step of a stable insertion sort: `x` goes after every element whose day is not later. */
  function Insert(s: seq<Task>, x: Task): (r: seq<Task>)
    ensures |r| == |s| + 1
    ensures multiset(r) == multiset(s) + multiset{x}
  {
    if s == [] || Key(s[|s| - 1]) <= Key(x) then s + [x]
    else
      assert s == s[..|s| - 1] + [s[|s| - 1]];
      Insert(s[..|s| - 1], x) + [s[|s| - 1]]
  }

  lemma {:induction false} InsertAscending(s: seq<Task>, x: Task)
    requires Ascending(s)
    ensures Ascending(Insert(s, x))
  {
    if s != [] && Key(s[|s| - 1]) > Key(x) {
      var init, last := s[..|s| - 1], s[|s| - 1];
      InsertAscending(init, x);
      var r := Insert(init, x);
      forall y | y in r ensures Key(y) <= Key(last) {
        assert y in multiset(r);
        if y != x {
          assert y in multiset(init);
          var i :| 0 <= i < |init| && init[i] == y;
          assert s[i] == y;
        }
      }
      assert forall i :: 0 <= i < |r| ==> r[i] in r;
    }
  }

  lemma {:induction false} InsertOnDay(s: seq<Task>, x: Task, k: nat)
    ensures OnDay(Insert(s, x), k) == OnDay(s, k) + OnDay([x], k)
  {
    var p := DueOn(k);
    if s == [] || Key(s[|s| - 1]) <= Key(x) {
      SelectConcat(s, [x], p);
    } else {
      var init, last := s[..|s| - 1], s[|s| - 1];
      InsertOnDay(init, x, k);
      SelectConcat(Insert(init, x), [last], p);
      SelectConcat(init, [last], p);
      assert s == init + [last];
      assert !(InGroup(x, p) && InGroup(last, p));
      assert OnDay([x], k) + OnDay([last], k) == OnDay([last], k) + OnDay([x], k);
    }
  }

  /** `tasksWithDate.sort(...)`, stable, as a left-to-right insertion sort. */
  function StableSort(s: seq<Task>): (r: seq<Task>)
    ensures |r| == |s| && multiset(r) == multiset(s)
  {
    if s == [] then []
    else
      assert s == s[..|s| - 1] + [s[|s| - 1]];
      Insert(StableSort(s[..|s| - 1]), s[|s| - 1])
  }

  /** The sort is ascending by day and keeps the relative order of tasks due the same day. */
  lemma {:induction false} StableSortCorrect(s: seq<Task>)
    ensures Ascending(StableSort(s))
    ensures forall k: nat :: OnDay(StableSort(s), k) == OnDay(s, k)
  {
    if s != [] {
      var init, last := s[..|s| - 1], s[|s| - 1];
      StableSortCorrect(init);
      InsertAscending(StableSort(init), last);
      forall k: nat ensures OnDay(StableSort(s), k) == OnDay(s, k) {
        InsertOnDay(StableSort(init), last, k);
        assert s == init + [last];
        SelectConcat(init, [last], DueOn(k));
      }
    }
  }

  lemma OnDayCons(s: seq<Task>, k: nat)
    requires s != []
    ensures OnDay(s, k) == (if s[0].due == Day(k) then [s[0]] else []) + OnDay(s[1..], k)
  {
  }

  /** The first task of an ascending list is due no later than any of its tasks. */
  lemma AscendingHeadLeast(a: seq<Task>, t: Task)
    requires Ascending(a) && t in a
    ensures Key(a[0]) <= Key(t)
  {
    var i :| 0 <= i < |a| && a[i] == t;
  }

  /** If some task of `a` is due on day `k`, the first task of an ascending `a` is due no later. */
  lemma HeadNotLater(a: seq<Task>, k: nat)
    requires Ascending(a) && OnDay(a, k) != []
    ensures a != [] && Key(a[0]) <= k
  {
    var x := OnDay(a, k)[0];
    assert x in OnDay(a, k);
    SelectMembers(a, DueOn(k));
    AscendingHeadLeast(a, x);
  }

  /** Two ascending dated lists that agree day by day start with the same task. */
  lemma {:induction false} SameHead(a: seq<Task>, b: seq<Task>)
    requires AllDated(a) && AllDated(b) && Ascending(a) && Ascending(b) && a != [] && b != []
    requires forall k: nat :: OnDay(a, k) == OnDay(b, k)
    ensures a[0] == b[0]
    ensures forall k: nat :: OnDay(a[1..], k) == OnDay(b[1..], k)
  {
    assert a[0] in a && b[0] in b;
    var ka, kb := Key(a[0]), Key(b[0]);
    OnDayCons(a, ka);
    OnDayCons(b, kb);
    HeadNotLater(a, kb);
    HeadNotLater(b, ka);
    assert ka == kb;
    assert a[0].due == Day(ka) && b[0].due == Day(ka);
    OnDayCons(b, ka);
    assert OnDay(a, ka)[0] == a[0] && OnDay(b, ka)[0] == b[0];
    forall k: nat ensures OnDay(a[1..], k) == OnDay(b[1..], k) {
      OnDayCons(a, k);
      OnDayCons(b, k);
      var h := if a[0].due == Day(k) then [a[0]] else [];
      assert OnDay(a[1..], k) == OnDay(a, k)[|h|..];
      assert OnDay(b[1..], k) == OnDay(b, k)[|h|..];
    }
  }

  /** Dropping the first task of an ascending list of dated tasks leaves one. */
  lemma SortedTail(a: seq<Task>)
    requires a != [] && AllDated(a) && Ascending(a)
    ensures AllDated(a[1..]) && Ascending(a[1..])
  {
    assert forall t :: t in a[1..] ==> t in a;
    assert forall i, j :: 0 <= i < j < |a| - 1 ==> a[1..][i] == a[i + 1] && a[1..][j] == a[j + 1];
  }

  /**
    * An ascending list of dated tasks is determined by which tasks are due on each
    * day and in which order: any two such lists that agree day by day are equal.
    */
  lemma {:induction false} AscendingUnique(a: seq<Task>, b: seq<Task>)
    requires AllDated(a) && AllDated(b) && Ascending(a) && Ascending(b)
    requires forall k: nat :: OnDay(a, k) == OnDay(b, k)
    ensures a == b
    decreases |a|
  {
    if a == [] && b != [] {
      assert b[0] in b;
      OnDayCons(b, Key(b[0]));
      assert false;
    } else if a != [] && b == [] {
      assert a[0] in a;
      OnDayCons(a, Key(a[0]));
      assert false;
    } else if a != [] {
      SameHead(a, b);
      SortedTail(a);
      SortedTail(b);
      AscendingUnique(a[1..], b[1..]);
      assert a == [a[0]] + a[1..] && b == [b[0]] + b[1..];
    }
  }

  /** sortTasksByDate: `[...tasksWithDate, ...tasksWithoutDate]` with the dated part sorted. */
  function SortByDate(s: seq<Task>): seq<Task> {
    StableSort(WithDate(s)) + WithoutDate(s)
  }

  lemma {:induction false} OnDayWithDate(s: seq<Task>, k: nat)
    ensures OnDay(WithDate(s), k) == OnDay(s, k)
  {
    if s != [] {
      OnDayWithDate(s[1..], k);
      OnDayCons(s, k);
      if HasDate(s[0]) {
        assert WithDate(s) == [s[0]] + WithDate(s[1..]);
        OnDayCons(WithDate(s), k);
      } else {
        assert WithDate(s) == WithDate(s[1..]);
      }
    }
  }

  /** The sort holds exactly the tasks it was given. */
  lemma StableSortMembers(s: seq<Task>)
    ensures forall t :: t in StableSort(s) <==> t in s
  {
    var r := StableSort(s);
    forall t ensures t in r <==> t in s {
      calc {
        t in r;
        t in multiset(r);
        t in multiset(s);
        t in s;
      }
    }
  }

  lemma StableSortAllDated(s: seq<Task>)
    ensures AllDated(StableSort(WithDate(s)))
  {
    SelectMembers(s, Dated);
    StableSortMembers(WithDate(s));
  }

  /** In the sorted list every dated task comes before every undated one, and no unparsable one is left. */
  lemma SortByDateOrder(s: seq<Task>)
    ensures var r := SortByDate(s);
      (forall i, j :: 0 <= i < |r| && 0 <= j < |r| && HasDate(r[i]) && HasNoDate(r[j]) ==> i < j)
      && (forall t :: t in r ==> !HasBadDate(t))
  {
    var sorted, rest := StableSort(WithDate(s)), WithoutDate(s);
    var r := sorted + rest;
    StableSortAllDated(s);
    SelectMembers(s, Undated);
    assert forall i :: 0 <= i < |sorted| ==> r[i] == sorted[i] && sorted[i] in sorted;
    assert forall i :: |sorted| <= i < |r| ==> r[i] == rest[i - |sorted|] && rest[i - |sorted|] in rest;
  }

  /** The dated part of the sorted list is the sorted dated part; the undated part is as it was. */
  lemma SortByDateGroups(s: seq<Task>)
    ensures WithDate(SortByDate(s)) == StableSort(WithDate(s))
    ensures WithoutDate(SortByDate(s)) == WithoutDate(s)
  {
    var sorted, rest := StableSort(WithDate(s)), WithoutDate(s);
    StableSortAllDated(s);
    SelectMembers(s, Undated);
    SelectConcat(sorted, rest, Dated);
    SelectConcat(sorted, rest, Undated);
    SelectAll(sorted, Dated);
    SelectNone(rest, Dated);
    SelectNone(sorted, Undated);
    SelectAll(rest, Undated);
  }

  /** Tasks due on the same day keep their relative order. */
  lemma SortByDateOnDay(s: seq<Task>, k: nat)
    ensures OnDay(SortByDate(s), k) == OnDay(s, k)
  {
    var sorted, rest := StableSort(WithDate(s)), WithoutDate(s);
    StableSortCorrect(WithDate(s));
    SelectConcat(sorted, rest, DueOn(k));
    SelectMembers(s, Undated);
    SelectNone(rest, DueOn(k));
    OnDayWithDate(s, k);
  }

  /** Only the tasks with an unparsable due text are lost. */
  lemma SortByDateMultiset(s: seq<Task>)
    ensures multiset(SortByDate(s)) + multiset(WithBadDate(s)) == multiset(s)
  {
    GroupsPartition(s);
  }

  /**
    * The sorted list: every dated task before every undated one, no task with an
    * unparsable date, the dated tasks ascending by day with equal days in their
    * old order, the undated tasks in their old order, and no other task lost.
    */
  lemma SortByDateCorrect(s: seq<Task>)
    ensures var r := SortByDate(s);
      (forall i, j :: 0 <= i < |r| && 0 <= j < |r| && HasDate(r[i]) && HasNoDate(r[j]) ==> i < j)
      && (forall t :: t in r ==> !HasBadDate(t))
      && WithDate(r) == StableSort(WithDate(s)) && Ascending(WithDate(r))
      && (forall k: nat :: OnDay(r, k) == OnDay(s, k))
      && WithoutDate(r) == WithoutDate(s)
      && multiset(r) + multiset(WithBadDate(s)) == multiset(s)
  {
    SortByDateOrder(s);
    SortByDateGroups(s);
    StableSortCorrect(WithDate(s));
    forall k: nat ensures OnDay(SortByDate(s), k) == OnDay(s, k) {
      SortByDateOnDay(s, k);
    }
    SortByDateMultiset(s);
  }

  /** A list split by the sort's own rule is its dated part followed by its undated part. */
  lemma {:induction false} SplitOrdered(r: seq<Task>)
    requires forall t :: t in r ==> !HasBadDate(t)
    requires forall i, j :: 0 <= i < |r| && 0 <= j < |r| && HasDate(r[i]) && HasNoDate(r[j]) ==> i < j
    ensures r == WithDate(r) + WithoutDate(r)
  {
    if r != [] {
      assert r[0] in r;
      if HasDate(r[0]) {
        assert forall t :: t in r[1..] ==> t in r;
        SplitOrdered(r[1..]);
      } else {
        forall t | t in r ensures HasNoDate(t) {
          var j :| 0 <= j < |r| && r[j] == t;
          assert !HasBadDate(t);
        }
        SelectNone(r, Dated);
        SelectAll(r, Undated);
      }
    }
  }

  /**
    * The properties of SortByDateCorrect determine the sorted list: any list that
    * has them is SortByDate(s).
    */
  lemma {:induction false} SortByDateUnique(s: seq<Task>, r: seq<Task>)
    requires forall i, j :: 0 <= i < |r| && 0 <= j < |r| && HasDate(r[i]) && HasNoDate(r[j]) ==> i < j
    requires forall t :: t in r ==> !HasBadDate(t)
    requires Ascending(WithDate(r))
    requires forall k: nat :: OnDay(r, k) == OnDay(s, k)
    requires WithoutDate(r) == WithoutDate(s)
    ensures r == SortByDate(s)
  {
    SplitOrdered(r);
    StableSortCorrect(WithDate(s));
    StableSortAllDated(s);
    SelectMembers(r, Dated);
    forall k: nat ensures OnDay(WithDate(r), k) == OnDay(StableSort(WithDate(s)), k) {
      OnDayWithDate(r, k);
      OnDayWithDate(s, k);
    }
    AscendingUnique(WithDate(r), StableSort(WithDate(s)));
  }

  lemma AbsorbsOnDay(a: seq<Task>, b: seq<Task>, k: nat)
    ensures OnDay(StableSort(WithDate(SortByDate(a) + b)), k) == OnDay(StableSort(WithDate(a + b)), k)
  {
    var sa := SortByDate(a);
    var p := DueOn(k);
    StableSortCorrect(WithDate(sa + b));
    StableSortCorrect(WithDate(a + b));
    OnDayWithDate(sa + b, k);
    OnDayWithDate(a + b, k);
    SelectConcat(sa, b, p);
    SelectConcat(a, b, p);
    SortByDateOnDay(a, k);
  }

  /**
    * Sorting, appending, and sorting again is sorting once: what restoreTask and
    * restoreAllTasks rely on when they re-sort after every append.
    */
  lemma {:induction false} SortByDateAbsorbs(a: seq<Task>, b: seq<Task>)
    ensures SortByDate(SortByDate(a) + b) == SortByDate(a + b)
  {
    var sa := SortByDate(a);
    SortByDateGroups(a);
    StableSortCorrect(WithDate(sa + b));
    StableSortCorrect(WithDate(a + b));
    StableSortAllDated(sa + b);
    StableSortAllDated(a + b);
    SelectConcat(sa, b, Undated);
    SelectConcat(a, b, Undated);
    forall k: nat ensures OnDay(StableSort(WithDate(sa + b)), k) == OnDay(StableSort(WithDate(a + b)), k) {
      AbsorbsOnDay(a, b, k);
    }
    AscendingUnique(StableSort(WithDate(sa + b)), StableSort(WithDate(a + b)));
  }

  /** Sorting an already sorted list leaves it unchanged. */
  lemma SortByDateIdempotent(s: seq<Task>)
    ensures SortByDate(SortByDate(s)) == SortByDate(s)
  {
    SortByDateAbsorbs(s, []);
    assert SortByDate(s) + [] == SortByDate(s);
    assert s + [] == s;
  }

  /** With no unparsable due text the sort is a permutation. */
  lemma SortByDatePermutes(s: seq<Task>)
    requires forall t :: t in s ==> !HasBadDate(t)
    ensures multiset(SortByDate(s)) == multiset(s)
    ensures |SortByDate(s)| == |s|
  {
    SortByDateCorrect(s);
    SelectNone(s, BadDate);
  }

  /** A task whose due text does not parse is not in the sorted list. */
  lemma SortByDateDropsBadDates(s: seq<Task>, t: Task)
    requires t in s && HasBadDate(t)
    ensures t !in SortByDate(s)
  {
    SortByDateCorrect(s);
  }

  /** The sorted list holds nothing the list did not hold. */
  lemma SortByDateSubset(s: seq<Task>)
    ensures forall t :: t in SortByDate(s) ==> t in s
  {
    StableSortMembers(WithDate(s));
    SelectMembers(s, Dated);
    SelectMembers(s, Undated);
  }
}
