/** `applyFilters`: the list of cards the dashboard shows, derived from the
    full task list in four steps — the mobile status tab, the filter
    `<select>`, the sort `<select>` and the search box. */
module Pipeline {
  import opened Basics
  import opened Text
  import opened Tasks

  /** Value of the filter `<select>`; `ShowAll` stands for `all` and for
      every value the `switch` does not name. */
  datatype FilterValue = HighPriority | OverdueOnly | DueToday | ShowAll

  /** Value of the sort `<select>`; `Unlisted` is any value the comparator's
      `switch` does not name, for which it returns `undefined`. */
  datatype SortValue = ByDueDate | ByPriority | ByCreatedAt | Unlisted

  /** What `applyFilters` reads from the page: the two selects, the search
      box, `window.innerWidth`, and the browser's current day. */
  datatype Controls = Controls(filter: FilterValue, sort: SortValue, query: string, width: int, today: Date)

  /** Viewports narrower than this show the status tabs. */
  const MobileBreakpoint: int := 768

  /** The tasks of one status, in their order. */
  function OfStatus(s: seq<Task>, st: Status): seq<Task>
  {
    Filter(s, (t: Task) => t.status == st)
  }

  /** Step 1: an active status tab narrows the list on a narrow viewport. */
  function TabRestrict(s: seq<Task>, tab: Option<Status>, width: int): seq<Task>
  {
    if width < MobileBreakpoint && tab.Some? then OfStatus(s, tab.value) else s
  }

  /** The filter `<select>`'s predicate on one task. `due_today` compares
      the day of the month and the month only. */
  predicate Keeps(f: FilterValue, today: Date, t: Task)
  {
    match f
    case HighPriority => t.priority == High
    case OverdueOnly => if t.due.None? then false else Before(t.due.value, today) && t.status != Done
    case DueToday =>
      if t.due.None? then false
      else t.due.value.day == today.day && t.due.value.month == today.month && t.status != Done
    case ShowAll => true
  }

  /** Step 2. */
  function ApplyFilter(s: seq<Task>, f: FilterValue, today: Date): seq<Task>
  {
    Filter(s, (t: Task) => Keeps(f, today, t))
  }

  /** The tasks `isOverdue` flags, in their order. */
  function OverdueTasks(s: seq<Task>, today: Date): seq<Task>
  {
    Filter(s, (t: Task) => IsOverdue(t, today))
  }

  /** `priorityOrder`: high before medium before low. */
  function PriorityRank(p: Priority): int
  {
    match p
    case High => 1
    case Medium => 2
    case Low => 3
  }

  /** The comparator handed to `sort`, up to its sign (the source subtracts
      millisecond times; only the sign reaches `sort`). A missing due date
      makes the source's difference `NaN`, which `sort` reads as 0; an
      unlisted sort value returns `undefined`, also read as 0. */
  function Compare(sv: SortValue, today: Date, a: Task, b: Task): int
  {
    match sv
    case ByDueDate =>
      if a.due.Some? && b.due.Some? then Ordinal(a.due.value) - Ordinal(b.due.value) else 0
    case ByPriority =>
      if PriorityRank(a.priority) == PriorityRank(b.priority) then
        (if IsOverdue(a, today) then -1 else 1)
      else PriorityRank(a.priority) - PriorityRank(b.priority)
    case ByCreatedAt => b.created - a.created
    case Unlisted => 0
  }

  /** Inserts `x` into `s` the way an insertion sort does: it moves left
      past every element the comparator puts after it. */
  function Insert(sv: SortValue, today: Date, s: seq<Task>, x: Task): seq<Task>
    decreases |s|
  {
    if s == [] then [x]
    else if Compare(sv, today, s[|s| - 1], x) > 0 then
      Insert(sv, today, s[..|s| - 1], x) + [s[|s| - 1]]
    else s + [x]
  }

  /** Step 3: insertion sort with the comparator. `Array.prototype.sort`
      leaves its algorithm to the engine; this is one concrete choice. */
  function SortTasks(sv: SortValue, today: Date, s: seq<Task>): seq<Task>
    decreases |s|
  {
    if s == [] then []
    else Insert(sv, today, SortTasks(sv, today, s[..|s| - 1]), s[|s| - 1])
  }

  /** Whether a task passes the search: its lower-cased title or its
      lower-cased tags contain the (lower-cased) query. */
  predicate Matches(t: Task, q: string)
  {
    Contains(Lower(t.title), q) || (t.tags.Some? && Contains(Lower(t.tags.value), q))
  }

  /** Step 4; an empty query is falsy and skips the step. */
  function Search(s: seq<Task>, q: string): seq<Task>
  {
    if q == [] then s else Filter(s, (t: Task) => Matches(t, q))
  }

  /** What `applyFilters` hands to `renderTasks`. */
  function Displayed(tasks: seq<Task>, tab: Option<Status>, c: Controls): seq<Task>
  {
    Search(SortTasks(c.sort, c.today, ApplyFilter(TabRestrict(tasks, tab, c.width), c.filter, c.today)),
           Lower(c.query))
  }

  /** The sort step on the array copy, in place. */
  method SortInPlace(a: array<Task>, sv: SortValue, today: Date)
    modifies a
    ensures a[..] == SortTasks(sv, today, old(a[..]))
  {
    ghost var input := a[..];
    var i := 0;
    while i < a.Length
      invariant 0 <= i <= a.Length
      invariant a[..i] == SortTasks(sv, today, input[..i])
      invariant a[i..] == input[i..]
    {
      assert a[i] == input[i] && a[i + 1..] == input[i + 1..] by {
        assert a[i..][0] == a[i] && a[i..][1..] == a[i + 1..];
        assert input[i..][0] == input[i] && input[i..][1..] == input[i + 1..];
      }
      InsertInPlace(a, i, sv, today);
      assert input[..i + 1][..i] == input[..i];
      assert input[..i + 1] == input[..i] + [input[i]];
      i := i + 1;
    }
    assert input[..a.Length] == input;
  }

  /** One pass of the insertion sort: `a[i]` moves left into the sorted
      prefix `a[..i]`. */
  method InsertInPlace(a: array<Task>, i: int, sv: SortValue, today: Date)
    requires 0 <= i < a.Length
    modifies a
    ensures a[..i + 1] == Insert(sv, today, old(a[..i]), old(a[i]))
    ensures a[i + 1..] == old(a[i + 1..])
  {
    var key := a[i];
    ghost var sorted := a[..i];
    var j := ShiftLarger(a, i, key, sv, today, sorted);
    InsertAt(sv, today, sorted, key, j);
    a[j] := key;
    assert a[..i + 1] == sorted[..j] + [key] + sorted[j..];
  }

  /** The shifting loop of one pass: every element of the sorted prefix
      that the comparator puts after `key` moves one place right, opening
      a hole at the returned index `j`. */
  method ShiftLarger(a: array<Task>, i: int, key: Task, sv: SortValue, today: Date, ghost sorted: seq<Task>)
    returns (j: int)
    requires 0 <= i < a.Length && |sorted| == i
    requires forall k :: 0 <= k < i ==> a[k] == sorted[k]
    modifies a
    ensures 0 <= j <= i
    ensures forall k :: 0 <= k < j ==> a[k] == sorted[k]
    ensures forall k :: j < k <= i ==> a[k] == sorted[k - 1]
    ensures forall k :: i < k < a.Length ==> a[k] == old(a[k])
    ensures forall k :: j <= k < i ==> Compare(sv, today, sorted[k], key) > 0
    ensures j == 0 || Compare(sv, today, sorted[j - 1], key) <= 0
  {
    j := i;
    while j > 0 && Compare(sv, today, a[j - 1], key) > 0
      invariant 0 <= j <= i
      invariant forall k :: 0 <= k < j ==> a[k] == sorted[k]
      invariant forall k :: j < k <= i ==> a[k] == sorted[k - 1]
      invariant forall k :: i < k < a.Length ==> a[k] == old(a[k])
      invariant forall k :: j <= k < i ==> Compare(sv, today, sorted[k], key) > 0
    {
      a[j] := a[j - 1];
      j := j - 1;
    }
  }

  /** Where the insertion puts `x`: after the longest suffix of `s` that
      the comparator puts after `x`. */
  lemma {:induction false} InsertAt(sv: SortValue, today: Date, s: seq<Task>, x: Task, j: int)
    requires 0 <= j <= |s|
    requires forall k :: j <= k < |s| ==> Compare(sv, today, s[k], x) > 0
    requires j == 0 || Compare(sv, today, s[j - 1], x) <= 0
    ensures Insert(sv, today, s, x) == s[..j] + [x] + s[j..]
    decreases |s|
  {
    if j < |s| {
      var init := s[..|s| - 1];
      InsertAt(sv, today, init, x, j);
      assert init[..j] == s[..j] && init[j..] + [s[|s| - 1]] == s[j..];
    }
  }

  // ---------------------------------------------------------------------
  // The filter step

  /** The `overdue` filter and `isOverdue` agree on every task, so the
      filter keeps exactly the tasks that carry the overdue badge. */
  lemma OverdueFilterAgrees(s: seq<Task>, today: Date)
    ensures ApplyFilter(s, OverdueOnly, today) == OverdueTasks(s, today)
    ensures forall t :: t in ApplyFilter(s, OverdueOnly, today) <==>
      t in s && t.due.Some? && t.status != Done && Before(t.due.value, today)
  {
    FilterAgree(s, (t: Task) => Keeps(OverdueOnly, today, t), (t: Task) => IsOverdue(t, today));
  }

  /** `high_priority` keeps exactly the high-priority tasks. */
  lemma HighPriorityKeepsHigh(s: seq<Task>, today: Date)
    ensures forall t :: t in ApplyFilter(s, HighPriority, today) <==> t in s && t.priority == High
  {
  }

  /** Any other filter value keeps every task, in order. */
  lemma ShowAllKeepsAll(s: seq<Task>, today: Date)
    ensures ApplyFilter(s, ShowAll, today) == s
  {
    FilterKeepsAll(s, (t: Task) => Keeps(ShowAll, today, t));
  }

  /** `due_today` keeps exactly the open, dated tasks of the list whose
      day and month are today's; it never keeps an undated or a done task. */
  lemma DueTodayKeepsOpenDated(s: seq<Task>, today: Date)
    ensures forall t :: t in ApplyFilter(s, DueToday, today) <==>
      t in s && t.due.Some? && t.status != Done &&
      t.due.value.day == today.day && t.due.value.month == today.month
  {
  }

  /** `due_today` ignores the year: an open task due on today's day and
      month of an earlier year is kept, although it is also overdue. */
  lemma DueTodayIgnoresYear(t: Task, today: Date)
    requires ValidDate(today)
    requires t.status != Done
    requires t.due == Some(Date(today.year - 1, today.month, today.day))
    ensures Keeps(DueToday, today, t)
    ensures IsOverdue(t, today)
  {
    BeforeIsCalendarOrder(t.due.value, today);
  }

  // ---------------------------------------------------------------------
  // The comparator

  /** The priority comparator puts `a` first exactly when its rank is
      smaller, or when the ranks tie and `a` is overdue; it never answers
      "equal". */
  lemma PriorityCompareSign(today: Date, a: Task, b: Task)
    ensures Compare(ByPriority, today, a, b) != 0
    ensures Compare(ByPriority, today, a, b) < 0 <==>
      PriorityRank(a.priority) < PriorityRank(b.priority) ||
      (PriorityRank(a.priority) == PriorityRank(b.priority) && IsOverdue(a, today))
  {
  }

  /** The priority comparator is not antisymmetric: two overdue tasks of one
      rank each claim to come first, so the engine's order between them is
      not determined by the comparator. */
  lemma PriorityCompareNotAntisymmetric(today: Date, a: Task, b: Task)
    requires a.priority == b.priority
    requires IsOverdue(a, today) && IsOverdue(b, today)
    ensures Compare(ByPriority, today, a, b) < 0 && Compare(ByPriority, today, b, a) < 0
  {
  }

  // ---------------------------------------------------------------------
  // The sort

  /** The key the insertion sort orders by: priority rank with overdue tasks
      first inside a rank; newest first by creation time; due day. */
  function SortRank(sv: SortValue, today: Date, t: Task): int
  {
    match sv
    case ByDueDate => if t.due.Some? then Ordinal(t.due.value) else 0
    case ByPriority => 2 * PriorityRank(t.priority) + (if IsOverdue(t, today) then 0 else 1)
    case ByCreatedAt => -t.created
    case Unlisted => 0
  }

  predicate SortedBy(sv: SortValue, today: Date, s: seq<Task>)
  {
    forall i, j :: 0 <= i < j < |s| ==> SortRank(sv, today, s[i]) <= SortRank(sv, today, s[j])
  }

  /** The comparator's verdict on `y` before `x` agrees with `SortRank`. */
  predicate Coherent(sv: SortValue, today: Date, y: Task, x: Task)
  {
    (Compare(sv, today, y, x) > 0 ==> SortRank(sv, today, y) >= SortRank(sv, today, x)) &&
    (Compare(sv, today, y, x) <= 0 ==> SortRank(sv, today, y) <= SortRank(sv, today, x))
  }

  /** Sorting by due date is only meaningful when every task has one. */
  predicate Comparable(sv: SortValue, s: seq<Task>)
  {
    sv == ByDueDate ==> forall t :: t in s ==> t.due.Some?
  }

  lemma CompareCoherent(sv: SortValue, today: Date, y: Task, x: Task)
    requires sv == ByDueDate ==> y.due.Some? && x.due.Some?
    ensures Coherent(sv, today, y, x)
  {
  }

  lemma {:induction false} InsertPermutes(sv: SortValue, today: Date, s: seq<Task>, x: Task)
    ensures multiset(Insert(sv, today, s, x)) == multiset(s) + multiset{x}
    ensures |Insert(sv, today, s, x)| == |s| + 1
    decreases |s|
  {
    if s != [] {
      assert s == s[..|s| - 1] + [s[|s| - 1]];
      if Compare(sv, today, s[|s| - 1], x) > 0 {
        InsertPermutes(sv, today, s[..|s| - 1], x);
      }
    }
  }

  /** The sort only reorders: the same tasks, each as often. */
  lemma {:induction false} SortPermutes(sv: SortValue, today: Date, s: seq<Task>)
    ensures multiset(SortTasks(sv, today, s)) == multiset(s)
    ensures |SortTasks(sv, today, s)| == |s|
    decreases |s|
  {
    if s != [] {
      assert s == s[..|s| - 1] + [s[|s| - 1]];
      SortPermutes(sv, today, s[..|s| - 1]);
      InsertPermutes(sv, today, SortTasks(sv, today, s[..|s| - 1]), s[|s| - 1]);
    }
  }

  lemma SortedAppend(sv: SortValue, today: Date, s: seq<Task>, x: Task)
    requires SortedBy(sv, today, s)
    requires forall k :: 0 <= k < |s| ==> SortRank(sv, today, s[k]) <= SortRank(sv, today, x)
    ensures SortedBy(sv, today, s + [x])
  {
  }

  lemma {:induction false} InsertSorted(sv: SortValue, today: Date, s: seq<Task>, x: Task)
    requires SortedBy(sv, today, s)
    requires forall y :: y in s ==> Coherent(sv, today, y, x)
    ensures SortedBy(sv, today, Insert(sv, today, s, x))
    decreases |s|
  {
    if s != [] {
      var init, last := s[..|s| - 1], s[|s| - 1];
      assert last in s;
      if Compare(sv, today, last, x) > 0 {
        var front := Insert(sv, today, init, x);
        assert forall y :: y in init ==> y in s;
        InsertSorted(sv, today, init, x);
        InsertPermutes(sv, today, init, x);
        forall k | 0 <= k < |front|
          ensures SortRank(sv, today, front[k]) <= SortRank(sv, today, last)
        {
          assert front[k] in multiset(init) + multiset{x};
          if front[k] != x {
            assert front[k] in init;
            var m :| 0 <= m < |init| && init[m] == front[k];
            assert s[m] == front[k];
          }
        }
        SortedAppend(sv, today, front, last);
      } else {
        SortedAppend(sv, today, s, x);
      }
    }
  }

  /** With a coherent comparator the insertion sort orders by `SortRank`. */
  lemma {:induction false} SortSorted(sv: SortValue, today: Date, s: seq<Task>)
    requires Comparable(sv, s)
    ensures SortedBy(sv, today, SortTasks(sv, today, s))
    decreases |s|
  {
    if s != [] {
      var init, last := s[..|s| - 1], s[|s| - 1];
      assert last in s;
      assert forall y :: y in init ==> y in s;
      SortSorted(sv, today, init);
      SortPermutes(sv, today, init);
      forall y | y in SortTasks(sv, today, init)
        ensures Coherent(sv, today, y, last)
      {
        assert y in multiset(init);
        CompareCoherent(sv, today, y, last);
      }
      InsertSorted(sv, today, SortTasks(sv, today, init), last);
    }
  }

  /** Sorting by priority: ranks never decrease, and inside one rank every
      overdue task comes before every task that is not overdue. */
  lemma PrioritySortOrder(today: Date, s: seq<Task>)
    ensures forall i, j :: 0 <= i < j < |SortTasks(ByPriority, today, s)| ==>
      var r := SortTasks(ByPriority, today, s);
      PriorityRank(r[i].priority) <= PriorityRank(r[j].priority) &&
      (PriorityRank(r[i].priority) == PriorityRank(r[j].priority) && IsOverdue(r[j], today) ==> IsOverdue(r[i], today))
  {
    SortSorted(ByPriority, today, s);
  }

  /** Sorting by creation time puts the newest task first. */
  lemma CreatedSortNewestFirst(today: Date, s: seq<Task>)
    ensures forall i, j :: 0 <= i < j < |SortTasks(ByCreatedAt, today, s)| ==>
      SortTasks(ByCreatedAt, today, s)[i].created >= SortTasks(ByCreatedAt, today, s)[j].created
  {
    SortSorted(ByCreatedAt, today, s);
  }

  /** Sorting tasks that all have a due date puts the earliest first. */
  lemma DueDateSortEarliestFirst(today: Date, s: seq<Task>)
    requires forall t :: t in s ==> t.due.Some?
    ensures forall i, j :: 0 <= i < j < |SortTasks(ByDueDate, today, s)| ==>
      var r := SortTasks(ByDueDate, today, s);
      r[i].due.Some? && r[j].due.Some? && Ordinal(r[i].due.value) <= Ordinal(r[j].due.value)
  {
    SortSorted(ByDueDate, today, s);
    SortPermutes(ByDueDate, today, s);
    var r := SortTasks(ByDueDate, today, s);
    forall k | 0 <= k < |r| ensures r[k].due.Some? {
      assert r[k] in multiset(s);
    }
  }

  /** An unlisted sort value compares everything as equal, and the
      insertion sort then leaves the order alone. */
  lemma {:induction false} UnlistedSortKeepsOrder(today: Date, s: seq<Task>)
    ensures SortTasks(Unlisted, today, s) == s
    decreases |s|
  {
    if s != [] {
      UnlistedSortKeepsOrder(today, s[..|s| - 1]);
      assert s == s[..|s| - 1] + [s[|s| - 1]];
    }
  }

  // ---------------------------------------------------------------------
  // The search and the whole pipeline

  /** The search only removes tasks; it keeps exactly the matching ones, and
      all of them when the query is empty. */
  lemma SearchKeepsMatches(s: seq<Task>, q: string)
    ensures multiset(Search(s, q)) <= multiset(s)
    ensures forall t :: t in Search(s, q) <==> t in s && (q == [] || Matches(t, q))
    ensures q == [] ==> Search(s, q) == s
  {
  }

  /** The sort keeps the same members. */
  lemma SortKeepsMembers(sv: SortValue, today: Date, s: seq<Task>)
    ensures forall t :: t in SortTasks(sv, today, s) <==> t in s
  {
    SortPermutes(sv, today, s);
    forall t ensures t in SortTasks(sv, today, s) <==> t in s {
      assert t in SortTasks(sv, today, s) <==> t in multiset(SortTasks(sv, today, s));
      assert t in s <==> t in multiset(s);
    }
  }

  /** A task is shown exactly when it is in the list, passes the status tab
      (on a narrow viewport), the filter and the search. Nothing is added
      and nothing duplicated. */
  lemma DisplayedExactly(tasks: seq<Task>, tab: Option<Status>, c: Controls)
    ensures multiset(Displayed(tasks, tab, c)) <= multiset(tasks)
    ensures forall t :: t in Displayed(tasks, tab, c) <==>
      t in tasks &&
      (c.width < MobileBreakpoint && tab.Some? ==> t.status == tab.value) &&
      Keeps(c.filter, c.today, t) &&
      (Lower(c.query) == [] || Matches(t, Lower(c.query)))
  {
    var narrowed := TabRestrict(tasks, tab, c.width);
    var filtered := ApplyFilter(narrowed, c.filter, c.today);
    SortPermutes(c.sort, c.today, filtered);
    SortKeepsMembers(c.sort, c.today, filtered);
    assert multiset(narrowed) <= multiset(tasks);
    assert forall t :: t in narrowed <==> t in tasks && (c.width < MobileBreakpoint && tab.Some? ==> t.status == tab.value);
  }

  /** On a narrow viewport with a status tab active, every shown task has
      the tab's status. */
  lemma TabShowsOnlyItsStatus(tasks: seq<Task>, st: Status, c: Controls)
    requires c.width < MobileBreakpoint
    ensures forall t :: t in Displayed(tasks, Some(st), c) ==> t.status == st
  {
    DisplayedExactly(tasks, Some(st), c);
  }
}
