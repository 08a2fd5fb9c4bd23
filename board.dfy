/** `renderTasks`, `updateProgressBar` and `updateQuickStats`: what the
    dashboard shows for the full task list and the filtered one. Header and
    tab counts, the progress percentage and the quick statistics come from
    the full list; the three columns show the filtered list. */
module Board {
  import opened Basics
  import opened Tasks
  import opened Pipeline

  /** The class of a card's status checkbox: none, `in-progress`, `done`. */
  datatype CheckboxClass = Plain | HalfDone | Ticked

  /** One task card: the task it stands for, the `completed` style, the
      overdue badge and the checkbox class. */
  datatype Card = Card(taskId: int, completed: bool, overdue: bool, checkbox: CheckboxClass)

  /** A column body: the "No tasks" placeholder or a list of cards. */
  datatype Column = EmptyState | Cards(cards: seq<Card>)

  /** The numbers of `updateQuickStats`. */
  datatype QuickStats = QuickStats(
    todo: nat, inProgress: nat, open: nat, dueToday: nat,
    overdue: nat, completedToday: nat, workload: nat)

  /** Everything `renderTasks` writes into the page. */
  datatype View = View(
    todoCount: nat, inProgressCount: nat, doneCount: nat,
    todo: Column, inProgress: Column, done: Column,
    progress: int, stats: QuickStats)

  function CardOf(t: Task, today: Date): Card
  {
    Card(t.id, t.status == Done, IsOverdue(t, today),
         if t.status == InProgress then HalfDone else if t.status == Done then Ticked else Plain)
  }

  /** One column for the tasks of its status. */
  function ColumnOf(bucket: seq<Task>, today: Date): Column
  {
    if |bucket| == 0 then EmptyState
    else Cards(seq(|bucket|, i requires 0 <= i < |bucket| => CardOf(bucket[i], today)))
  }

  /** `Math.round(part / total * 100)`, 0 for an empty list, in exact
      integer arithmetic (halves round up, as `Math.round` does for
      non-negative numbers). */
  function RoundedPercent(part: nat, total: nat): (r: int)
    ensures total == 0 ==> r == 0
    ensures total > 0 ==> 2 * total * r <= 200 * part + total < 2 * total * (r + 1)
  {
    if total == 0 then 0 else (200 * part + total) / (2 * total)
  }

  /** The tasks that are not done. */
  function OpenTasks(s: seq<Task>): seq<Task>
  {
    Filter(s, (t: Task) => t.status != Done)
  }

  /** `updateProgressBar`: the share of done tasks in the full list. */
  function Progress(all: seq<Task>): int
  {
    RoundedPercent(|OfStatus(all, Done)|, |all|)
  }

  /** `updateQuickStats`. Its "due today" compares the whole date, and
      "completed today" looks at the day of the last update. */
  function QuickStatsOf(all: seq<Task>, today: Date): QuickStats
  {
    var open := |OpenTasks(all)|;
    var completedToday := |Filter(all, (t: Task) => t.status == Done && t.updated == Some(today))|;
    QuickStats(
      |OfStatus(all, Todo)|,
      |OfStatus(all, InProgress)|,
      open,
      |Filter(all, (t: Task) => t.due == Some(today) && t.status != Done)|,
      |OverdueTasks(all, today)|,
      completedToday,
      open + completedToday)
  }

  /** `renderTasks(shown)` with the full list `all` in the global `tasks`. */
  function Render(all: seq<Task>, shown: seq<Task>, today: Date): View
  {
    View(
      |OfStatus(all, Todo)|, |OfStatus(all, InProgress)|, |OfStatus(all, Done)|,
      ColumnOf(OfStatus(shown, Todo), today),
      ColumnOf(OfStatus(shown, InProgress), today),
      ColumnOf(OfStatus(shown, Done), today),
      Progress(all),
      QuickStatsOf(all, today))
  }

  // ---------------------------------------------------------------------
  // Buckets and counts

  /** The bucket of a list that starts with `h`. */
  lemma OfStatusCons(h: Task, tl: seq<Task>, st: Status)
    ensures OfStatus([h] + tl, st) == (if h.status == st then [h] else []) + OfStatus(tl, st)
  {
    assert ([h] + tl)[1..] == tl;
  }

  /** Every task lands in exactly one of the three status buckets. */
  lemma {:induction false} BucketsPartition(s: seq<Task>)
    ensures multiset(OfStatus(s, Todo)) + multiset(OfStatus(s, InProgress)) + multiset(OfStatus(s, Done))
      == multiset(s)
  {
    if s != [] {
      var h, tl := s[0], s[1..];
      BucketsPartition(tl);
      assert s == [h] + tl;
      OfStatusCons(h, tl, Todo);
      OfStatusCons(h, tl, InProgress);
      OfStatusCons(h, tl, Done);
    }
  }

  /** So the three bucket sizes add up to the length of the list. */
  lemma BucketSizes(s: seq<Task>)
    ensures |OfStatus(s, Todo)| + |OfStatus(s, InProgress)| + |OfStatus(s, Done)| == |s|
  {
    BucketsPartition(s);
    assert |multiset(OfStatus(s, Todo)) + multiset(OfStatus(s, InProgress)) + multiset(OfStatus(s, Done))|
      == |multiset(s)|;
  }

  /** The open tasks are the to-do ones and the ones in progress. */
  lemma {:induction false} OpenIsTodoAndInProgress(s: seq<Task>)
    ensures |OpenTasks(s)| == |OfStatus(s, Todo)| + |OfStatus(s, InProgress)|
  {
    if s != [] {
      OpenIsTodoAndInProgress(s[1..]);
    }
  }

  /** A column shows exactly its bucket: the placeholder when it is empty,
      otherwise one card per task, in the bucket's order. */
  predicate ShowsBucket(col: Column, bucket: seq<Task>)
  {
    (col.EmptyState? <==> bucket == []) &&
    (col.Cards? ==> |col.cards| == |bucket| && forall i :: 0 <= i < |bucket| ==> col.cards[i].taskId == bucket[i].id)
  }

  /** The column built for a bucket of tasks of one status shows that
      bucket, with the card style of that status. */
  lemma ColumnOfBucket(bucket: seq<Task>, st: Status, today: Date)
    requires forall t :: t in bucket ==> t.status == st
    ensures ShowsBucket(ColumnOf(bucket, today), bucket)
    ensures ColumnOf(bucket, today).Cards? ==> forall c :: c in ColumnOf(bucket, today).cards ==>
      c.completed == (st == Done) &&
      c.checkbox == (if st == InProgress then HalfDone else if st == Done then Ticked else Plain) &&
      (st == Done ==> !c.overdue)
  {
    var col := ColumnOf(bucket, today);
    if col.Cards? {
      forall c | c in col.cards
        ensures c.completed == (st == Done)
        ensures c.checkbox == (if st == InProgress then HalfDone else if st == Done then Ticked else Plain)
        ensures st == Done ==> !c.overdue
      {
        var i :| 0 <= i < |col.cards| && col.cards[i] == c;
        assert bucket[i] in bucket;
      }
    }
  }

  /** The header and tab counts come from the full list and add up to its
      length, whatever the filter shows; each column shows the filtered
      tasks of its status, in filtered order; only the done column has
      completed cards, and none of them carries the overdue badge. */
  lemma RenderShowsBuckets(all: seq<Task>, shown: seq<Task>, today: Date)
    ensures var v := Render(all, shown, today);
      v.todoCount + v.inProgressCount + v.doneCount == |all| &&
      v.todoCount == |OfStatus(all, Todo)| &&
      v.inProgressCount == |OfStatus(all, InProgress)| &&
      v.doneCount == |OfStatus(all, Done)| &&
      ShowsBucket(v.todo, OfStatus(shown, Todo)) &&
      ShowsBucket(v.inProgress, OfStatus(shown, InProgress)) &&
      ShowsBucket(v.done, OfStatus(shown, Done)) &&
      (v.todo.Cards? ==> forall c :: c in v.todo.cards ==> !c.completed && c.checkbox == Plain) &&
      (v.inProgress.Cards? ==> forall c :: c in v.inProgress.cards ==> !c.completed && c.checkbox == HalfDone) &&
      (v.done.Cards? ==> forall c :: c in v.done.cards ==> c.completed && !c.overdue && c.checkbox == Ticked)
  {
    BucketSizes(all);
    ColumnOfBucket(OfStatus(shown, Todo), Todo, today);
    ColumnOfBucket(OfStatus(shown, InProgress), InProgress, today);
    ColumnOfBucket(OfStatus(shown, Done), Done, today);
  }

  // ---------------------------------------------------------------------
  // Progress

  /** Multiplying by a non-negative number keeps the order. */
  lemma MulMono(a: int, b: int, c: int)
    requires a <= b && 0 <= c
    ensures a * c <= b * c
  {
  }

  /** The rounded percentage lies in 0..100: 0 when nothing is done and
      100 when everything is. */
  lemma RoundedPercentRange(part: nat, total: nat)
    requires part <= total
    ensures 0 <= RoundedPercent(part, total) <= 100
    ensures part == 0 ==> RoundedPercent(part, total) == 0
    ensures total > 0 && part == total ==> RoundedPercent(part, total) == 100
  {
    if total > 0 {
      var d := 2 * total;
      var r := RoundedPercent(part, total);
      assert d * r <= 200 * part + total < d * (r + 1);
      if r >= 101 {
        MulMono(101, r, d);
      }
      if r <= -1 {
        MulMono(r + 1, 0, d);
      }
      if part == 0 && r >= 1 {
        MulMono(1, r, d);
      }
      if part == total && r <= 99 {
        MulMono(r + 1, 100, d);
      }
    }
  }

  /** The progress of the full list: 0 for an empty list, 100 for an
      all-done list, and between the two otherwise. */
  lemma ProgressRange(all: seq<Task>)
    ensures 0 <= Progress(all) <= 100
    ensures all == [] ==> Progress(all) == 0
    ensures all != [] && (forall t :: t in all ==> t.status == Done) ==> Progress(all) == 100
    ensures (forall t :: t in all ==> t.status != Done) ==> Progress(all) == 0
  {
    var done := OfStatus(all, Done);
    RoundedPercentRange(|done|, |all|);
    if forall t :: t in all ==> t.status == Done {
      FilterKeepsAll(all, (t: Task) => t.status == Done);
    }
    if forall t :: t in all ==> t.status != Done {
      FilterKeepsNone(all, (t: Task) => t.status == Done);
    }
  }

  // ---------------------------------------------------------------------
  // Quick statistics

  /** The quick statistics are consistent: open tasks are the to-do and
      in-progress ones; due-today and overdue tasks are open ones; the
      overdue number is what the `overdue` filter keeps; tasks completed
      today are done ones; the workload never exceeds the list. */
  lemma QuickStatsConsistent(all: seq<Task>, today: Date)
    ensures var q := QuickStatsOf(all, today);
      q.open == q.todo + q.inProgress &&
      q.dueToday <= q.open &&
      q.overdue <= q.open &&
      q.overdue == |ApplyFilter(all, OverdueOnly, today)| &&
      q.completedToday <= |OfStatus(all, Done)| &&
      q.workload <= |all|
  {
    OpenIsTodoAndInProgress(all);
    BucketSizes(all);
    OverdueFilterAgrees(all, today);
    FilterCountMono(all, (t: Task) => t.due == Some(today) && t.status != Done, (t: Task) => t.status != Done);
    FilterCountMono(all, (t: Task) => IsOverdue(t, today), (t: Task) => t.status != Done);
    FilterCountMono(all, (t: Task) => t.status == Done && t.updated == Some(today), (t: Task) => t.status == Done);
  }

  /** The `due_today` filter and the "due today" statistic disagree on a
      task due on today's day and month of last year: the filter shows it,
      the statistic does not count it. */
  lemma DueTodayFilterDisagreesWithStat(t: Task, today: Date)
    requires ValidDate(today)
    requires t.status != Done
    requires t.due == Some(Date(today.year - 1, today.month, today.day))
    ensures ApplyFilter([t], DueToday, today) == [t]
    ensures QuickStatsOf([t], today).dueToday == 0
  {
    DueTodayIgnoresYear(t, today);
    assert [t][1..] == [];
  }
}
