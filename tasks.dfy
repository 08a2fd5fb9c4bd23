/** The task record the dashboard holds in memory, the calendar days it is
    compared on, and the two per-task rules: "overdue" and the status cycle
    of the checkbox. */
module Tasks {
  import opened Basics

  datatype Status = Todo | InProgress | Done

  datatype Priority = High | Medium | Low

  /** A calendar day (month 1..12, day of month 1..31), as a date input
      yields it and as the browser's local "today" is. */
  datatype Date = Date(year: int, month: int, day: int)

  predicate ValidDate(d: Date)
  {
    1 <= d.month <= 12 && 1 <= d.day <= 31
  }

  /** Position of a day on a time line with 31-day months: it orders valid
      days as the calendar does, which is all a comparison needs. */
  function Ordinal(d: Date): int
  {
    d.year * 372 + (d.month - 1) * 31 + (d.day - 1)
  }

  /** `d1 < d2` on the time line. */
  predicate Before(d1: Date, d2: Date)
  {
    Ordinal(d1) < Ordinal(d2)
  }

  /** On valid days `Before` is the calendar order: year first, then month,
      then day of month. */
  lemma BeforeIsCalendarOrder(d1: Date, d2: Date)
    requires ValidDate(d1) && ValidDate(d2)
    ensures Before(d1, d2) <==>
      d1.year < d2.year ||
      (d1.year == d2.year && (d1.month < d2.month || (d1.month == d2.month && d1.day < d2.day)))
  {
    var inYear1 := (d1.month - 1) * 31 + (d1.day - 1);
    var inYear2 := (d2.month - 1) * 31 + (d2.day - 1);
    assert 0 <= inYear1 < 372 && 0 <= inYear2 < 372;
    if d1.year < d2.year {
      assert d1.year * 372 + 372 <= d2.year * 372;
    } else if d1.year > d2.year {
      assert d2.year * 372 + 372 <= d1.year * 372;
    }
  }

  /** One task as the `/api/tasks` listing returns it. An empty `due_date`,
      `description` or `tags` string is falsy in the client and is `None`
      here; `updated` is the calendar day of `updated_at`. */
  datatype Task = Task(
    id: int,
    title: string,
    description: Option<string>,
    status: Status,
    priority: Priority,
    due: Option<Date>,
    tags: Option<string>,
    created: int,
    updated: Option<Date>)

  /** `isOverdue(task)`: a task that is not done and whose due day lies
      before today's midnight. */
  predicate IsOverdue(t: Task, today: Date)
  {
    if t.due.None? then false
    else if t.status == Done then false
    else Before(t.due.value, today)
  }

  /** The status the checkbox of `toggleTaskStatus` asks for next. */
  function NextStatus(s: Status): Status
  {
    if s == Todo then InProgress
    else if s == InProgress then Done
    else Todo
  }

  /** The status after `n` clicks on the checkbox. */
  function Toggled(s: Status, n: nat): Status
  {
    if n == 0 then s else NextStatus(Toggled(s, n - 1))
  }

  /** The checkbox never leaves a status as it is. */
  lemma NextStatusMoves(s: Status)
    ensures NextStatus(s) != s
  {
  }

  /** The checkbox cycle has period three: todo -> in_progress -> done ->
      todo, so only the number of clicks modulo three matters. */
  lemma {:induction false} ToggledCycle(s: Status, n: nat)
    ensures Toggled(s, n) == Toggled(s, n % 3)
  {
    if n >= 3 {
      ToggledCycle(s, n - 3);
      assert (n - 3) % 3 == n % 3;
      assert Toggled(s, n - 1) == NextStatus(NextStatus(Toggled(s, n - 3)));
    }
  }

  /** Starting anywhere, three clicks visit every status once. */
  lemma ToggledVisitsAll(s: Status, target: Status)
    ensures exists n :: 0 <= n < 3 && Toggled(s, n) == target
  {
    if Toggled(s, 0) == target {
    } else if Toggled(s, 1) == target {
    } else {
      assert Toggled(s, 2) == target;
    }
  }
}
