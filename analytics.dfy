/** The dashboard metrics of `utils/analytics_utils.py`: each SQL query is a
    function of the `tasks` (and `users`) rows, the deployed schema variant
    and, where the query reads the clock, an explicit `now` instant. SQLite's
    `datetime()`, `DATE()` and `julianday()` are modelled as the same
    defensive parse as `_safe_dt` (`ParseTimestamp`). */
module Analytics {
  import opened Records
  import opened Calendar
  import opened Timestamps
  import opened Grouping

  // ----- the completion column -----

  datatype Column = CompletedAtColumn | DeadlineColumn

  /** `completed_at` when the table has that column, else `deadline` as a proxy. */
  function PickCompletionField(schema: Schema): (c: Column)
    ensures c == CompletedAtColumn <==> schema.hasCompletedAt
    ensures c == DeadlineColumn <==> !schema.hasCompletedAt
  {
    if schema.hasCompletedAt then CompletedAtColumn else DeadlineColumn
  }

  function ColumnValue(c: Column, t: Task): Option<string> {
    match c
    case CompletedAtColumn => t.completedAt
    case DeadlineColumn => t.deadline
  }

  /** The value of the picked completion column. */
  function Completion(schema: Schema, t: Task): Option<string> {
    ColumnValue(PickCompletionField(schema), t)
  }

  /** `created_at`, which only the extended schema has. */
  function CreatedAt(schema: Schema, t: Task): Option<string> {
    if schema.hasCreatedAt then t.createdAt else None
  }

  // ----- WHERE clauses -----

  /** The filters the queries use, as data so that they can be compared. */
  datatype Cond =
    | StatusEquals(status: string)
    | OpenWithDeadline
    | Overdue(now: int)
    | Upcoming(now: int, days: nat)
    | CompletedSince(schema: Schema, fromDay: int)
    | DoneWithSpan(schema: Schema)
    | DoneWithDeadline(schema: Schema)
    | OpenWithArea
    | WorkerIs(users: seq<User>, worker: Option<string>)

  /** SQLite `TRIM(x)`: strips the space character, and only that, from both ends. */
  function TrimSpaces(s: string): (r: string)
    ensures |r| <= |s|
    ensures r == "" <==> forall k :: 0 <= k < |s| ==> s[k] == ' '
    ensures r != "" ==> r[0] != ' ' && r[|r| - 1] != ' '
    ensures |s| > 0 && s[0] != ' ' && s[|s| - 1] != ' ' ==> r == s
  {
    if |s| == 0 then s
    else if s[0] == ' ' then TrimSpaces(s[1..])
    else if s[|s| - 1] == ' ' then TrimSpaces(s[..|s| - 1])
    else s
  }

  /** `TRIM(COALESCE(area, ''))`. */
  function AreaName(t: Task): string {
    TrimSpaces(if t.area.Some? then t.area.value else "")
  }

  /** `u.username` of the LEFT JOIN on `assigned_to` (NULL when unassigned
      or when no user has that id). */
  function WorkerKey(users: seq<User>, t: Task): Option<string> {
    if t.assignedTo.Some? then UsernameOf(users, t.assignedTo.value) else None
  }

  predicate Holds(c: Cond, t: Task) {
    match c
    case StatusEquals(s) => StatusIs(t, s)
    case OpenWithDeadline => StatusNotDone(t) && t.deadline.Some?
    case Overdue(now) =>
      // status != 'Done' AND deadline IS NOT NULL AND datetime(deadline) < datetime('now')
      var d := ParseTimestamp(t.deadline);
      StatusNotDone(t) && t.deadline.Some? && d.Some? && d.value < now
    case Upcoming(now, days) =>
      // ... AND datetime(deadline) BETWEEN datetime('now') AND datetime('now', '+N days')
      var d := ParseTimestamp(t.deadline);
      StatusNotDone(t) && t.deadline.Some? && d.Some? && now <= d.value <= now + days * SecondsPerDay
    case CompletedSince(schema, fromDay) =>
      // status='Done' AND c IS NOT NULL AND DATE(c) >= DATE('now', '-N days')
      var c := ParseTimestamp(Completion(schema, t));
      StatusIs(t, "Done") && Completion(schema, t).Some? && c.Some? && DayOf(c.value) >= fromDay
    case DoneWithSpan(schema) =>
      StatusIs(t, "Done") && CreatedAt(schema, t).Some? && Completion(schema, t).Some?
    case DoneWithDeadline(schema) =>
      StatusIs(t, "Done") && t.deadline.Some? && Completion(schema, t).Some?
    case OpenWithArea =>
      (StatusIs(t, "Pending") || StatusIs(t, "In Progress")) && AreaName(t) != ""
    case WorkerIs(users, worker) => WorkerKey(users, t) == worker
  }

  /** `SELECT * FROM tasks WHERE c`, in table order. */
  function Where(tasks: seq<Task>, c: Cond): (r: seq<Task>)
    ensures |r| <= |tasks|
    ensures forall t :: t in r <==> t in tasks && Holds(c, t)
  {
    if |tasks| == 0 then []
    else
      var init := tasks[..|tasks| - 1];
      var last := tasks[|tasks| - 1];
      assert tasks == init + [last];
      Where(init, c) + (if Holds(c, last) then [last] else [])
  }

  /** `SELECT COUNT(*) FROM tasks WHERE c`. */
  function Count(tasks: seq<Task>, c: Cond): (n: nat)
    ensures n <= |tasks|
  {
    |Where(tasks, c)|
  }

  /** Three-valued logic: on a NULL status every comparison with a status is
      unknown, so only the worker join can select such a row. */
  lemma NullStatusNeverSelected(c: Cond, t: Task)
    requires t.status.None? && !c.WorkerIs?
    ensures !Holds(c, t)
  {
  }

  /** A new row is selected exactly when it satisfies the condition. */
  lemma WhereAppend(tasks: seq<Task>, t: Task, c: Cond)
    ensures Where(tasks + [t], c) == Where(tasks, c) + (if Holds(c, t) then [t] else [])
  {
    assert (tasks + [t])[..|tasks|] == tasks;
  }

  /** A condition implied by another selects at least as many rows. */
  lemma {:induction false} CountMonotone(tasks: seq<Task>, a: Cond, b: Cond)
    requires forall t :: Holds(a, t) ==> Holds(b, t)
    ensures Count(tasks, a) <= Count(tasks, b)
  {
    if |tasks| > 0 {
      var init := tasks[..|tasks| - 1];
      assert tasks == init + [tasks[|tasks| - 1]];
      WhereAppend(init, tasks[|tasks| - 1], a);
      WhereAppend(init, tasks[|tasks| - 1], b);
      CountMonotone(init, a, b);
    }
  }

  /** Two disjoint conditions that both imply `c` select no more rows
      together than `c` does. */
  lemma {:induction false} CountDisjoint(tasks: seq<Task>, a: Cond, b: Cond, c: Cond)
    requires forall t :: Holds(a, t) ==> Holds(c, t) && !Holds(b, t)
    requires forall t :: Holds(b, t) ==> Holds(c, t)
    ensures Count(tasks, a) + Count(tasks, b) <= Count(tasks, c)
  {
    if |tasks| > 0 {
      var init := tasks[..|tasks| - 1];
      var last := tasks[|tasks| - 1];
      assert tasks == init + [last];
      WhereAppend(init, last, a);
      WhereAppend(init, last, b);
      WhereAppend(init, last, c);
      CountDisjoint(init, a, b, c);
    }
  }

  /** Every row selected by `a` is selected by `b` or by `c`. */
  lemma {:induction false} CountUnion(tasks: seq<Task>, a: Cond, b: Cond, c: Cond)
    requires forall t :: Holds(a, t) ==> Holds(b, t) || Holds(c, t)
    ensures Count(tasks, a) <= Count(tasks, b) + Count(tasks, c)
  {
    if |tasks| > 0 {
      var init := tasks[..|tasks| - 1];
      var last := tasks[|tasks| - 1];
      assert tasks == init + [last];
      WhereAppend(init, last, a);
      WhereAppend(init, last, b);
      WhereAppend(init, last, c);
      CountUnion(init, a, b, c);
    }
  }

  // ----- get_status_counts -----

  datatype StatusCounts = StatusCounts(pending: nat, inProgress: nat, done: nat)

  /** The three statuses the dashboard knows. */
  predicate Recognized(t: Task) {
    StatusIs(t, "Pending") || StatusIs(t, "In Progress") || StatusIs(t, "Done")
  }

  /** Three exact-match counts; all three are always present. */
  function GetStatusCounts(tasks: seq<Task>): (r: StatusCounts)
    ensures r.pending <= |tasks| && r.inProgress <= |tasks| && r.done <= |tasks|
  {
    StatusCounts(
      Count(tasks, StatusEquals("Pending")),
      Count(tasks, StatusEquals("In Progress")),
      Count(tasks, StatusEquals("Done")))
  }

  function Total(r: StatusCounts): nat {
    r.pending + r.inProgress + r.done
  }

  /** The counts never exceed the number of tasks, and reach it exactly
      when every task has one of the three statuses. */
  lemma {:induction false} StatusCountsTotal(tasks: seq<Task>)
    ensures Total(GetStatusCounts(tasks)) <= |tasks|
    ensures Total(GetStatusCounts(tasks)) == |tasks| <==> forall t :: t in tasks ==> Recognized(t)
  {
    if |tasks| > 0 {
      var init := tasks[..|tasks| - 1];
      var last := tasks[|tasks| - 1];
      assert tasks == init + [last];
      WhereAppend(init, last, StatusEquals("Pending"));
      WhereAppend(init, last, StatusEquals("In Progress"));
      WhereAppend(init, last, StatusEquals("Done"));
      StatusCountsTotal(init);
      assert forall t :: t in tasks <==> t in init || t == last;
      var step := if Recognized(last) then 1 else 0;
      assert Total(GetStatusCounts(tasks)) == Total(GetStatusCounts(init)) + step;
    }
  }

  /** A task whose status is none of the three (`'Deleted'`, anything else,
      or NULL) changes none of the counts. */
  lemma UnrecognizedNotCounted(tasks: seq<Task>, t: Task)
    requires !Recognized(t)
    ensures GetStatusCounts(tasks + [t]) == GetStatusCounts(tasks)
  {
    WhereAppend(tasks, t, StatusEquals("Pending"));
    WhereAppend(tasks, t, StatusEquals("In Progress"));
    WhereAppend(tasks, t, StatusEquals("Done"));
  }

  /** In particular a `'Deleted'` task is counted in none of them. */
  lemma DeletedNotCounted(tasks: seq<Task>, t: Task)
    requires t.status == Some("Deleted")
    ensures GetStatusCounts(tasks + [t]) == GetStatusCounts(tasks)
  {
    UnrecognizedNotCounted(tasks, t);
  }

  // ----- get_overdue_count, get_upcoming_count -----

  /** Open tasks whose deadline has passed. */
  function GetOverdueCount(tasks: seq<Task>, now: int): (n: nat)
    ensures n <= Count(tasks, OpenWithDeadline)
  {
    CountMonotone(tasks, Overdue(now), OpenWithDeadline);
    Count(tasks, Overdue(now))
  }

  /** Open tasks due between now and `days` days from now, both ends included. */
  function GetUpcomingCount(tasks: seq<Task>, now: int, days: nat): (n: nat)
    ensures n <= Count(tasks, OpenWithDeadline)
  {
    CountMonotone(tasks, Upcoming(now, days), OpenWithDeadline);
    Count(tasks, Upcoming(now, days))
  }

  /** No task is both overdue and upcoming, so the two counts together
      never exceed the open tasks that have a deadline. */
  lemma OverdueUpcomingDisjoint(tasks: seq<Task>, now: int, days: nat)
    ensures GetOverdueCount(tasks, now) + GetUpcomingCount(tasks, now, days) <= Count(tasks, OpenWithDeadline)
  {
    CountDisjoint(tasks, Overdue(now), Upcoming(now, days), OpenWithDeadline);
  }

  /** A `'Done'` task, a task with NULL status, or one without a deadline
      changes neither counter. */
  lemma DeadlineCountersIgnore(tasks: seq<Task>, t: Task, now: int, days: nat)
    requires !StatusNotDone(t) || t.deadline.None?
    ensures GetOverdueCount(tasks + [t], now) == GetOverdueCount(tasks, now)
    ensures GetUpcomingCount(tasks + [t], now, days) == GetUpcomingCount(tasks, now, days)
  {
    WhereAppend(tasks, t, Overdue(now));
    WhereAppend(tasks, t, Upcoming(now, days));
  }

  /** A Pending task due one day before `now` is overdue; the same task
      marked Done is not. */
  lemma OverdueExample(due: DateTime, t: Task)
    requires ValidDateTime(due)
    requires t.deadline == Some(FormatDateTime(due)) && t.status == Some("Pending")
    ensures GetOverdueCount([t], ToInstant(due) + SecondsPerDay) == 1
    ensures GetOverdueCount([t.(status := Some("Done"))], ToInstant(due) + SecondsPerDay) == 0
  {
    FormatDateTimeRoundTrip(due);
    WhereAppend([], t, Overdue(ToInstant(due) + SecondsPerDay));
    WhereAppend([], t.(status := Some("Done")), Overdue(ToInstant(due) + SecondsPerDay));
  }

  // ----- get_task_throughput -----

  /** `DATE(c)` as a day ordinal; 0 for a value SQLite cannot read, which
      the throughput filter never lets through. */
  function CompletionDay(schema: Schema, t: Task): int {
    var c := ParseTimestamp(Completion(schema, t));
    if c.Some? then DayOf(c.value) else 0
  }

  function CompletionDays(schema: Schema, rows: seq<Task>): (r: seq<int>)
    ensures |r| == |rows| && forall i :: 0 <= i < |rows| ==> r[i] == CompletionDay(schema, rows[i])
  {
    seq(|rows|, i requires 0 <= i < |rows| => CompletionDay(schema, rows[i]))
  }

  /** The condition of the throughput query for a window of `days` days
      ending today. */
  function ThroughputCond(schema: Schema, now: int, days: nat): Cond {
    CompletedSince(schema, DayOf(now) - days)
  }

  /** Done tasks per completion day over the window, ascending by day;
      days are day ordinals (`DATE()` text formatting is left out). */
  function GetTaskThroughput(schema: Schema, tasks: seq<Task>, now: int, days: nat): seq<(int, nat)> {
    GroupAndSort(CompletionDays(schema, Where(tasks, ThroughputCond(schema, now, days))), ByKeyAscending)
  }

  /** The series is sparse and ascending: strictly increasing days, and
      the counts add up to the number of tasks the query selects. */
  lemma ThroughputOrder(schema: Schema, tasks: seq<Task>, now: int, days: nat)
    ensures var r := GetTaskThroughput(schema, tasks, now, days);
      && (forall i, j :: 0 <= i < j < |r| ==> r[i].0 < r[j].0)
      && SumCounts(r) == Count(tasks, ThroughputCond(schema, now, days))
  {
    var keys := CompletionDays(schema, Where(tasks, ThroughputCond(schema, now, days)));
    GroupAndSortTotals(keys, ByKeyAscending);
    AscendingKeys(keys);
  }

  /** Each day lies in the window and its count, at least 1, is the number
      of selected tasks completed that day. */
  lemma ThroughputDay(schema: Schema, tasks: seq<Task>, now: int, days: nat, i: nat)
    requires i < |GetTaskThroughput(schema, tasks, now, days)|
    ensures var r := GetTaskThroughput(schema, tasks, now, days);
      && r[i].0 >= DayOf(now) - days && r[i].1 >= 1
      && r[i].1 == Occurrences(CompletionDays(schema, Where(tasks, ThroughputCond(schema, now, days))), r[i].0)
  {
    var c := ThroughputCond(schema, now, days);
    var rows := Where(tasks, c);
    var keys := CompletionDays(schema, rows);
    var r := GroupAndSort(keys, ByKeyAscending);
    GroupAndSortCounts(keys, ByKeyAscending, i);
    var j :| 0 <= j < |keys| && keys[j] == r[i].0;
    assert Holds(c, rows[j]);
  }

  /** Only Done tasks whose completion value is present, readable and in
      the window are counted: any other task leaves the series unchanged. */
  lemma ThroughputIgnores(schema: Schema, tasks: seq<Task>, t: Task, now: int, days: nat)
    requires !Holds(ThroughputCond(schema, now, days), t)
    ensures GetTaskThroughput(schema, tasks + [t], now, days) == GetTaskThroughput(schema, tasks, now, days)
  {
    var c := ThroughputCond(schema, now, days);
    WhereAppend(tasks, t, c);
    assert Where(tasks + [t], c) == Where(tasks, c);
  }

  // ----- get_heatmap_data -----

  /** Python's `value or fallback` on a nullable label. */
  function Label(k: Option<string>, fallback: string): (s: string)
    ensures Truthy(k) ==> s == k.value
    ensures !Truthy(k) ==> s == fallback
  {
    if Truthy(k) then k.value else fallback
  }

  /** `[(r[key] or fallback, r['c']) for r in rows]`. */
  function Relabel(g: seq<(Option<string>, nat)>, fallback: string): (r: seq<(string, nat)>)
    ensures |r| == |g|
    ensures forall i :: 0 <= i < |g| ==> r[i] == (Label(g[i].0, fallback), g[i].1)
    ensures SumCounts(r) == SumCounts(g)
  {
    if |g| == 0 then []
    else
      var rest := Relabel(g[1..], fallback);
      SumCountsCons((Label(g[0].0, fallback), g[0].1), rest);
      [(Label(g[0].0, fallback), g[0].1)] + rest
  }

  function AreaKeys(tasks: seq<Task>): (r: seq<Option<string>>)
    ensures |r| == |tasks| && forall i :: 0 <= i < |tasks| ==> r[i] == tasks[i].area
  {
    seq(|tasks|, i requires 0 <= i < |tasks| => tasks[i].area)
  }

  function MachineKeys(tasks: seq<Task>): (r: seq<Option<string>>)
    ensures |r| == |tasks| && forall i :: 0 <= i < |tasks| ==> r[i] == tasks[i].machineId
  {
    seq(|tasks|, i requires 0 <= i < |tasks| => tasks[i].machineId)
  }

  datatype Heatmap = Heatmap(byArea: seq<(string, nat)>, byMachine: seq<(string, nat)>)

  /** Task counts per area and per machine over all tasks, most first; a NULL
      or empty label reads "Unspecified". NULL and `''` are separate groups. */
  function GetHeatmapData(tasks: seq<Task>): Heatmap {
    Heatmap(
      Relabel(GroupAndSort(AreaKeys(tasks), ByCount), "Unspecified"),
      Relabel(GroupAndSort(MachineKeys(tasks), ByCount), "Unspecified"))
  }

  /** Both lists cover every task whatever its status, most frequent first. */
  lemma HeatmapShape(tasks: seq<Task>)
    ensures var h := GetHeatmapData(tasks);
      && SumCounts(h.byArea) == |tasks| && SumCounts(h.byMachine) == |tasks|
      && NonIncreasing(h.byArea, ByCount) && NonIncreasing(h.byMachine, ByCount)
  {
    var h := GetHeatmapData(tasks);
    var ga := GroupAndSort(AreaKeys(tasks), ByCount);
    var gm := GroupAndSort(MachineKeys(tasks), ByCount);
    GroupAndSortTotals(AreaKeys(tasks), ByCount);
    GroupAndSortTotals(MachineKeys(tasks), ByCount);
    forall i, j | 0 <= i < j < |h.byArea| ensures h.byArea[i].1 >= h.byArea[j].1 {
      assert ByCount(ga[i]) >= ByCount(ga[j]);
    }
    forall i, j | 0 <= i < j < |h.byMachine| ensures h.byMachine[i].1 >= h.byMachine[j].1 {
      assert ByCount(gm[i]) >= ByCount(gm[j]);
    }
  }

  /** Every task shows up under its label, "Unspecified" when its area or
      machine is NULL or empty. */
  lemma HeatmapLabels(tasks: seq<Task>, i: nat)
    requires i < |tasks|
    ensures var h := GetHeatmapData(tasks);
      && (exists j :: 0 <= j < |h.byArea| && h.byArea[j].0 == Label(tasks[i].area, "Unspecified"))
      && (exists j :: 0 <= j < |h.byMachine| && h.byMachine[j].0 == Label(tasks[i].machineId, "Unspecified"))
  {
    var h := GetHeatmapData(tasks);
    assert AreaKeys(tasks)[i] == tasks[i].area;
    assert MachineKeys(tasks)[i] == tasks[i].machineId;
    GroupAndSortCovers(AreaKeys(tasks), ByCount, tasks[i].area);
    GroupAndSortCovers(MachineKeys(tasks), ByCount, tasks[i].machineId);
    var ga := GroupAndSort(AreaKeys(tasks), ByCount);
    var gm := GroupAndSort(MachineKeys(tasks), ByCount);
    var a :| 0 <= a < |ga| && ga[a].0 == tasks[i].area;
    var m :| 0 <= m < |gm| && gm[m].0 == tasks[i].machineId;
    assert h.byArea[a].0 == Label(tasks[i].area, "Unspecified");
    assert h.byMachine[m].0 == Label(tasks[i].machineId, "Unspecified");
  }

  /** Each row's count is the number of tasks whose area carries that row's label. */
  lemma HeatmapCounts(tasks: seq<Task>, j: nat)
    requires j < |GetHeatmapData(tasks).byArea|
    ensures var row := GetHeatmapData(tasks).byArea[j];
      exists k :: k in AreaKeys(tasks) && row.0 == Label(k, "Unspecified") && row.1 == Occurrences(AreaKeys(tasks), k)
  {
    GroupAndSortCounts(AreaKeys(tasks), ByCount, j);
    var k := GroupAndSort(AreaKeys(tasks), ByCount)[j].0;
    assert k in AreaKeys(tasks);
  }

  /** Grouping happens before relabelling, so a NULL area and an empty
      area give two separate "Unspecified" rows. */
  lemma HeatmapSplitsUnspecified(t: Task)
    ensures GetHeatmapData([t.(area := None), t.(area := Some(""))]).byArea
         == [("Unspecified", 1), ("Unspecified", 1)]
  {
    var tasks := [t.(area := None), t.(area := Some(""))];
    assert AreaKeys(tasks) == [None, Some("")];
    NullAndEmptyAreas(tasks);
  }

  lemma NullAndEmptyAreas(tasks: seq<Task>)
    requires AreaKeys(tasks) == [None, Some("")]
    ensures GetHeatmapData(tasks).byArea == [("Unspecified", 1), ("Unspecified", 1)]
  {
    NullAndEmptyGroups();
    NullAndEmptySorted();
    var sorted := GroupAndSort(AreaKeys(tasks), ByCount);
    assert sorted == [(Some(""), 1), (None, 1)];
    var r := Relabel(sorted, "Unspecified");
    assert r[0] == ("Unspecified", 1) && r[1] == ("Unspecified", 1);
  }

  lemma NullAndEmptyGroups()
    ensures GroupCount<Option<string>>([None, Some("")]) == [(None, 1), (Some(""), 1)]
  {
    var keys: seq<Option<string>> := [None, Some("")];
    assert keys[..1] == [None];
    assert GroupCount(keys[..1]) == [(None, 1)];
    assert Bump([(None, 1)], Some("")) == [(None, 1)] + Bump([], Some(""));
  }

  lemma NullAndEmptySorted()
    ensures SortDesc<Option<string>>([(None, 1), (Some(""), 1)], ByCount) == [(Some(""), 1), (None, 1)]
  {
    var g: seq<(Option<string>, nat)> := [(None, 1), (Some(""), 1)];
    assert g[1..] == [(Some(""), 1)];
    assert SortDesc(g[1..], ByCount) == [(Some(""), 1)];
  }

  // ----- get_leaderboard -----

  function WorkerKeys(users: seq<User>, rows: seq<Task>): (r: seq<Option<string>>)
    ensures |r| == |rows| && forall i :: 0 <= i < |rows| ==> r[i] == WorkerKey(users, rows[i])
  {
    seq(|rows|, i requires 0 <= i < |rows| => WorkerKey(users, rows[i]))
  }

  /** The leaderboard's WHERE clause: with `created_at`, Done tasks with both
      timestamps present; without it, every Done task. */
  function LeaderboardCond(schema: Schema): Cond {
    if schema.hasCreatedAt then DoneWithSpan(schema) else StatusEquals("Done")
  }

  /** Days from creation to completion, when both values can be read
      (`julianday(c) - julianday(created_at)`, or the `_safe_dt` difference
      divided by 86400). */
  function Span(schema: Schema, t: Task): Option<real> {
    SpanOf(ParseTimestamp(CreatedAt(schema, t)), ParseTimestamp(Completion(schema, t)))
  }

  /** The span between two parsed instants, when both are present. */
  function SpanOf(start: Option<int>, end: Option<int>): (r: Option<real>)
    ensures r.Some? <==> start.Some? && end.Some?
  {
    if start.Some? && end.Some? then Some(InDays(end.value - start.value)) else None
  }

  /** `total_seconds() / 86400.0`, without floating-point rounding. */
  function InDays(seconds: int): real {
    seconds as real / 86400.0
  }

  /** The spans of the rows that have one, in row order (SQL `AVG` skips NULLs). */
  function Spans(schema: Schema, rows: seq<Task>): (r: seq<real>)
    ensures |r| <= |rows|
  {
    if |rows| == 0 then []
    else
      var init := rows[..|rows| - 1];
      var last := rows[|rows| - 1];
      assert rows == init + [last];
      var sp := Span(schema, last);
      Spans(schema, init) + (if sp.Some? then [sp.value] else [])
  }

  /** Every averaged value is the span of one of the rows. */
  lemma {:induction false} SpansFrom(schema: Schema, rows: seq<Task>, x: real)
    requires x in Spans(schema, rows)
    ensures exists t :: t in rows && Span(schema, t) == Some(x)
  {
    var init := rows[..|rows| - 1];
    var last := rows[|rows| - 1];
    assert rows == init + [last];
    SpansAppend(schema, init, last);
    if x in Spans(schema, init) {
      SpansFrom(schema, init, x);
      var t :| t in init && Span(schema, t) == Some(x);
      assert t in rows;
    } else {
      var sp := Span(schema, last);
      assert sp == Some(x);
      assert last in rows;
    }
  }

  /** No value is averaged exactly when no row has a span. */
  lemma {:induction false} SpansEmpty(schema: Schema, rows: seq<Task>)
    ensures |Spans(schema, rows)| == 0 <==> forall i :: 0 <= i < |rows| ==> Span(schema, rows[i]).None?
  {
    if |rows| > 0 {
      var init := rows[..|rows| - 1];
      var last := rows[|rows| - 1];
      assert rows == init + [last];
      SpansAppend(schema, init, last);
      SpansEmpty(schema, init);
      assert forall i :: 0 <= i < |init| ==> init[i] == rows[i];
    }
  }

  lemma SpansAppend(schema: Schema, rows: seq<Task>, t: Task)
    ensures Spans(schema, rows + [t])
         == Spans(schema, rows) + (if Span(schema, t).Some? then [Span(schema, t).value] else [])
  {
    assert (rows + [t])[..|rows|] == rows;
  }

  /** One more row of the cycle-time loop. */
  lemma SpansStep(schema: Schema, rows: seq<Task>, i: nat, s: Option<int>, e: Option<int>)
    requires i < |rows|
    requires s == ParseTimestamp(CreatedAt(schema, rows[i])) && e == ParseTimestamp(Completion(schema, rows[i]))
    ensures Spans(schema, rows[..i + 1])
         == Spans(schema, rows[..i]) + (if s.Some? && e.Some? then [SpanOf(s, e).value] else [])
  {
    TakeOneMore(rows, i);
    SpansSnoc(schema, rows[..i], rows[i], s, e);
  }

  lemma TakeOneMore<T>(xs: seq<T>, i: nat)
    requires i < |xs|
    ensures xs[..i + 1] == xs[..i] + [xs[i]]
  {
  }

  lemma SpansSnoc(schema: Schema, rows: seq<Task>, t: Task, s: Option<int>, e: Option<int>)
    requires s == ParseTimestamp(CreatedAt(schema, t)) && e == ParseTimestamp(Completion(schema, t))
    ensures Spans(schema, rows + [t]) == Spans(schema, rows) + (if s.Some? && e.Some? then [SpanOf(s, e).value] else [])
  {
    SpanOfParsed(schema, t, s, e);
    SpansAppend(schema, rows, t);
  }

  lemma SpanOfParsed(schema: Schema, t: Task, s: Option<int>, e: Option<int>)
    requires s == ParseTimestamp(CreatedAt(schema, t)) && e == ParseTimestamp(Completion(schema, t))
    ensures Span(schema, t) == SpanOf(s, e)
  {
  }

  function Sum(xs: seq<real>): real {
    if |xs| == 0 then 0.0 else Sum(xs[..|xs| - 1]) + xs[|xs| - 1]
  }

  /** The mean, or 0.0 for no values (`AVG(...) or 0`, and the
      `if diffs else 0.0` of the cycle time). */
  function Mean(xs: seq<real>): real {
    if |xs| == 0 then 0.0 else Sum(xs) / |xs| as real
  }

  lemma {:induction false} SumWithin(xs: seq<real>, lo: real, hi: real)
    requires forall x :: x in xs ==> lo <= x <= hi
    ensures |xs| as real * lo <= Sum(xs) <= |xs| as real * hi
  {
    if |xs| > 0 {
      var init := xs[..|xs| - 1];
      assert forall x :: x in init ==> x in xs;
      assert xs[|xs| - 1] in xs;
      SumWithin(init, lo, hi);
    }
  }

  /** A mean lies between the smallest and largest value averaged. */
  lemma MeanWithin(xs: seq<real>, lo: real, hi: real)
    requires |xs| > 0 && forall x :: x in xs ==> lo <= x <= hi
    ensures lo <= Mean(xs) <= hi
  {
    SumWithin(xs, lo, hi);
    var n := |xs| as real;
    assert Sum(xs) / n >= lo by {
      assert Sum(xs) >= n * lo;
    }
    assert Sum(xs) / n <= hi by {
      assert Sum(xs) <= n * hi;
    }
  }

  datatype LeaderRow = LeaderRow(worker: string, tasksDone: nat, avgDays: real)

  /** The average span of one worker's selected rows; 0.0 without `created_at`. */
  function GroupAvg(schema: Schema, users: seq<User>, rows: seq<Task>, worker: Option<string>): real {
    if schema.hasCreatedAt then Mean(Spans(schema, Where(rows, WorkerIs(users, worker)))) else 0.0
  }

  function LeaderRows(schema: Schema, users: seq<User>, rows: seq<Task>, g: seq<(Option<string>, nat)>): (r: seq<LeaderRow>)
    ensures |r| == |g|
    ensures forall i :: 0 <= i < |g| ==>
      r[i] == LeaderRow(Label(g[i].0, "Unknown"), g[i].1, GroupAvg(schema, users, rows, g[i].0))
  {
    if |g| == 0 then []
    else [LeaderRow(Label(g[0].0, "Unknown"), g[0].1, GroupAvg(schema, users, rows, g[0].0))]
         + LeaderRows(schema, users, rows, g[1..])
  }

  /** Done tasks per assignee username, most first, at most `limit` rows
      (a negative limit means all). */
  function GetLeaderboard(schema: Schema, tasks: seq<Task>, users: seq<User>, limit: int): seq<LeaderRow> {
    var rows := Where(tasks, LeaderboardCond(schema));
    LeaderRows(schema, users, rows, Limit(GroupAndSort(WorkerKeys(users, rows), ByCount), limit))
  }

  /** At most `limit` rows, `tasks_done` non-increasing and positive, every
      name a username or "Unknown", and every average 0.0 without `created_at`. */
  lemma LeaderboardShape(schema: Schema, tasks: seq<Task>, users: seq<User>, limit: int)
    ensures var b := GetLeaderboard(schema, tasks, users, limit);
      && (limit >= 0 ==> |b| <= limit)
      && (forall i, j :: 0 <= i < j < |b| ==> b[i].tasksDone >= b[j].tasksDone)
      && (forall i :: 0 <= i < |b| ==> b[i].tasksDone >= 1)
      && (forall i :: 0 <= i < |b| ==> b[i].worker == "Unknown" || exists u :: u in users && u.username == b[i].worker)
      && (!schema.hasCreatedAt ==> forall i :: 0 <= i < |b| ==> b[i].avgDays == 0.0)
  {
    var rows := Where(tasks, LeaderboardCond(schema));
    var keys := WorkerKeys(users, rows);
    var s := GroupAndSort(keys, ByCount);
    var g := Limit(s, limit);
    var b := GetLeaderboard(schema, tasks, users, limit);
    LimitKeepsTop(s, limit, ByCount);
    forall i, j | 0 <= i < j < |b| ensures b[i].tasksDone >= b[j].tasksDone {
      assert ByCount(g[i]) >= ByCount(g[j]);
    }
    forall i | 0 <= i < |b|
      ensures b[i].tasksDone >= 1
      ensures b[i].worker == "Unknown" || exists u :: u in users && u.username == b[i].worker
    {
      LeaderboardEntry(schema, tasks, users, limit, i);
    }
  }

  lemma LeaderboardEntry(schema: Schema, tasks: seq<Task>, users: seq<User>, limit: int, i: nat)
    requires i < |GetLeaderboard(schema, tasks, users, limit)|
    ensures var b := GetLeaderboard(schema, tasks, users, limit);
      && b[i].tasksDone >= 1
      && (b[i].worker == "Unknown" || exists u :: u in users && u.username == b[i].worker)
  {
    var rows := Where(tasks, LeaderboardCond(schema));
    var keys := WorkerKeys(users, rows);
    var s := GroupAndSort(keys, ByCount);
    var g := Limit(s, limit);
    assert g[i] == s[i];
    GroupAndSortCounts(keys, ByCount, i);
    var j :| 0 <= j < |keys| && keys[j] == g[i].0;
    assert keys[j] == WorkerKey(users, rows[j]);
  }

  /** Each row reports a worker key: its label, its number of selected Done
      tasks, and the average span of exactly those tasks. */
  lemma LeaderboardRow(schema: Schema, tasks: seq<Task>, users: seq<User>, limit: int, i: nat)
    requires i < |GetLeaderboard(schema, tasks, users, limit)|
    ensures var b := GetLeaderboard(schema, tasks, users, limit)[i];
      var rows := Where(tasks, LeaderboardCond(schema));
      exists k :: && b.worker == Label(k, "Unknown")
                  && b.tasksDone == Occurrences(WorkerKeys(users, rows), k)
                  && b.avgDays == GroupAvg(schema, users, rows, k)
  {
    var rows := Where(tasks, LeaderboardCond(schema));
    var s := GroupAndSort(WorkerKeys(users, rows), ByCount);
    GroupAndSortCounts(WorkerKeys(users, rows), ByCount, i);
    var k := s[i].0;
    assert Limit(s, limit)[i] == s[i];
  }

  // ----- get_cycle_time_avg -----

  /** Mean days from creation to completion over the Done tasks with both
      values present whose values both parse; 0.0 without `created_at`. */
  function CycleTime(schema: Schema, tasks: seq<Task>): (avg: real)
    ensures !schema.hasCreatedAt ==> avg == 0.0
  {
    if !schema.hasCreatedAt then 0.0 else Mean(Spans(schema, Where(tasks, DoneWithSpan(schema))))
  }

  /** The query and its loop: a row whose values do not both parse is
      skipped, and no row at all gives 0.0. */
  method GetCycleTimeAvg(schema: Schema, tasks: seq<Task>) returns (avg: real)
    ensures avg == CycleTime(schema, tasks)
  {
    if !schema.hasCreatedAt {
      return 0.0;
    }
    var rows := Where(tasks, DoneWithSpan(schema));
    var diffs: seq<real> := [];
    for i := 0 to |rows|
      invariant diffs == Spans(schema, rows[..i])
    {
      var s := SafeDt(CreatedAt(schema, rows[i]));
      var e := SafeDt(Completion(schema, rows[i]));
      SpansStep(schema, rows, i, s, e);
      if s.Some? && e.Some? {
        diffs := diffs + [SpanOf(s, e).value];
      }
    }
    assert rows[..|rows|] == rows;
    if |diffs| > 0 {
      avg := Sum(diffs) / |diffs| as real;
    } else {
      avg := 0.0;
    }
  }

  /** When no selected row has two readable timestamps the average is 0.0. */
  lemma CycleTimeNoSpans(schema: Schema, tasks: seq<Task>)
    requires forall t :: t in tasks && Holds(DoneWithSpan(schema), t) ==> Span(schema, t).None?
    ensures CycleTime(schema, tasks) == 0.0
  {
    var rows := Where(tasks, DoneWithSpan(schema));
    assert forall i :: 0 <= i < |rows| ==> rows[i] in rows;
    SpansEmpty(schema, rows);
  }

  /** The average lies within the range of the spans it averages; in
      particular it is never negative when no task was completed before it
      was created. */
  lemma CycleTimeWithin(schema: Schema, tasks: seq<Task>, lo: real, hi: real)
    requires lo <= 0.0 <= hi
    requires forall t :: t in tasks && Span(schema, t).Some? ==> lo <= Span(schema, t).value <= hi
    ensures lo <= CycleTime(schema, tasks) <= hi
  {
    if schema.hasCreatedAt {
      var rows := Where(tasks, DoneWithSpan(schema));
      var xs := Spans(schema, rows);
      if |xs| > 0 {
        forall x | x in xs ensures lo <= x <= hi {
          SpansFrom(schema, rows, x);
        }
        MeanWithin(xs, lo, hi);
      }
    }
  }

  // ----- get_on_time_percentage -----

  /** Completion no later than the deadline, both readable. */
  predicate OnTime(schema: Schema, t: Task) {
    var d := ParseTimestamp(t.deadline);
    var c := ParseTimestamp(Completion(schema, t));
    d.Some? && c.Some? && c.value <= d.value
  }

  /** How many of `rows` were finished on time. */
  function OnTimeCount(schema: Schema, rows: seq<Task>): (ok: nat)
    ensures ok <= |rows|
  {
    if |rows| == 0 then 0
    else OnTimeCount(schema, rows[..|rows| - 1]) + (if OnTime(schema, rows[|rows| - 1]) then 1 else 0)
  }

  /** `(ok / total) * 100`, and 0.0 for no rows (rounding left out). */
  function Percentage(ok: nat, total: nat): (p: real)
    requires ok <= total
    ensures 0.0 <= p <= 100.0
    ensures total == 0 || ok == 0 ==> p == 0.0
    ensures total > 0 && ok == total ==> p == 100.0
  {
    if total == 0 then 0.0 else (ok as real / total as real) * 100.0
  }

  /** The on-time numerator and denominator: Done tasks with a deadline and
      a completion value, and those of them finished on time. */
  function OnTimeTally(schema: Schema, tasks: seq<Task>): (r: (nat, nat))
    ensures r.0 <= r.1 == Count(tasks, DoneWithDeadline(schema))
  {
    var rows := Where(tasks, DoneWithDeadline(schema));
    (OnTimeCount(schema, rows), |rows|)
  }

  function OnTimePercentage(schema: Schema, tasks: seq<Task>): real {
    var (ok, total) := OnTimeTally(schema, tasks);
    Percentage(ok, total)
  }

  /** The query and its loop over the selected rows. */
  method GetOnTimePercentage(schema: Schema, tasks: seq<Task>) returns (pct: real)
    ensures pct == OnTimePercentage(schema, tasks)
    ensures 0.0 <= pct <= 100.0
  {
    var rows := Where(tasks, DoneWithDeadline(schema));
    var total := |rows|;
    if total == 0 {
      return 0.0;
    }
    var ok := 0;
    for i := 0 to |rows|
      invariant ok == OnTimeCount(schema, rows[..i])
    {
      var d := SafeDt(rows[i].deadline);
      var c := SafeDt(Completion(schema, rows[i]));
      OnTimeStep(schema, rows, i, d, c);
      if d.Some? && c.Some? && c.value <= d.value {
        ok := ok + 1;
      }
    }
    assert rows[..|rows|] == rows;
    pct := (ok as real / total as real) * 100.0;
  }

  /** One iteration of the loop, on the two parsed values. */
  lemma OnTimeStep(schema: Schema, rows: seq<Task>, i: nat, d: Option<int>, c: Option<int>)
    requires i < |rows|
    requires d == ParseTimestamp(rows[i].deadline) && c == ParseTimestamp(Completion(schema, rows[i]))
    ensures OnTimeCount(schema, rows[..i + 1])
         == OnTimeCount(schema, rows[..i]) + (if d.Some? && c.Some? && c.value <= d.value then 1 else 0)
  {
    TakeOneMore(rows, i);
    OnTimeCountSnocParsed(schema, rows[..i], rows[i], d, c);
  }

  lemma OnTimeCountSnocParsed(schema: Schema, rows: seq<Task>, t: Task, d: Option<int>, c: Option<int>)
    requires d == ParseTimestamp(t.deadline) && c == ParseTimestamp(Completion(schema, t))
    ensures OnTimeCount(schema, rows + [t])
         == OnTimeCount(schema, rows) + (if d.Some? && c.Some? && c.value <= d.value then 1 else 0)
  {
    OnTimeCountSnoc(schema, rows, t);
    OnTimeOfParsed(schema, t, d, c);
  }

  lemma OnTimeOfParsed(schema: Schema, t: Task, d: Option<int>, c: Option<int>)
    requires d == ParseTimestamp(t.deadline) && c == ParseTimestamp(Completion(schema, t))
    ensures OnTime(schema, t) <==> d.Some? && c.Some? && c.value <= d.value
  {
  }

  /** A new task moves the tally as the source says: not selected, nothing
      changes; selected but late or unreadable, only the denominator grows;
      on time, both grow. */
  lemma OnTimeTallyAppend(schema: Schema, tasks: seq<Task>, t: Task)
    ensures OnTimeTally(schema, tasks + [t]).1
         == OnTimeTally(schema, tasks).1 + (if Holds(DoneWithDeadline(schema), t) then 1 else 0)
    ensures OnTimeTally(schema, tasks + [t]).0
         == OnTimeTally(schema, tasks).0 + (if Holds(DoneWithDeadline(schema), t) && OnTime(schema, t) then 1 else 0)
  {
    var c := DoneWithDeadline(schema);
    WhereAppend(tasks, t, c);
    var rows := Where(tasks, c);
    if Holds(c, t) {
      assert Where(tasks + [t], c) == rows + [t];
      OnTimeCountSnoc(schema, rows, t);
    } else {
      assert Where(tasks + [t], c) == rows;
    }
  }

  lemma OnTimeCountSnoc(schema: Schema, rows: seq<Task>, t: Task)
    ensures OnTimeCount(schema, rows + [t]) == OnTimeCount(schema, rows) + (if OnTime(schema, t) then 1 else 0)
  {
    assert (rows + [t])[..|rows|] == rows;
  }

  /** On time means the completion datetime is not after the deadline, in
      Python's datetime order. */
  lemma OnTimeIsNotLater(schema: Schema, t: Task)
    ensures OnTime(schema, t) <==>
      && Truthy(t.deadline) && Truthy(Completion(schema, t))
      && ParseDateTime(t.deadline.value).Some? && ParseDateTime(Completion(schema, t).value).Some?
      && !Before(ParseDateTime(t.deadline.value).value, ParseDateTime(Completion(schema, t).value).value)
  {
    if Truthy(t.deadline) && Truthy(Completion(schema, t))
      && ParseDateTime(t.deadline.value).Some? && ParseDateTime(Completion(schema, t).value).Some?
    {
      InstantOrder(ParseDateTime(t.deadline.value).value, ParseDateTime(Completion(schema, t).value).value);
    }
  }

  /** Without `completed_at` the deadline stands in for completion, so every
      selected task whose deadline parses counts as on time. */
  lemma OnTimeWithoutCompletedAt(schema: Schema, t: Task)
    requires !schema.hasCompletedAt
    ensures OnTime(schema, t) <==> ParseTimestamp(t.deadline).Some?
  {
  }

  function DoneTask(deadline: string, completedAt: string): Task {
    Task(1, None, None, None, None, Some(deadline), None, Some("Done"), None, Some(completedAt))
  }

  /** For date-only texts, on time means the completion day is not after
      the deadline day. */
  lemma OnTimeOfDates(deadline: DateTime, done: DateTime)
    requires ValidDateTime(deadline) && ValidDateTime(done)
    requires deadline.hour == deadline.minute == deadline.second == 0
    requires done.hour == done.minute == done.second == 0
    ensures OnTime(Schema(true, true), DoneTask(FormatDate(deadline), FormatDate(done))) <==> !Before(deadline, done)
  {
    FormatDateRoundTrip(deadline);
    FormatDateRoundTrip(done);
    assert deadline.(hour := 0, minute := 0, second := 0) == deadline;
    assert done.(hour := 0, minute := 0, second := 0) == done;
    InstantOrder(deadline, done);
  }

  lemma ExampleDates()
    ensures FormatDate(DateTime(2024, 1, 8, 0, 0, 0)) == "2024-01-08"
    ensures FormatDate(DateTime(2024, 1, 10, 0, 0, 0)) == "2024-01-10"
    ensures FormatDate(DateTime(2024, 1, 12, 0, 0, 0)) == "2024-01-12"
  {
  }

  /** A single Done task with date-only deadline and completion texts. */
  lemma OnTimeTallyOfDates(deadline: DateTime, done: DateTime)
    requires ValidDateTime(deadline) && ValidDateTime(done)
    requires deadline.hour == deadline.minute == deadline.second == 0
    requires done.hour == done.minute == done.second == 0
    ensures OnTimeTally(Schema(true, true), [DoneTask(FormatDate(deadline), FormatDate(done))])
         == (if Before(deadline, done) then 0 else 1, 1)
  {
    OnTimeOfDates(deadline, done);
    OnTimeTallySingle(Schema(true, true), DoneTask(FormatDate(deadline), FormatDate(done)));
  }

  lemma OnTimeTallySingle(schema: Schema, t: Task)
    requires Holds(DoneWithDeadline(schema), t)
    ensures OnTimeTally(schema, [t]).1 == 1
    ensures OnTimeTally(schema, [t]).0 == if OnTime(schema, t) then 1 else 0
  {
    var c := DoneWithDeadline(schema);
    assert [] + [t] == [t];
    WhereAppend([], t, c);
    assert Where([t], c) == [t];
    OnTimeCountSnoc(schema, [], t);
  }

  /** Deadline 2024-01-10 met on 2024-01-08 is on time; met on 2024-01-12 it
      counts in the denominator only. */
  lemma OnTimeExamples()
    ensures OnTimeTally(Schema(true, true), [DoneTask("2024-01-10", "2024-01-08")]) == (1, 1)
    ensures OnTimeTally(Schema(true, true), [DoneTask("2024-01-10", "2024-01-12")]) == (0, 1)
  {
    ExampleDates();
    OnTimeTallyOfDates(DateTime(2024, 1, 10, 0, 0, 0), DateTime(2024, 1, 8, 0, 0, 0));
    OnTimeTallyOfDates(DateTime(2024, 1, 10, 0, 0, 0), DateTime(2024, 1, 12, 0, 0, 0));
  }

  // ----- get_bottleneck_top_areas -----

  function AreaNames(rows: seq<Task>): (r: seq<string>)
    ensures |r| == |rows| && forall i :: 0 <= i < |rows| ==> r[i] == AreaName(rows[i])
  {
    seq(|rows|, i requires 0 <= i < |rows| => AreaName(rows[i]))
  }

  /** Open tasks per trimmed area, blank and NULL areas dropped, most first,
      at most `topN` rows (a negative limit means all). */
  function GetBottleneckTopAreas(tasks: seq<Task>, topN: int): seq<(string, nat)> {
    Limit(GroupAndSort(AreaNames(Where(tasks, OpenWithArea)), ByCount), topN)
  }

  lemma {:induction false} SumCountsPrefix<K>(s: seq<(K, nat)>, n: nat)
    requires n <= |s|
    ensures SumCounts(s[..n]) <= SumCounts(s)
  {
    if n > 0 {
      assert s[..n][1..] == s[1..][..n - 1];
      SumCountsPrefix(s[1..], n - 1);
    }
  }

  /** At most `topN` rows, one per trimmed non-blank area, with
      non-increasing counts. */
  lemma BottleneckShape(tasks: seq<Task>, topN: int)
    ensures var r := GetBottleneckTopAreas(tasks, topN);
      && (topN >= 0 ==> |r| <= topN)
      && NonIncreasing(r, ByCount) && KeysDistinct(r)
  {
    var keys := AreaNames(Where(tasks, OpenWithArea));
    var s := GroupAndSort(keys, ByCount);
    LimitKeepsTop(s, topN, ByCount);
    GroupAndSortTotals(keys, ByCount);
    var r := Limit(s, topN);
    assert forall i :: 0 <= i < |r| ==> r[i] == s[i];
  }

  /** The counts add up to at most the number of selected tasks. */
  lemma BottleneckSelected(tasks: seq<Task>, topN: int)
    ensures SumCounts(GetBottleneckTopAreas(tasks, topN)) <= Count(tasks, OpenWithArea)
  {
    var keys := AreaNames(Where(tasks, OpenWithArea));
    var s := GroupAndSort(keys, ByCount);
    GroupAndSortTotals(keys, ByCount);
    if topN >= 0 && topN < |s| {
      SumCountsPrefix(s, topN);
    }
  }

  /** Only Pending and In Progress tasks are counted. */
  lemma BottleneckTotal(tasks: seq<Task>, topN: int)
    ensures SumCounts(GetBottleneckTopAreas(tasks, topN))
         <= Count(tasks, StatusEquals("Pending")) + Count(tasks, StatusEquals("In Progress"))
  {
    BottleneckSelected(tasks, topN);
    forall t | Holds(OpenWithArea, t)
      ensures Holds(StatusEquals("Pending"), t) || Holds(StatusEquals("In Progress"), t)
    {
      OpenIsPendingOrInProgress(t);
    }
    CountUnion(tasks, OpenWithArea, StatusEquals("Pending"), StatusEquals("In Progress"));
  }

  lemma OpenIsPendingOrInProgress(t: Task)
    requires Holds(OpenWithArea, t)
    ensures Holds(StatusEquals("Pending"), t) || Holds(StatusEquals("In Progress"), t)
  {
  }

  /** Each row is a trimmed, non-blank area with the number of open tasks
      whose trimmed area is that name. */
  lemma BottleneckRow(tasks: seq<Task>, topN: int, i: nat)
    requires i < |GetBottleneckTopAreas(tasks, topN)|
    ensures var row := GetBottleneckTopAreas(tasks, topN)[i];
      && row.0 != "" && TrimSpaces(row.0) == row.0 && row.1 >= 1
      && row.1 == Occurrences(AreaNames(Where(tasks, OpenWithArea)), row.0)
  {
    var rows := Where(tasks, OpenWithArea);
    var keys := AreaNames(rows);
    var s := GroupAndSort(keys, ByCount);
    assert GetBottleneckTopAreas(tasks, topN)[i] == s[i];
    GroupAndSortCounts(keys, ByCount, i);
    var j :| 0 <= j < |keys| && keys[j] == s[i].0;
    assert Holds(OpenWithArea, rows[j]);
    TrimSpacesIdempotent(if rows[j].area.Some? then rows[j].area.value else "");
  }

  lemma TrimSpacesIdempotent(s: string)
    ensures TrimSpaces(TrimSpaces(s)) == TrimSpaces(s)
  {
  }

  /** A task that is not open, or whose area is NULL or only spaces, does not
      change the result: it is dropped, not relabelled. */
  lemma BottleneckIgnores(tasks: seq<Task>, t: Task, topN: int)
    requires !Holds(OpenWithArea, t)
    ensures GetBottleneckTopAreas(tasks + [t], topN) == GetBottleneckTopAreas(tasks, topN)
  {
    WhereAppend(tasks, t, OpenWithArea);
    assert Where(tasks + [t], OpenWithArea) == Where(tasks, OpenWithArea);
  }

  /** A Pending task with a NULL area is listed as "Unspecified" in the
      heatmap but left out of the bottleneck areas. */
  lemma NullAreaAsymmetry(tasks: seq<Task>, t: Task, topN: int)
    requires t.area == None && t.status == Some("Pending")
    ensures exists j :: 0 <= j < |GetHeatmapData(tasks + [t]).byArea|
                        && GetHeatmapData(tasks + [t]).byArea[j].0 == "Unspecified"
    ensures GetBottleneckTopAreas(tasks + [t], topN) == GetBottleneckTopAreas(tasks, topN)
  {
    NullAreaInHeatmap(tasks, t);
    NullAreaNotOpen(t);
    BottleneckIgnores(tasks, t, topN);
  }

  lemma NullAreaInHeatmap(tasks: seq<Task>, t: Task)
    requires t.area == None
    ensures exists j :: 0 <= j < |GetHeatmapData(tasks + [t]).byArea|
                        && GetHeatmapData(tasks + [t]).byArea[j].0 == "Unspecified"
  {
    var all := tasks + [t];
    assert all[|tasks|] == t;
    HeatmapLabels(all, |tasks|);
  }

  lemma NullAreaNotOpen(t: Task)
    requires t.area == None
    ensures !Holds(OpenWithArea, t)
  {
    assert AreaName(t) == TrimSpaces("");
  }

  /** `TRIM` strips spaces only: an area that is just a tab is kept. */
  lemma TrimKeepsTab()
    ensures TrimSpaces("\t") == "\t"
    ensures TrimSpaces("  Line 1 ") == "Line 1"
  {
    assert "  Line 1 "[1..] == " Line 1 ";
    assert " Line 1 "[1..] == "Line 1 ";
    assert "Line 1 "[..6] == "Line 1";
  }

  // ----- every metric on an empty store -----

  /** No rows: all counts 0, all series empty, average and percentage 0.0. */
  lemma EmptyStore(schema: Schema, users: seq<User>, now: int, days: nat, limit: int, topN: int)
    ensures GetStatusCounts([]) == StatusCounts(0, 0, 0)
    ensures GetOverdueCount([], now) == 0 && GetUpcomingCount([], now, days) == 0
    ensures GetTaskThroughput(schema, [], now, days) == []
    ensures GetHeatmapData([]) == Heatmap([], [])
    ensures GetLeaderboard(schema, [], users, limit) == []
    ensures CycleTime(schema, []) == 0.0 && OnTimePercentage(schema, []) == 0.0
    ensures GetBottleneckTopAreas([], topN) == []
  {
  }
}
