# WorkOrder dashboard metrics and task-table effects in Dafny

This project models two parts of the WorkOrder maintenance tracker, a
Flask application backed by SQLite.

* **The dashboard metrics** of `utils/analytics_utils.py`. Each SQL query
  becomes a function of the rows of `tasks` (and `users`). It also takes
  a schema descriptor, which says whether the deployed `tasks` table has
  `created_at` and `completed_at`, and, where the query reads the clock,
  an explicit `now` instant. The Python helpers `_pick_completion_field`
  and `_safe_dt` are modelled with their branches and fallbacks. So is SQL's three-valued logic:
  `status != 'Done'` is false on a NULL status. So are GROUP BY, ORDER BY
  ... DESC and LIMIT, where a negative limit returns every row. The two
  post-processing loops, in `get_cycle_time_avg` and
  `get_on_time_percentage`, are methods with loop invariants, proved
  equal to the functions that specify them.
* **The table effects of three routes of `app.py`**. `remove_worker`
  deletes the worker's open tasks, clears the assignee of their Done
  tasks and deletes the user. `update_task` writes the status and, for
  Done, archives a task at most once in `completed_tasks`. `register`
  validates the form fields and inserts a user with a UNIQUE username.
  Each effect is a function of the tables it touches. The class
  `WorkOrders.TaskStore` holds the tables as `seq` fields, and its
  methods run the statements in the source's order and are proved to
  produce that function's result.

Modules:
* `Records`: the rows, the schema descriptor and SQL/Python truthiness.
* `Calendar`: the proleptic Gregorian calendar. A naive datetime is the
  integer instant day-ordinal × 86400 + second of day.
* `Timestamps`: `_safe_dt`, that is two `strptime` formats, then an ISO
  fallback.
* `Grouping`: GROUP BY/COUNT, ORDER BY as an insertion sort, and
  LIMIT.
* `Analytics`: the metrics.
* `WorkOrders`: the three routes and `TaskStore`.

## Model

| member | source | states |
|---|---|---|
| Records.UsernameOf | utils/analytics_utils.py:109 | The LEFT JOIN on `u.id = t.assigned_to` finds a username exactly when some user has that id, and the username it returns is that user's. |
| Calendar.InstantOrder | utils/analytics_utils.py:160 | One instant is less than another exactly when Python's datetime order puts the first datetime before the second. Equal instants are equal datetimes. So `c <= d` on instants is `c <= d` on datetimes. |
| Calendar.DayOrdinalOrder | utils/analytics_utils.py:87 | An earlier calendar day has a smaller day ordinal, so `DATE(x) >= DATE(y)` compares days. |
| Calendar.DayOfInstant | utils/analytics_utils.py:84-88 | `DATE()` of the instant of a datetime is that datetime's day ordinal. |
| Calendar.DaysBeforeYear | utils/analytics_utils.py:142 | No contract of its own: Python's `_days_before_year`, the days before 1 January of a year. Its meaning is DaysBeforeYearStep. |
| Calendar.DaysBeforeYearStep | utils/analytics_utils.py:142 | Consecutive years differ by the length of the earlier year, 366 in a leap year and 365 otherwise. |
| Calendar.DayOrdinal | utils/analytics_utils.py:142 | `date.toordinal()`, with 0001-01-01 as day 1 and every ordinal at least 1. DayOrdinalWithinYear places it inside its year, and DayOrdinalOrder makes it follow calendar order. |
| Calendar.DayOrdinalWithinYear | utils/analytics_utils.py:142 | A date's ordinal lies after every day of the earlier years and within the days of its own year. |
| Calendar.ToInstant | utils/analytics_utils.py:140-142 | A naive datetime as whole seconds since the start of day 0, at least one day. InstantOrder makes it follow datetime order, so `e - s` in seconds is the difference of instants. |
| Timestamps.Strptime | utils/analytics_utils.py:44-48 | A successful `strptime` yields a datetime the `datetime` constructor accepts. |
| Timestamps.IsoFallback | utils/analytics_utils.py:49-52 | A successful `fromisoformat` of `YYYY-MM-DD[?HH[:MM[:SS]]]` yields a valid datetime. |
| Timestamps.ParseDateTime | utils/analytics_utils.py:44-52 | The formats are tried in order. The result is the first of `%Y-%m-%d %H:%M:%S`, `%Y-%m-%d` and `fromisoformat` that succeeds, and it is always a valid datetime. |
| Timestamps.ParseTimestamp | utils/analytics_utils.py:41-52 | An empty or NULL value gives no datetime. Any other value gives one exactly when one of the three parses succeeds. Every instant is at or after 0001-01-01. |
| Timestamps.SafeDt | utils/analytics_utils.py:41-52 | The method tries the three formats in turn and returns exactly `ParseTimestamp` of its argument. |
| Timestamps.FormatDateTimeRoundTrip | utils/analytics_utils.py:44-46 | Any valid datetime printed as `YYYY-MM-DD HH:MM:SS` is read back by the first format as the same datetime and the same instant. |
| Timestamps.FormatDateRoundTrip | utils/analytics_utils.py:44-46 | A date printed as `YYYY-MM-DD` is rejected by the first format and read by the second as midnight of that day. |
| Timestamps.DateOnlyIsMidnight | utils/analytics_utils.py:44-46 | A date-only text and the same date at `00:00:00` parse to the same instant. |
| Timestamps.SameDayAsDate | utils/analytics_utils.py:44-46 | A date-time parses to the instant of its own date-only text plus its second of the day. |
| Timestamps.ExampleTimestamps | utils/analytics_utils.py:44-46 | `"2024-01-10"` equals `"2024-01-10 00:00:00"` and is eight hours before `"2024-01-10 08:00:00"`. |
| Timestamps.RejectedTimestamps | utils/analytics_utils.py:42-43 | NULL, `""` and `"not-a-date"` give no datetime. |
| Grouping.GroupCount | utils/analytics_utils.py:94 | GROUP BY with COUNT(*): each key's count is its number of occurrences, and the counts add up to the number of rows. |
| Grouping.GroupCountKeys | utils/analytics_utils.py:94 | The groups have distinct keys and positive counts, and a key has a group exactly when it occurs in the rows. |
| Grouping.Bump | utils/analytics_utils.py:94 | Counting one more row raises exactly that key's count by one. |
| Grouping.Insert | utils/analytics_utils.py:94 | Inserting into a list ordered by rank keeps it ordered, and the result is the old list plus the element, as a multiset. |
| Grouping.SortDesc | utils/analytics_utils.py:94 | ORDER BY ... DESC: the result is a permutation of the input, ordered by non-increasing rank. |
| Grouping.PermutationKeepsSum | utils/analytics_utils.py:94 | Reordering the groups keeps the total count. |
| Grouping.PermutationKeepsDistinct | utils/analytics_utils.py:94 | Reordering the groups keeps their keys distinct. |
| Grouping.GroupAndSortCounts | utils/analytics_utils.py:94 | Every output row is a key that occurs in the input, paired with its number of occurrences, which is at least 1. |
| Grouping.GroupAndSortCovers | utils/analytics_utils.py:94 | Every key that occurs in the input has an output row. |
| Grouping.GroupAndSortTotals | utils/analytics_utils.py:94 | The output keys are distinct and their counts add up to the number of input rows. |
| Grouping.AscendingKeys | utils/analytics_utils.py:88-89 | Grouping by day, ordered by the day itself, gives strictly increasing days. |
| Grouping.Limit | utils/analytics_utils.py:113 | LIMIT n returns a prefix: all rows when n is negative, otherwise min(n, rows) rows. |
| Grouping.LimitKeepsTop | utils/analytics_utils.py:112-113 | The rows LIMIT keeps stay ordered, and none of the rows it drops ranks above a kept one. |
| Analytics.PickCompletionField | utils/analytics_utils.py:38-39 | `completed_at` is chosen exactly when the table has that column; otherwise `deadline` stands in. |
| Analytics.TrimSpaces | utils/analytics_utils.py:178 | SQLite `TRIM` removes spaces only, from both ends. The result is empty exactly when the text is all spaces, it neither starts nor ends with a space, and a text without a leading or trailing space is unchanged. |
| Analytics.TrimKeepsTab | utils/analytics_utils.py:165-178 | `TRIM` strips `"  Line 1 "` to `"Line 1"` but keeps `"\t"`. |
| Analytics.Where | utils/analytics_utils.py:59-61 | A row is in the result exactly when it is a row of the table that satisfies the condition, and the result is never longer than the table. WhereAppend gives row order and multiplicity. |
| Analytics.Holds | utils/analytics_utils.py:59-178 | No contract of its own: each WHERE clause of the queries, in SQL's three-valued logic. NullStatusNeverSelected states what that logic means for a NULL status. |
| Analytics.NullStatusNeverSelected | utils/analytics_utils.py:59-177 | A task with a NULL status is selected by no status filter of any query, neither `status = ...` nor `status != 'Done'` nor `status IN (...)`. |
| Analytics.Count | utils/analytics_utils.py:59-79 | `COUNT(*)` of a WHERE clause is the number of selected rows and never exceeds the number of tasks. CountMonotone, CountDisjoint and CountUnion relate the counts of different clauses. |
| Analytics.WhereAppend | utils/analytics_utils.py:59-61 | An appended row is selected exactly when it satisfies the condition. |
| Analytics.CountMonotone | utils/analytics_utils.py:66-79 | A condition implied by another counts at least as many rows. |
| Analytics.CountDisjoint | utils/analytics_utils.py:66-79 | Two disjoint conditions that both imply a third count, together, no more than the third. |
| Analytics.CountUnion | utils/analytics_utils.py:177 | A condition covered by two others counts no more than their sum. |
| Analytics.GetStatusCounts | utils/analytics_utils.py:57-62 | Each of the three status counts is at most the number of tasks. |
| Analytics.StatusCountsTotal | utils/analytics_utils.py:57-62 | The three counts add up to at most the number of tasks, and exactly to it when every status is one of `Pending`, `In Progress`, `Done`. |
| Analytics.UnrecognizedNotCounted | utils/analytics_utils.py:57-62 | A task with any other status, or a NULL status, changes none of the counts. |
| Analytics.DeletedNotCounted | utils/analytics_utils.py:57-62 | A `Deleted` task is counted nowhere. |
| Analytics.GetOverdueCount | utils/analytics_utils.py:64-71 | Overdue tasks are open tasks with a deadline: the count is bounded by the number of those. |
| Analytics.GetUpcomingCount | utils/analytics_utils.py:73-79 | Upcoming tasks are open tasks with a deadline: the count is bounded by the number of those. |
| Analytics.OverdueUpcomingDisjoint | utils/analytics_utils.py:64-79 | No task is both overdue and upcoming. The two counts together are at most the open tasks that have a deadline. |
| Analytics.DeadlineCountersIgnore | utils/analytics_utils.py:64-79 | A Done task, a task with a NULL status, or one without a deadline changes neither count. |
| Analytics.OverdueExample | utils/analytics_utils.py:64-71 | A Pending task due a day before now counts as overdue. The same task marked Done does not. |
| Analytics.GetTaskThroughput | utils/analytics_utils.py:81-91 | No contract of its own: its properties are ThroughputOrder, ThroughputDay and ThroughputIgnores. |
| Analytics.ThroughputOrder | utils/analytics_utils.py:81-91 | The throughput series has strictly increasing days, and its counts add up to the number of tasks the query selects. |
| Analytics.ThroughputDay | utils/analytics_utils.py:84-90 | Every day in the series lies within the window. Its count, at least 1, is the number of selected tasks completed that day. |
| Analytics.ThroughputIgnores | utils/analytics_utils.py:86-87 | A task the filter rejects leaves the series unchanged: not Done, no completion value, an unreadable one, or one before the window. |
| Analytics.Relabel | utils/analytics_utils.py:97-98 | `value or "Unspecified"` relabels each group in place and keeps its count. |
| Analytics.GetHeatmapData | utils/analytics_utils.py:93-99 | No contract of its own: its properties are HeatmapShape, HeatmapLabels, HeatmapCounts and HeatmapSplitsUnspecified. |
| Analytics.HeatmapShape | utils/analytics_utils.py:93-99 | Both heatmap lists count every task, whatever its status, and are ordered most frequent first. |
| Analytics.HeatmapLabels | utils/analytics_utils.py:94-98 | Every task appears under its label. A NULL or empty area or machine reads `Unspecified`. |
| Analytics.HeatmapCounts | utils/analytics_utils.py:94-97 | Each area row carries the label of one raw area value, and its count is the number of tasks with exactly that value. |
| Analytics.HeatmapSplitsUnspecified | utils/analytics_utils.py:94-97 | A NULL area and an empty area form two separate `Unspecified` rows, because grouping happens before relabelling. |
| Analytics.SpanOf | utils/analytics_utils.py:141-142 | A span exists exactly when both timestamps were read. |
| Analytics.Spans | utils/analytics_utils.py:139-142 | At most one value is averaged per row. |
| Analytics.SpansFrom | utils/analytics_utils.py:139-142 | Every averaged value is the creation-to-completion span of some row. |
| Analytics.SpansEmpty | utils/analytics_utils.py:139-143 | Nothing is averaged exactly when no row has two readable timestamps. |
| Analytics.SpansAppend | utils/analytics_utils.py:139-142 | A new row adds its span at the end, or nothing when it has none. |
| Analytics.SumWithin | utils/analytics_utils.py:143 | A sum of values in [lo, hi] lies between count·lo and count·hi. |
| Analytics.MeanWithin | utils/analytics_utils.py:143 | The mean of values in [lo, hi] lies in [lo, hi]. |
| Analytics.LeaderRows | utils/analytics_utils.py:115 | Each leaderboard row is the group's `worker_name or "Unknown"`, its count and the average span of that worker's rows. |
| Analytics.GetLeaderboard | utils/analytics_utils.py:101-127 | No contract of its own: its properties are LeaderboardShape and LeaderboardRow. |
| Analytics.LeaderboardShape | utils/analytics_utils.py:101-127 | The leaderboard has at most `limit` rows. `tasks_done` is positive and non-increasing. Each name is a username or `Unknown`. Without `created_at` every average is 0.0. |
| Analytics.LeaderboardRow | utils/analytics_utils.py:104-115 | Each row stands for one worker key. Its count is that key's number of selected Done tasks, and its average is over exactly those tasks. |
| Analytics.CycleTime | utils/analytics_utils.py:129-131 | Without `created_at` the cycle time is 0.0. |
| Analytics.GetCycleTimeAvg | utils/analytics_utils.py:129-143 | The query and its loop compute `CycleTime`. The invariant keeps the collected values equal to the spans of the rows seen so far. |
| Analytics.CycleTimeNoSpans | utils/analytics_utils.py:141-143 | When no selected row has two readable timestamps, the average is 0.0. |
| Analytics.CycleTimeWithin | utils/analytics_utils.py:139-143 | The average lies within any range, containing 0, that holds every span. In particular it is never negative when nothing was completed before it was created. |
| Analytics.OnTimeCount | utils/analytics_utils.py:157-161 | At most every row is on time. |
| Analytics.Percentage | utils/analytics_utils.py:154-162 | The percentage lies in [0, 100]. It is 0 with no rows or none on time, and 100 when all are on time. |
| Analytics.OnTimeTally | utils/analytics_utils.py:147-161 | The denominator is the number of Done tasks with a deadline and a completion value, and the numerator is at most that. |
| Analytics.OnTimePercentage | utils/analytics_utils.py:145-162 | No contract of its own: GetOnTimePercentage computes it and bounds it to [0, 100]. Percentage, OnTimeTally and OnTimeTallyAppend give its numerator and denominator. |
| Analytics.GetOnTimePercentage | utils/analytics_utils.py:145-162 | The query and its loop compute `OnTimePercentage`, which lies in [0, 100]. |
| Analytics.OnTimeTallyAppend | utils/analytics_utils.py:147-161 | One more task adds 1 to the denominator exactly when it is selected, and 1 to the numerator exactly when it is also on time. |
| Analytics.OnTimeIsNotLater | utils/analytics_utils.py:159-160 | On time means both values are non-empty and readable, and the completion datetime is not after the deadline in Python's order. |
| Analytics.OnTimeWithoutCompletedAt | utils/analytics_utils.py:146-160 | Without `completed_at` the deadline is compared with itself, so every task whose deadline parses is on time. |
| Analytics.OnTimeOfDates | utils/analytics_utils.py:159-160 | For date-only texts, on time means the completion day is not after the deadline day. |
| Analytics.OnTimeTallyOfDates | utils/analytics_utils.py:154-161 | A single Done task with date-only texts counts (0, 1) when it was finished late and (1, 1) otherwise. |
| Analytics.OnTimeExamples | utils/analytics_utils.py:154-161 | A 2024-01-10 deadline met on 2024-01-08 is (1, 1). Met on 2024-01-12 it is (0, 1). |
| Analytics.GetBottleneckTopAreas | utils/analytics_utils.py:164-187 | No contract of its own: its properties are BottleneckShape, BottleneckSelected, BottleneckTotal, BottleneckRow and BottleneckIgnores. |
| Analytics.BottleneckShape | utils/analytics_utils.py:173-182 | At most `top_n` rows, one per distinct trimmed area, with non-increasing counts. |
| Analytics.BottleneckSelected | utils/analytics_utils.py:173-182 | The counts add up to at most the number of open tasks with a non-blank area. |
| Analytics.BottleneckTotal | utils/analytics_utils.py:177 | The counts add up to at most the number of Pending tasks plus the number of In Progress tasks. BottleneckIgnores states that other tasks are left out. |
| Analytics.BottleneckRow | utils/analytics_utils.py:174-179 | Each row is a non-blank, already-trimmed area paired with the number of open tasks whose trimmed area is that name, at least 1. |
| Analytics.BottleneckIgnores | utils/analytics_utils.py:177-178 | A task that is not open, or whose area is NULL or only spaces, leaves the result unchanged: it is dropped, not relabelled. |
| Analytics.NullAreaAsymmetry | utils/analytics_utils.py:94-178 | A Pending task with a NULL area shows as `Unspecified` in the heatmap but is not counted among the bottleneck areas. |
| Analytics.EmptyStore | utils/analytics_utils.py:57-187 | With no tasks, every count is 0, every list is empty, and the average and the percentage are 0.0. |
| WorkOrders.DeleteActive | app.py:212 | `DELETE ... WHERE assigned_to = w AND status != 'Done'` keeps exactly the rows not matched, and keeps task ids unique. |
| WorkOrders.ClearDoneAssignee | app.py:215 | `UPDATE ... SET assigned_to = NULL WHERE assigned_to = w AND status = 'Done'` changes exactly the matched rows, and only their assignee. |
| WorkOrders.DeleteUser | app.py:218 | `DELETE FROM users WHERE id = w` keeps exactly the other users. |
| WorkOrders.DeleteUserKeepsUnique | app.py:37-218 | Deleting a user keeps ids and usernames unique. |
| WorkOrders.RemoveWorkerResult | app.py:191-223 | No contract of its own: the effect of `remove_worker` on both tables. Its properties are RemoveAbsentWorker, RemoveWorkerUsers, RemoveWorkerTasks and RemoveWorkerKeepsIds, and TaskStore.RemoveWorker performs it. |
| WorkOrders.RemoveAbsentWorker | app.py:201-207 | An id no user has gives "Worker not found" and changes no table. |
| WorkOrders.RemoveWorkerUsers | app.py:201-218 | Removing a present worker reports their username, leaves no user with that id, and keeps every other user. |
| WorkOrders.RemoveWorkerTasks | app.py:211-215 | Afterwards, only tasks with a NULL status stay assigned to the worker. Each of their Done tasks stays, with a NULL assignee. Other workers' tasks are untouched, and no new task appears. |
| WorkOrders.RemoveWorkerKeepsIds | app.py:211-218 | Task ids stay unique. |
| WorkOrders.FindTask | app.py:373-378 | `SELECT ... WHERE id = ?` finds a task exactly when one has that id, and returns a row of the table with that id. |
| WorkOrders.SetStatus | app.py:386 | `UPDATE tasks SET status = ? WHERE id = ?` changes the status of the matching rows and nothing else. |
| WorkOrders.ArchiveCount | app.py:406-408 | The number of archive rows for a task is positive exactly when `already_there` would find one. |
| WorkOrders.ArchiveOnce | app.py:405-422 | Archiving only ever appends, at most one row. Afterwards the task is archived, and `task_id` stays unique. |
| WorkOrders.UpdateTaskResult | app.py:359-424 | No contract of its own: the effect of `update_task` on `tasks` and `completed_tasks`. Its properties are UpdateRejected, UpdateChangesOnlyStatus, UpdateNeverShrinksArchive, DoneArchivesOnce, DoneTwice and UpdateKeepsValid, and TaskStore.UpdateTask performs it. |
| WorkOrders.UpdateRejected | app.py:364-383 | A missing or empty status, or an unknown task id, is refused and changes nothing. |
| WorkOrders.UpdateChangesOnlyStatus | app.py:386 | On an existing task only that task's status changes, to the new value, in place. |
| WorkOrders.UpdateNeverShrinksArchive | app.py:388-422 | Whatever the status, the archive keeps its rows and grows by at most one. |
| WorkOrders.DoneArchivesOnce | app.py:389-422 | Setting Done leaves exactly one archive row for the task. A new row copies the task's fields as they were before the update, with `assigned_to` as `worker_id`. A task already archived leaves the archive as it was. |
| WorkOrders.ArchiveCountUnique | app.py:394 | With `task_id` UNIQUE, a task has at most one archive row. |
| WorkOrders.DoneTwice | app.py:405-409 | A second Done update leaves the archive exactly as the first one left it. |
| WorkOrders.UpdateKeepsValid | app.py:386-422 | Updating keeps task ids and archived task ids unique. |
| WorkOrders.RegisterResult | app.py:227-258 | No contract of its own: the effect of `register` on `users`. Its properties are RegisterInsertsOnlyValid, RegisterKeepsValid and RegisterTwice, and TaskStore.Register performs it. |
| WorkOrders.RegisterInsertsOnlyValid | app.py:235-256 | A user is inserted exactly when every field is filled in, the passwords agree and the username is new. Otherwise `users` is unchanged. |
| WorkOrders.RegisterKeepsValid | app.py:37-256 | Registration keeps ids and usernames unique and ids below the AUTOINCREMENT counter. The new user is found under the new id with the given username. |
| WorkOrders.RegisterTwice | app.py:254-256 | Registering the same username a second time is refused as taken. |
| WorkOrders.TaskStore.constructor | app.py:37-62 | Empty `users`, `tasks` and archive tables, with the first AUTOINCREMENT id 1. |
| WorkOrders.TaskStore.RemoveWorker | app.py:191-223 | The three statements produce `RemoveWorkerResult`. The archive and the id counter are unchanged, and the table invariants hold. |
| WorkOrders.TaskStore.UpdateTask | app.py:359-424 | The statements produce `UpdateTaskResult`. `users` and the id counter are unchanged, and the table invariants hold. |
| WorkOrders.TaskStore.Register | app.py:227-256 | The insert produces `RegisterResult`. The id counter advances exactly on success, `tasks` and the archive are unchanged, and the table invariants hold. |
| WorkOrders.MarkDoneTwice | app.py:389-422 | Marking an existing task Done twice leaves exactly one archive row for it. |

## Left out

- Flask routing, sessions, `flash` messages, redirects, templates and the admin check (`session.get('role') != 'admin'`, `admin_required`). Each route is modelled from the point where it touches the database.
- The other routes of `app.py` (login, dashboard, task creation, messages, profiles, export). `utils/db_init.py` and `utils/export_excel.py` are not part of this model.
- Password hashing (`generate_password_hash`): a parameter `hash` of `Register`.
- `CURRENT_TIMESTAMP` and `datetime('now')`: the parameters `now` (a text for the archive, an instant for the metrics).
- The AUTOINCREMENT id of `completed_tasks` rows is omitted. The `users` AUTOINCREMENT is modelled by the counter `nextUserId`. Task ids come with the rows.
- Timestamps.ParseDateTime: only ASCII digits are accepted. `strptime` also accepts other Unicode decimal digits. `fromisoformat` is modelled for `YYYY-MM-DD` plus an optional `HH[:MM[:SS]]` after one separator character. Fractional seconds, UTC offsets and ISO week dates are not modelled. The model therefore reads such a value as unparseable, where `_safe_dt` parses it. In the source, an offset-aware value compared with or subtracted from a naive one raises `TypeError` outside `_safe_dt`'s `try` (`c <= d` at utils/analytics_utils.py:160, `e - s` at utils/analytics_utils.py:142). The model skips the row instead.
- Timestamps.ParseDateTime: SQLite's `datetime()`, `DATE()` and `julianday()` are modelled by the same parse as `_safe_dt`. SQLite's own leniencies and its modifiers are not modelled.
- Floating point and `round(..., 2)`: averages and percentages are exact reals.
- Analytics.GetTaskThroughput: days are day ordinals, not `YYYY-MM-DD` text.
- Grouping.SortDesc: SQLite leaves the order of tied counts unspecified. The model produces one fixed order and proves nothing about ties beyond that.
- Analytics.GetUpcomingCount: `days` is a natural number. The source interpolates any integer into `'+N days'`.
- The `completed_tasks` layout: `init_database` creates it with `assigned_to` and no UNIQUE (app.py:77-90). `update_task` creates it, if absent, with `task_id UNIQUE` and `worker_id` (app.py:391-403), and inserts into `worker_id`. The model uses the second layout, the only one the insert works with. On the first layout the insert fails with an `OperationalError` that nothing catches, so the `conn.commit()` at app.py:424 is never reached and the status change of that Done update is lost as well. The model does not capture this failure.
- `update_task` never sets `tasks.completed_at`. On the extended schema, completion values come from wherever the rows got them.
- The `tasks` table that `app.py` creates has no `created_at` or `completed_at`. The metrics read those columns only when the schema descriptor (`has_col`, utils/analytics_utils.py:35-36) says the table has them.
- WorkOrders.RemoveWorkerTasks: neither SQL condition holds on a task with a NULL status, so such a task of the removed worker keeps its dangling `assigned_to`. The model keeps this behaviour.
- Analytics.GetBottleneckTopAreas: its docstring says whitespace-only areas are ignored, but `TRIM` strips only spaces. The model follows the query: an area of tabs is kept.
- Transactions, connection handling, `IntegrityError` other than the UNIQUE username, and concurrent requests.
