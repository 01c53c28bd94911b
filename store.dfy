/** The table effects of three routes of `app.py`: removing a worker,
    updating a task's status (archiving it once when it becomes Done) and
    registering a user. Each route's effect is a function of the tables it
    touches; `TaskStore` holds the tables as fields and its methods perform
    the routes' SQL statements in the source's order. */
module WorkOrders {
  import opened Records

  /** A row of `completed_tasks` in the layout `update_task` creates:
      `task_id` is UNIQUE and the assignee is stored as `worker_id`.
      The row's own AUTOINCREMENT id is left out. */
  datatype Archived = Archived(
    taskId: int,
    title: Option<string>,
    description: Option<string>,
    machineId: Option<string>,
    area: Option<string>,
    deadline: Option<string>,
    workerId: Option<int>,
    completedAt: Option<string>)

  // ----- table invariants -----

  /** `users.id` is the primary key and `users.username` is UNIQUE. */
  predicate UniqueUsers(users: seq<User>) {
    forall i, j :: 0 <= i < j < |users| ==> users[i].id != users[j].id && users[i].username != users[j].username
  }

  /** `tasks.id` is the primary key. */
  predicate UniqueTaskIds(tasks: seq<Task>) {
    forall i, j :: 0 <= i < j < |tasks| ==> tasks[i].id != tasks[j].id
  }

  /** `completed_tasks.task_id` is UNIQUE. */
  predicate UniqueArchive(archive: seq<Archived>) {
    forall i, j :: 0 <= i < j < |archive| ==> archive[i].taskId != archive[j].taskId
  }

  /** Every user id was handed out before `next` (AUTOINCREMENT). */
  predicate IdsBelow(users: seq<User>, next: int) {
    forall i :: 0 <= i < |users| ==> users[i].id < next
  }

  predicate StoreValid(users: seq<User>, tasks: seq<Task>, archive: seq<Archived>, nextUserId: int) {
    UniqueUsers(users) && UniqueTaskIds(tasks) && UniqueArchive(archive) && IdsBelow(users, nextUserId)
  }

  // ----- remove_worker -----

  datatype RemoveOutcome = WorkerNotFound | Removed(name: string)

  /** `assigned_to = w AND status != 'Done'`: false when status is NULL. */
  predicate ActiveOf(t: Task, w: int) {
    t.assignedTo == Some(w) && StatusNotDone(t)
  }

  /** `assigned_to = w AND status = 'Done'`. */
  predicate DoneOf(t: Task, w: int) {
    t.assignedTo == Some(w) && StatusIs(t, "Done")
  }

  /** `DELETE FROM tasks WHERE assigned_to = w AND status != 'Done'`. */
  function DeleteActive(tasks: seq<Task>, w: int): (r: seq<Task>)
    ensures |r| <= |tasks|
    ensures forall t :: t in r <==> t in tasks && !ActiveOf(t, w)
    ensures UniqueTaskIds(tasks) ==> UniqueTaskIds(r)
  {
    if |tasks| == 0 then []
    else
      var init := tasks[..|tasks| - 1];
      var last := tasks[|tasks| - 1];
      assert tasks == init + [last];
      var rest := DeleteActive(init, w);
      assert UniqueTaskIds(tasks) ==> forall t :: t in rest ==> t.id != last.id by {
        if UniqueTaskIds(tasks) {
          forall t | t in rest ensures t.id != last.id {
            var k :| 0 <= k < |init| && init[k] == t;
            assert tasks[k] == t;
          }
        }
      }
      rest + (if ActiveOf(last, w) then [] else [last])
  }

  /** `UPDATE tasks SET assigned_to = NULL WHERE assigned_to = w AND status = 'Done'`. */
  function ClearDoneAssignee(tasks: seq<Task>, w: int): (r: seq<Task>)
    ensures |r| == |tasks|
    ensures forall i :: 0 <= i < |tasks| ==>
      r[i] == if DoneOf(tasks[i], w) then tasks[i].(assignedTo := None) else tasks[i]
  {
    seq(|tasks|, i requires 0 <= i < |tasks| =>
      if DoneOf(tasks[i], w) then tasks[i].(assignedTo := None) else tasks[i])
  }

  /** `DELETE FROM users WHERE id = w`. */
  function DeleteUser(users: seq<User>, w: int): (r: seq<User>)
    ensures |r| <= |users|
    ensures forall u :: u in r <==> u in users && u.id != w
  {
    if |users| == 0 then []
    else
      var init := users[..|users| - 1];
      var last := users[|users| - 1];
      assert users == init + [last];
      DeleteUser(init, w) + (if last.id == w then [] else [last])
  }

  /** Deleting a user keeps ids and usernames unique. */
  lemma {:induction false} DeleteUserKeepsUnique(users: seq<User>, w: int)
    requires UniqueUsers(users)
    ensures UniqueUsers(DeleteUser(users, w))
  {
    if |users| > 0 {
      var init := users[..|users| - 1];
      var last := users[|users| - 1];
      assert users == init + [last];
      assert UniqueUsers(init);
      DeleteUserKeepsUnique(init, w);
      var rest := DeleteUser(init, w);
      forall u | u in rest ensures u.id != last.id && u.username != last.username {
        var k :| 0 <= k < |init| && init[k] == u;
        assert users[k] == u;
      }
    }
  }

  /** The effect of `remove_worker(w)`: nothing when no user has id `w`;
      otherwise the worker's open tasks are deleted, their Done tasks lose
      the assignee, and the user row is deleted, in that order. */
  function RemoveWorkerResult(users: seq<User>, tasks: seq<Task>, w: int): (RemoveOutcome, seq<User>, seq<Task>) {
    var name := UsernameOf(users, w);
    if name.None? then (WorkerNotFound, users, tasks)
    else (Removed(name.value), DeleteUser(users, w), ClearDoneAssignee(DeleteActive(tasks, w), w))
  }

  /** An id that no user has leaves both tables unchanged. */
  lemma RemoveAbsentWorker(users: seq<User>, tasks: seq<Task>, w: int)
    requires forall u :: u in users ==> u.id != w
    ensures RemoveWorkerResult(users, tasks, w) == (WorkerNotFound, users, tasks)
  {
  }

  /** Removing a present worker: the user row is gone and every other user
      row stays; the reported name is the worker's username. */
  lemma RemoveWorkerUsers(users: seq<User>, tasks: seq<Task>, w: int, u: User)
    requires u in users && u.id == w && UniqueUsers(users)
    ensures var (outcome, users', _) := RemoveWorkerResult(users, tasks, w);
      && outcome == Removed(u.username)
      && UsernameOf(users', w).None?
      && (forall v :: v in users' <==> v in users && v.id != w)
  {
    var name := UsernameOf(users, w);
    var v :| v in users && v.id == w && v.username == name.value;
    var i :| 0 <= i < |users| && users[i] == u;
    var j :| 0 <= j < |users| && users[j] == v;
    assert i == j;
  }

  /** Removing a present worker from the tasks table: none of the worker's
      tasks is left assigned to them except those whose status is NULL
      (both SQL conditions are unknown there); each of their Done tasks
      stays, with `assigned_to` NULL and every other field as it was;
      tasks of anybody else are untouched; nothing new appears. */
  lemma RemoveWorkerTasks(users: seq<User>, tasks: seq<Task>, w: int)
    requires exists u :: u in users && u.id == w
    ensures var (_, _, tasks') := RemoveWorkerResult(users, tasks, w);
      && (forall t :: t in tasks' && t.assignedTo == Some(w) ==> t.status.None?)
      && (forall t :: t in tasks && DoneOf(t, w) ==> t.(assignedTo := None) in tasks')
      && (forall t :: t in tasks && t.assignedTo != Some(w) ==> t in tasks')
      && (forall t :: t in tasks' ==> t in tasks || exists s :: s in tasks && DoneOf(s, w) && t == s.(assignedTo := None))
  {
    var kept := DeleteActive(tasks, w);
    var tasks' := ClearDoneAssignee(kept, w);
    forall t | t in tasks' ensures (t.assignedTo == Some(w) ==> t.status.None?)
      && (t in tasks || exists s :: s in tasks && DoneOf(s, w) && t == s.(assignedTo := None))
    {
      var i :| 0 <= i < |tasks'| && tasks'[i] == t;
      assert kept[i] in kept;
    }
    forall t | t in tasks && DoneOf(t, w) ensures t.(assignedTo := None) in tasks' {
      assert t in kept;
      var i :| 0 <= i < |kept| && kept[i] == t;
      assert tasks'[i] == t.(assignedTo := None);
    }
    forall t | t in tasks && t.assignedTo != Some(w) ensures t in tasks' {
      assert t in kept;
      var i :| 0 <= i < |kept| && kept[i] == t;
      assert tasks'[i] == t;
    }
  }

  /** Task ids stay unique. */
  lemma RemoveWorkerKeepsIds(users: seq<User>, tasks: seq<Task>, w: int)
    requires UniqueTaskIds(tasks)
    ensures UniqueTaskIds(RemoveWorkerResult(users, tasks, w).2)
  {
    var kept := DeleteActive(tasks, w);
    var tasks' := ClearDoneAssignee(kept, w);
    assert forall i :: 0 <= i < |tasks'| ==> tasks'[i].id == kept[i].id;
  }

  // ----- update_task -----

  datatype UpdateOutcome = Updated | NoStatus | TaskNotFound

  /** `SELECT ... FROM tasks WHERE id = ?`. */
  function FindTask(tasks: seq<Task>, id: int): (r: Option<Task>)
    ensures r.Some? <==> exists t :: t in tasks && t.id == id
    ensures r.Some? ==> r.value in tasks && r.value.id == id
  {
    if |tasks| == 0 then None
    else if tasks[0].id == id then Some(tasks[0])
    else FindTask(tasks[1..], id)
  }

  /** `UPDATE tasks SET status = s WHERE id = id`. */
  function SetStatus(tasks: seq<Task>, id: int, s: string): (r: seq<Task>)
    ensures |r| == |tasks|
    ensures forall i :: 0 <= i < |tasks| ==>
      r[i] == if tasks[i].id == id then tasks[i].(status := Some(s)) else tasks[i]
  {
    seq(|tasks|, i requires 0 <= i < |tasks| =>
      if tasks[i].id == id then tasks[i].(status := Some(s)) else tasks[i])
  }

  /** The archive row for task `t` finished at `now` (the
      `CURRENT_TIMESTAMP` default, as text). */
  function Entry(t: Task, now: string): Archived {
    Archived(t.id, t.title, t.description, t.machineId, t.area, t.deadline, t.assignedTo, Some(now))
  }

  predicate IsArchived(archive: seq<Archived>, taskId: int) {
    exists i :: 0 <= i < |archive| && archive[i].taskId == taskId
  }

  /** How many archive rows carry `taskId`. */
  function ArchiveCount(archive: seq<Archived>, taskId: int): (n: nat)
    ensures n <= |archive|
    ensures n > 0 <==> IsArchived(archive, taskId)
  {
    if |archive| == 0 then 0
    else
      var init := archive[..|archive| - 1];
      assert archive == init + [archive[|archive| - 1]];
      assert IsArchived(archive, taskId) <==> IsArchived(init, taskId) || archive[|archive| - 1].taskId == taskId by {
        if IsArchived(archive, taskId) && archive[|archive| - 1].taskId != taskId {
          var i :| 0 <= i < |archive| && archive[i].taskId == taskId;
          assert init[i].taskId == taskId;
        }
        if IsArchived(init, taskId) {
          var i :| 0 <= i < |init| && init[i].taskId == taskId;
          assert archive[i].taskId == taskId;
        }
      }
      ArchiveCount(init, taskId) + (if archive[|archive| - 1].taskId == taskId then 1 else 0)
  }

  /** `SELECT 1 FROM completed_tasks WHERE task_id = ?`, then the INSERT
      only when nothing was found. */
  function ArchiveOnce(archive: seq<Archived>, t: Task, now: string): (r: seq<Archived>)
    ensures archive <= r && |r| <= |archive| + 1
    ensures IsArchived(r, t.id)
    ensures UniqueArchive(archive) ==> UniqueArchive(r)
  {
    if IsArchived(archive, t.id) then archive
    else
      var r := archive + [Entry(t, now)];
      assert r[|archive|].taskId == t.id;
      r
  }

  /** The effect of `update_task(taskId)` with form value `newStatus` at
      time `now`: nothing without a status or without the task; otherwise
      the status is written, and a Done task is archived unless it already is. */
  function UpdateTaskResult(tasks: seq<Task>, archive: seq<Archived>, taskId: int, newStatus: Option<string>, now: string)
    : (UpdateOutcome, seq<Task>, seq<Archived>)
  {
    if !Truthy(newStatus) then (NoStatus, tasks, archive)
    else
      var found := FindTask(tasks, taskId);
      if found.None? then (TaskNotFound, tasks, archive)
      else
        var s := newStatus.value;
        (Updated, SetStatus(tasks, taskId, s), if s == "Done" then ArchiveOnce(archive, found.value, now) else archive)
  }

  /** An empty or missing status, or an unknown task id, changes nothing. */
  lemma UpdateRejected(tasks: seq<Task>, archive: seq<Archived>, taskId: int, newStatus: Option<string>, now: string)
    requires !Truthy(newStatus) || forall t :: t in tasks ==> t.id != taskId
    ensures var (outcome, tasks', archive') := UpdateTaskResult(tasks, archive, taskId, newStatus, now);
      outcome != Updated && tasks' == tasks && archive' == archive
  {
  }

  /** On an existing task only that task's status changes in `tasks`. */
  lemma UpdateChangesOnlyStatus(tasks: seq<Task>, archive: seq<Archived>, taskId: int, s: string, now: string)
    requires exists t :: t in tasks && t.id == taskId
    requires s != ""
    ensures var (outcome, tasks', _) := UpdateTaskResult(tasks, archive, taskId, Some(s), now);
      && outcome == Updated && |tasks'| == |tasks|
      && (forall i :: 0 <= i < |tasks| && tasks[i].id != taskId ==> tasks'[i] == tasks[i])
      && (forall i :: 0 <= i < |tasks| && tasks[i].id == taskId ==> tasks'[i] == tasks[i].(status := Some(s)))
      && FindTask(tasks', taskId) == Some(FindTask(tasks, taskId).value.(status := Some(s)))
  {
    FindAfterSetStatus(tasks, taskId, s);
  }

  lemma {:induction false} FindAfterSetStatus(tasks: seq<Task>, id: int, s: string)
    requires FindTask(tasks, id).Some?
    ensures FindTask(SetStatus(tasks, id, s), id) == Some(FindTask(tasks, id).value.(status := Some(s)))
  {
    if tasks[0].id != id {
      FindAfterSetStatus(tasks[1..], id, s);
      assert SetStatus(tasks, id, s)[1..] == SetStatus(tasks[1..], id, s);
    }
  }

  /** The archive only ever grows, by at most one row, whatever the status. */
  lemma UpdateNeverShrinksArchive(tasks: seq<Task>, archive: seq<Archived>, taskId: int, newStatus: Option<string>, now: string)
    ensures var archive' := UpdateTaskResult(tasks, archive, taskId, newStatus, now).2;
      archive <= archive' && |archive'| <= |archive| + 1
  {
  }

  /** Setting Done on an existing task leaves exactly one archive row for
      it; a new row copies the task's fields as they were before the
      update, with the assignee as `worker_id`. */
  lemma DoneArchivesOnce(tasks: seq<Task>, archive: seq<Archived>, taskId: int, now: string)
    requires UniqueArchive(archive)
    requires exists t :: t in tasks && t.id == taskId
    ensures var archive' := UpdateTaskResult(tasks, archive, taskId, Some("Done"), now).2;
      && ArchiveCount(archive', taskId) == 1
      && (!IsArchived(archive, taskId) ==> archive' == archive + [Entry(FindTask(tasks, taskId).value, now)])
      && (IsArchived(archive, taskId) ==> archive' == archive)
  {
    var archive' := UpdateTaskResult(tasks, archive, taskId, Some("Done"), now).2;
    ArchiveCountUnique(archive', taskId);
  }

  /** With unique task ids, a task id occurs at most once. */
  lemma {:induction false} ArchiveCountUnique(archive: seq<Archived>, taskId: int)
    requires UniqueArchive(archive)
    ensures ArchiveCount(archive, taskId) <= 1
  {
    if |archive| > 0 {
      var init := archive[..|archive| - 1];
      assert UniqueArchive(init);
      ArchiveCountUnique(init, taskId);
      if archive[|archive| - 1].taskId == taskId {
        forall i | 0 <= i < |init| ensures init[i].taskId != taskId {
          assert archive[i] == init[i];
        }
      }
    }
  }

  /** A second Done update leaves the archive as the first one left it. */
  lemma DoneTwice(tasks: seq<Task>, archive: seq<Archived>, taskId: int, now1: string, now2: string)
    ensures var (_, tasks1, archive1) := UpdateTaskResult(tasks, archive, taskId, Some("Done"), now1);
      UpdateTaskResult(tasks1, archive1, taskId, Some("Done"), now2).2 == archive1
  {
    var (_, tasks1, archive1) := UpdateTaskResult(tasks, archive, taskId, Some("Done"), now1);
    if FindTask(tasks, taskId).Some? {
      FindAfterSetStatus(tasks, taskId, "Done");
    }
  }

  /** Updating keeps task ids and archive task ids unique. */
  lemma UpdateKeepsValid(tasks: seq<Task>, archive: seq<Archived>, taskId: int, newStatus: Option<string>, now: string)
    requires UniqueTaskIds(tasks) && UniqueArchive(archive)
    ensures var (_, tasks', archive') := UpdateTaskResult(tasks, archive, taskId, newStatus, now);
      UniqueTaskIds(tasks') && UniqueArchive(archive')
  {
  }

  // ----- register -----

  datatype RegisterOutcome = Registered(id: int) | MissingField | PasswordMismatch | UsernameTaken

  predicate HasUsername(users: seq<User>, name: string) {
    exists i :: 0 <= i < |users| && users[i].username == name
  }

  /** The effect of `register` on form values that may be missing, with
      `hash` standing for the password hasher and `nextId` for the next
      AUTOINCREMENT id: every field must be present and non-empty, the two
      passwords must agree, and the UNIQUE username must be new. */
  function RegisterResult(users: seq<User>, nextId: int, username: Option<string>, password: Option<string>,
                          confirm: Option<string>, role: Option<string>, hash: string -> string)
    : (RegisterOutcome, seq<User>)
  {
    if !Truthy(username) || !Truthy(password) || !Truthy(confirm) || !Truthy(role) then (MissingField, users)
    else if password.value != confirm.value then (PasswordMismatch, users)
    else if HasUsername(users, username.value) then (UsernameTaken, users)
    else (Registered(nextId), users + [User(nextId, username.value, hash(password.value), role.value, None, None, None)])
  }

  /** A user is inserted exactly when every field is filled in, the passwords
      agree and the username is new; otherwise `users` is unchanged. */
  lemma RegisterInsertsOnlyValid(users: seq<User>, nextId: int, username: Option<string>, password: Option<string>,
                                 confirm: Option<string>, role: Option<string>, hash: string -> string)
    ensures var (outcome, users') := RegisterResult(users, nextId, username, password, confirm, role, hash);
      && (outcome.Registered? <==>
            Truthy(username) && Truthy(password) && Truthy(confirm) && Truthy(role)
            && password == confirm && !HasUsername(users, username.value))
      && (!outcome.Registered? ==> users' == users)
      && (outcome.Registered? ==> |users'| == |users| + 1 && users <= users')
  {
  }

  /** A registration keeps ids and usernames unique, and the new user is
      found by its id. */
  lemma RegisterKeepsValid(users: seq<User>, nextId: int, username: Option<string>, password: Option<string>,
                           confirm: Option<string>, role: Option<string>, hash: string -> string)
    requires UniqueUsers(users) && IdsBelow(users, nextId)
    ensures var (outcome, users') := RegisterResult(users, nextId, username, password, confirm, role, hash);
      && UniqueUsers(users')
      && IdsBelow(users', if outcome.Registered? then nextId + 1 else nextId)
      && (outcome.Registered? ==> outcome.id == nextId && UsernameOf(users', nextId) == username)
  {
    var (outcome, users') := RegisterResult(users, nextId, username, password, confirm, role, hash);
    if outcome.Registered? {
      UsernameOfAppended(users, users'[|users|]);
    }
  }

  lemma {:induction false} UsernameOfAppended(users: seq<User>, u: User)
    requires forall v :: v in users ==> v.id != u.id
    ensures UsernameOf(users + [u], u.id) == Some(u.username)
  {
    if |users| > 0 {
      assert (users + [u])[1..] == users[1..] + [u];
      UsernameOfAppended(users[1..], u);
    }
  }

  /** Registering the same username twice: the second attempt is refused. */
  lemma RegisterTwice(users: seq<User>, nextId: int, name: string, password: string, role: string, hash: string -> string)
    requires name != "" && password != "" && role != ""
    ensures var (_, users1) := RegisterResult(users, nextId, Some(name), Some(password), Some(password), Some(role), hash);
      RegisterResult(users1, nextId + 1, Some(name), Some(password), Some(password), Some(role), hash).0 == UsernameTaken
  {
    var (outcome, users1) := RegisterResult(users, nextId, Some(name), Some(password), Some(password), Some(role), hash);
    if outcome.Registered? {
      assert users1[|users|].username == name;
    }
  }

  // ----- the store -----

  /** The `users`, `tasks` and `completed_tasks` tables. */
  class TaskStore {
    var users: seq<User>
    var tasks: seq<Task>
    var archive: seq<Archived>
    var nextUserId: int

    predicate Valid()
      reads this
    {
      StoreValid(users, tasks, archive, nextUserId)
    }

    constructor ()
      ensures Valid()
      ensures users == [] && tasks == [] && archive == [] && nextUserId == 1
    {
      users := [];
      tasks := [];
      archive := [];
      nextUserId := 1;
    }

    /** `remove_worker`: look the worker up, then the DELETE, the UPDATE
        and the second DELETE. */
    method RemoveWorker(workerId: int) returns (outcome: RemoveOutcome)
      requires Valid()
      modifies this
      ensures Valid()
      ensures (outcome, users, tasks) == RemoveWorkerResult(old(users), old(tasks), workerId)
      ensures archive == old(archive) && nextUserId == old(nextUserId)
    {
      var name := UsernameOf(users, workerId);
      if name.None? {
        return WorkerNotFound;
      }
      RemoveWorkerKeepsIds(users, tasks, workerId);
      DeleteUserKeepsUnique(users, workerId);
      tasks := DeleteActive(tasks, workerId);
      tasks := ClearDoneAssignee(tasks, workerId);
      users := DeleteUser(users, workerId);
      outcome := Removed(name.value);
    }

    /** `update_task`: the status UPDATE, then the check-then-insert into
        the archive when the new status is Done. */
    method UpdateTask(taskId: int, newStatus: Option<string>, now: string) returns (outcome: UpdateOutcome)
      requires Valid()
      modifies this
      ensures Valid()
      ensures (outcome, tasks, archive) == UpdateTaskResult(old(tasks), old(archive), taskId, newStatus, now)
      ensures users == old(users) && nextUserId == old(nextUserId)
    {
      if !Truthy(newStatus) {
        return NoStatus;
      }
      var task := FindTask(tasks, taskId);
      if task.None? {
        return TaskNotFound;
      }
      var status := newStatus.value;
      tasks := SetStatus(tasks, taskId, status);
      if status == "Done" {
        var alreadyThere := IsArchived(archive, taskId);
        if !alreadyThere {
          archive := archive + [Entry(task.value, now)];
        }
      }
      outcome := Updated;
    }

    /** `register`: validation, then the INSERT that the UNIQUE username
        constraint may refuse. */
    method Register(username: Option<string>, password: Option<string>, confirm: Option<string>,
                    role: Option<string>, hash: string -> string) returns (outcome: RegisterOutcome)
      requires Valid()
      modifies this
      ensures Valid()
      ensures (outcome, users) == RegisterResult(old(users), old(nextUserId), username, password, confirm, role, hash)
      ensures nextUserId == if outcome.Registered? then old(nextUserId) + 1 else old(nextUserId)
      ensures tasks == old(tasks) && archive == old(archive)
    {
      RegisterKeepsValid(users, nextUserId, username, password, confirm, role, hash);
      if !Truthy(username) || !Truthy(password) || !Truthy(confirm) || !Truthy(role) {
        return MissingField;
      }
      if password.value != confirm.value {
        return PasswordMismatch;
      }
      var hashed := hash(password.value);
      if HasUsername(users, username.value) {
        return UsernameTaken;
      }
      users := users + [User(nextUserId, username.value, hashed, role.value, None, None, None)];
      outcome := Registered(nextUserId);
      nextUserId := nextUserId + 1;
    }
  }

  /** Marking a task Done twice through the store leaves one archive row. */
  method MarkDoneTwice(store: TaskStore, taskId: int, now1: string, now2: string)
    requires store.Valid()
    requires exists t :: t in store.tasks && t.id == taskId
    modifies store
    ensures store.Valid()
    ensures ArchiveCount(store.archive, taskId) == 1
  {
    var first := store.UpdateTask(taskId, Some("Done"), now1);
    var second := store.UpdateTask(taskId, Some("Done"), now2);
    assert exists t :: t in old(store.tasks) && t.id == taskId;
    DoneArchivesOnce(old(store.tasks), old(store.archive), taskId, now1);
    DoneTwice(old(store.tasks), old(store.archive), taskId, now1, now2);
  }
}
