/** Rows of the work-order store: the `users` and `tasks` tables, the
    deployed schema variant, and the nullable values SQL hands back. */
module Records {

  /** A nullable column value (SQL NULL is `None`). */
  datatype Option<T> = None | Some(value: T) {
    predicate IsFailure() { None? }

    function PropagateFailure<U>(): Option<U>
      requires None?
    {
      None
    }

    function Extract(): T
      requires Some?
    {
      value
    }
  }

  /** A row of `users`. `passwordHash` is whatever the password hasher produced. */
  datatype User = User(
    id: int,
    username: string,
    passwordHash: string,
    role: string,
    email: Option<string>,
    phone: Option<string>,
    profilePic: Option<string>)

  /** A row of `tasks`. Every text column is nullable; `createdAt` and
      `completedAt` only exist in the extended schema variant and are
      read only when the schema descriptor says they exist. */
  datatype Task = Task(
    id: int,
    title: Option<string>,
    description: Option<string>,
    machineId: Option<string>,
    area: Option<string>,
    deadline: Option<string>,
    assignedTo: Option<int>,
    status: Option<string>,
    createdAt: Option<string>,
    completedAt: Option<string>)

  /** Which optional columns the deployed `tasks` table has. */
  datatype Schema = Schema(hasCreatedAt: bool, hasCompletedAt: bool)

  /** Python truthiness of an optional string: `None` and `""` are falsy. */
  predicate Truthy(s: Option<string>) {
    s.Some? && s.value != ""
  }

  /** SQL `status = '<s>'`: false when status is NULL. */
  predicate StatusIs(t: Task, s: string) {
    t.status == Some(s)
  }

  /** SQL `status != 'Done'`: unknown (so false) when status is NULL. */
  predicate StatusNotDone(t: Task) {
    t.status.Some? && t.status.value != "Done"
  }

  /** The username of the user with primary key `id`, if any (a LEFT JOIN). */
  function UsernameOf(users: seq<User>, id: int): (r: Option<string>)
    ensures r.Some? <==> exists u :: u in users && u.id == id
    ensures r.Some? ==> exists u :: u in users && u.id == id && u.username == r.value
  {
    if |users| == 0 then None
    else if users[0].id == id then Some(users[0].username)
    else UsernameOf(users[1..], id)
  }
}
