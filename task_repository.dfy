/** The task table and the repository calls the task service issues against
    it (query builder, `findOneBy`, `delete`, `save`), as pure functions over
    an in-memory table keyed by task id. */
module TaskRepository {
  import opened SqlText

  type TaskId = nat
  type UserId = nat

  /** The authenticated caller; rows refer to users by identity (`id`). */
  datatype User = User(id: UserId, username: string)

  datatype TaskStatus = Open | InProgress | Done

  /** The string value each status carries, as the store and the query
      string see it. */
  function StatusName(s: TaskStatus): (name: string)
    ensures name != ""
    ensures name == "OPEN" <==> s == Open
  {
    match s
    case Open => "OPEN"
    case InProgress => "IN_PROGRESS"
    case Done => "DONE"
  }

  datatype Task = Task(id: TaskId, title: string, description: string, status: TaskStatus, owner: UserId)

  datatype Option<T> = None | Some(value: T)

  /** The query parameters of a task listing; either may be absent. */
  datatype GetTasksFilter = GetTasksFilter(status: Option<string>, search: Option<string>)

  const NoFilter := GetTasksFilter(None, None)

  type Table = map<TaskId, Task>

  /** Every row is stored under its own primary key. */
  predicate WellKeyed(table: Table) {
    forall id :: id in table ==> table[id].id == id
  }

  /** An optional query parameter that passes JavaScript's truthiness test:
      present and not the empty string. */
  predicate Given(o: Option<string>) {
    o.Some? && o.value != ""
  }

  predicate OwnedBy(t: Task, user: User) {
    t.owner == user.id
  }

  predicate HasStatus(t: Task, name: string) {
    StatusName(t.status) == name
  }

  /** `LOWER(title) LIKE LOWER('%term%') OR LOWER(description) LIKE LOWER('%term%')`. */
  predicate MentionsTerm(t: Task, term: string) {
    var p := Lower(term);
    Contains(Lower(t.title), p) || Contains(Lower(t.description), p)
  }

  /** A task belongs to the listing for this filter and caller: it is the
      caller's, and it passes every filter that was given. */
  predicate Matches(t: Task, filter: GetTasksFilter, user: User) {
    && OwnedBy(t, user)
    && (Given(filter.status) ==> HasStatus(t, filter.status.value))
    && (Given(filter.search) ==> MentionsTerm(t, filter.search.value))
  }

  /** The query the listing builds: restrict to the caller's rows, then
      narrow by status and by search term when each is given. The result is
      exactly the rows that match (sound and complete). */
  function Query(table: Table, filter: GetTasksFilter, user: User): (r: set<Task>)
    ensures forall t :: t in r <==> t in table.Values && Matches(t, filter, user)
  {
    var owned := set t | t in table.Values && OwnedBy(t, user);
    var byStatus :=
      if Given(filter.status) then set t | t in owned && HasStatus(t, filter.status.value)
      else owned;
    if Given(filter.search) then set t | t in byStatus && MentionsTerm(t, filter.search.value)
    else byStatus
  }

  /** `findOneBy({ id, user })`: the row with this id and this owner, if any. */
  function FindOneBy(table: Table, id: TaskId, user: User): (r: Option<Task>)
    requires WellKeyed(table)
    ensures r.Some? <==> exists t :: t in table.Values && t.id == id && OwnedBy(t, user)
    ensures r.Some? ==> r.value in table.Values && r.value.id == id && OwnedBy(r.value, user)
  {
    if id in table && OwnedBy(table[id], user) then Some(table[id]) else None
  }

  /** What `delete` reports: the table afterwards and the number of rows affected. */
  datatype DeleteResult = DeleteResult(table: Table, affected: nat)

  /** `delete({ id, user })`: removes every row with this id and this owner
      and keeps every other row. */
  function DeleteBy(table: Table, id: TaskId, user: User): (r: DeleteResult)
    requires WellKeyed(table)
    ensures WellKeyed(r.table)
    ensures forall t :: t in r.table.Values <==> t in table.Values && !(t.id == id && OwnedBy(t, user))
    ensures r.affected == |table| - |r.table|
    ensures r.affected <= 1
  {
    if id in table && OwnedBy(table[id], user) then
      var rest := table - {id};
      assert rest.Keys == table.Keys - {id};
      RemoveKeepsOtherRows(table, id);
      DeleteResult(rest, 1)
    else
      DeleteResult(table, 0)
  }

  /** `save(task)`: writes the row under its primary key, inserting it or
      replacing the row stored under the same id, and keeps every other row. */
  function Save(table: Table, t: Task): (r: Table)
    requires WellKeyed(table)
    ensures WellKeyed(r)
    ensures forall u :: u in r.Values <==> u == t || (u in table.Values && u.id != t.id)
  {
    SaveReplacesOneRow(table, t);
    table[t.id := t]
  }

  lemma RemoveKeepsOtherRows(table: Table, id: TaskId)
    requires WellKeyed(table) && id in table
    ensures forall t :: t in (table - {id}).Values <==> t in table.Values && t.id != id
  {
    var rest := table - {id};
    forall t | t in table.Values && t.id != id
      ensures t in rest.Values
    {
      var k :| k in table && table[k] == t;
      assert k in rest && rest[k] == t;
    }
  }

  lemma SaveReplacesOneRow(table: Table, t: Task)
    requires WellKeyed(table)
    ensures forall u :: u in table[t.id := t].Values <==> u == t || (u in table.Values && u.id != t.id)
  {
    var r := table[t.id := t];
    assert r[t.id] == t;
    forall u | u in table.Values && u.id != t.id
      ensures u in r.Values
    {
      var k :| k in table && table[k] == u;
      assert k in r && r[k] == u;
    }
  }
}
