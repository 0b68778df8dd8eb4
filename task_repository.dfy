/** The `tasks` table of
    internal/tasks/infrastructure/persistence/gorm/task_repository_gorm.go.
    The domain task carries plain instants (the zero instant meaning "not
    set"); the table stores the three optional dates as nullable columns. */
module TaskStore {
  import opened Common
  import opened Deref

  datatype Task = Task(
    id: string,
    userId: string,
    title: string,
    description: string,
    statusId: int,
    priorityId: int,
    startsAt: Time,
    dueDate: Time,
    completedAt: Time,
    createdAt: Time,
    updatedAt: Time)

  datatype TaskRow = TaskRow(
    id: string,
    userId: string,
    title: string,
    description: string,
    statusId: int,
    priorityId: int,
    startsAt: Option<Time>,
    dueDate: Option<Time>,
    completedAt: Option<Time>,
    createdAt: Time,
    updatedAt: Time)

  /** The row `Create` and `Update` write: every date column is filled, the
      zero instant included. */
  function ToRow(t: Task): (row: TaskRow)
    ensures row.startsAt == Some(t.startsAt) && row.dueDate == Some(t.dueDate)
    ensures row.completedAt == Some(t.completedAt)
    ensures row.id == t.id && row.userId == t.userId && row.statusId == t.statusId
    ensures row.priorityId == t.priorityId
  {
    TaskRow(t.id, t.userId, t.title, t.description, t.statusId, t.priorityId,
            Some(t.startsAt), Some(t.dueDate), Some(t.completedAt), t.createdAt, t.updatedAt)
  }

  /** The task `FindByUserID` builds from a row: every column, a null date
      read as the zero instant. */
  function FromRow(row: TaskRow): (t: Task)
    ensures t.id == row.id && t.userId == row.userId && t.statusId == row.statusId
    ensures t.priorityId == row.priorityId
    ensures row.dueDate.None? ==> IsZero(t.dueDate)
    ensures row.startsAt.None? ==> IsZero(t.startsAt)
    ensures row.completedAt.None? ==> IsZero(t.completedAt)
  {
    Task(row.id, row.userId, row.title, row.description, row.statusId, row.priorityId,
         DerefTime(row.startsAt), DerefTime(row.dueDate), DerefTime(row.completedAt),
         row.createdAt, row.updatedAt)
  }

  /** The task `FindByID` builds from a row: the same, except that the status
      and priority columns are not copied and read as 0. */
  function FromRowById(row: TaskRow): (t: Task)
    ensures t.statusId == 0 && t.priorityId == 0
    ensures t.(statusId := row.statusId, priorityId := row.priorityId) == FromRow(row)
  {
    Task(row.id, row.userId, row.title, row.description, 0, 0,
         DerefTime(row.startsAt), DerefTime(row.dueDate), DerefTime(row.completedAt),
         row.createdAt, row.updatedAt)
  }

  /** A task written and listed again is the same task, zero dates included. */
  lemma RowRoundTrip(t: Task)
    ensures FromRow(ToRow(t)) == t
  {
  }

  /** Each row as a task, in order: the copying loop of `FindByUserID`. */
  function TasksOf(rows: seq<TaskRow>): (ts: seq<Task>)
    ensures |ts| == |rows|
    ensures forall i :: 0 <= i < |rows| ==> ts[i] == FromRow(rows[i])
  {
    if rows == [] then [] else [FromRow(rows[0])] + TasksOf(rows[1..])
  }

  /** `WHERE user_id = ?`. */
  function UserSel(userId: string): TaskRow -> bool {
    (row: TaskRow) => row.userId == userId
  }

  function OtherIdSel(id: string): TaskRow -> bool {
    (row: TaskRow) => row.id != id
  }

  /** The primary key: no two rows share an id. */
  ghost predicate Keyed(rows: seq<TaskRow>) {
    forall i, j :: 0 <= i < j < |rows| ==> rows[i].id != rows[j].id
  }

  /** The row with that id, if any. */
  function RowOf(rows: seq<TaskRow>, id: string): (r: Option<TaskRow>)
    ensures r.None? <==> forall row :: row in rows ==> row.id != id
    ensures r.Some? ==> r.value in rows && r.value.id == id
  {
    if rows == [] then None
    else if rows[0].id == id then Some(rows[0])
    else RowOf(rows[1..], id)
  }

  /** In a keyed table, the row with an id is the only one. */
  lemma RowOfKeyed(rows: seq<TaskRow>, row: TaskRow)
    requires Keyed(rows) && row in rows
    ensures RowOf(rows, row.id) == Some(row)
  {
    var i :| 0 <= i < |rows| && rows[i] == row;
    var found := RowOf(rows, row.id).value;
    var j :| 0 <= j < |rows| && rows[j] == found;
  }

  /** GORM's `Save` on a keyed row: overwrite the row with that id, or insert
      it when there is none. */
  function Upserted(rows: seq<TaskRow>, row: TaskRow): (r: seq<TaskRow>)
    ensures RowOf(r, row.id) == Some(row)
    ensures forall id :: id != row.id ==> RowOf(r, id) == RowOf(rows, id)
    ensures |r| == |rows| || |r| == |rows| + 1
    ensures forall x :: x in r ==> x == row || x in rows
  {
    if rows == [] then [row]
    else if rows[0].id == row.id then [row] + rows[1..]
    else [rows[0]] + Upserted(rows[1..], row)
  }

  /** Upserting keeps the key. */
  lemma {:induction false} UpsertedKeyed(rows: seq<TaskRow>, row: TaskRow)
    requires Keyed(rows)
    ensures Keyed(Upserted(rows, row))
  {
    if rows != [] && rows[0].id != row.id {
      UpsertedKeyed(rows[1..], row);
      var r := Upserted(rows, row);
      forall j | 0 < j < |r|
        ensures r[0].id != r[j].id
      {
        assert r[j] in Upserted(rows[1..], row);
        if r[j] != row {
          var k :| 0 <= k < |rows[1..]| && rows[1..][k] == r[j];
          assert rows[k + 1] == r[j];
        }
      }
    }
  }

  /** Every row with that id gets the value in one column, and the update
      time GORM stamps on every column update. */
  function WithColumn(rows: seq<TaskRow>, id: string, change: TaskRow -> TaskRow): (r: seq<TaskRow>)
    ensures |r| == |rows|
    ensures forall i :: 0 <= i < |rows| ==> r[i] == if rows[i].id == id then change(rows[i]) else rows[i]
  {
    if rows == [] then [] else [if rows[0].id == id then change(rows[0]) else rows[0]] + WithColumn(rows[1..], id, change)
  }

  function StatusSetter(statusId: int, now: Time): TaskRow -> TaskRow {
    (row: TaskRow) => row.(statusId := statusId, updatedAt := now)
  }

  function PrioritySetter(priorityId: int, now: Time): TaskRow -> TaskRow {
    (row: TaskRow) => row.(priorityId := priorityId, updatedAt := now)
  }

  class TaskRepository {
    var rows: seq<TaskRow>

    ghost predicate Valid()
      reads this
    {
      Keyed(rows)
    }

    constructor ()
      ensures Valid() && rows == []
    {
      rows := [];
    }

    /** `Create`: insert the task's row; the primary key refuses an id already stored. */
    method Create(task: Task) returns (err: Option<DbError>)
      requires Valid()
      modifies this
      ensures Valid()
      ensures err.None? <==> RowOf(old(rows), task.id).None?
      ensures err.None? ==> rows == old(rows) + [ToRow(task)]
      ensures err.Some? ==> rows == old(rows) && err == Some(DuplicateKey("tasks"))
    {
      if RowOf(rows, task.id).Some? {
        err := Some(DuplicateKey("tasks"));
      } else {
        rows := rows + [ToRow(task)];
        err := None;
      }
    }

    /** `FindByUserID`: select the user's rows, then copy each into a task. */
    method FindByUserID(userId: string) returns (tasks: seq<Task>)
      ensures tasks == TasksOf(Filter(rows, UserSel(userId)))
      ensures forall t :: t in tasks <==> exists row :: row in rows && row.userId == userId && t == FromRow(row)
    {
      var models := Filter(rows, UserSel(userId));
      tasks := [];
      for i := 0 to |models|
        invariant |tasks| == i
        invariant forall k :: 0 <= k < i ==> tasks[k] == FromRow(models[k])
      {
        var tm := models[i];
        tasks := tasks + [FromRow(tm)];
      }
      ListedAreTheUsers(rows, userId);
    }

    /** `FindByID`: the row with that id, without its status and priority; a
        missing row is `RecordNotFound`. */
    function FindByID(id: string): (r: Result<Task, DbError>)
      reads this
      ensures r.Err? <==> forall row :: row in rows ==> row.id != id
      ensures r.Err? ==> r.error == RecordNotFound
      ensures r.Ok? ==> exists row :: row in rows && row.id == id && r.value == FromRowById(row)
    {
      match RowOf(rows, id)
      case None => Err(RecordNotFound)
      case Some(row) => Ok(FromRowById(row))
    }

    /** `Update`: GORM's `Save` writes every column of the task's row, or
        inserts the row when its id is not stored; a failing write changes nothing. */
    method Update(task: Task, fault: Option<DbError>) returns (err: Option<DbError>)
      requires Valid()
      modifies this
      ensures Valid()
      ensures err == fault
      ensures fault.None? ==> rows == Upserted(old(rows), ToRow(task))
      ensures fault.Some? ==> rows == old(rows)
    {
      if fault.Some? {
        return fault;
      }
      UpsertedKeyed(rows, ToRow(task));
      rows := Upserted(rows, ToRow(task));
      err := None;
    }

    /** `Delete`: the row with that id goes, every other row stays; an unknown
        id deletes nothing. */
    method Delete(id: string, fault: Option<DbError>) returns (err: Option<DbError>)
      requires Valid()
      modifies this
      ensures Valid()
      ensures err == fault
      ensures fault.None? ==> rows == Filter(old(rows), OtherIdSel(id))
      ensures fault.None? ==> forall row :: row in rows <==> row in old(rows) && row.id != id
      ensures fault.Some? ==> rows == old(rows)
    {
      if fault.Some? {
        return fault;
      }
      FilterKeyed(rows, OtherIdSel(id));
      rows := Filter(rows, OtherIdSel(id));
      err := None;
    }

    /** `ChangeStatus`: set the status column of the row with that id; GORM
        stamps its update time. */
    method ChangeStatus(taskId: string, statusId: int, now: Time, fault: Option<DbError>)
      returns (err: Option<DbError>)
      requires Valid()
      modifies this
      ensures Valid()
      ensures err == fault
      ensures fault.None? ==> rows == WithColumn(old(rows), taskId, StatusSetter(statusId, now))
      ensures fault.Some? ==> rows == old(rows)
    {
      if fault.Some? {
        return fault;
      }
      rows := WithColumn(rows, taskId, StatusSetter(statusId, now));
      err := None;
    }

    /** `ChangePriority`: the same for the priority column. */
    method ChangePriority(taskId: string, priorityId: int, now: Time, fault: Option<DbError>)
      returns (err: Option<DbError>)
      requires Valid()
      modifies this
      ensures Valid()
      ensures err == fault
      ensures fault.None? ==> rows == WithColumn(old(rows), taskId, PrioritySetter(priorityId, now))
      ensures fault.Some? ==> rows == old(rows)
    {
      if fault.Some? {
        return fault;
      }
      rows := WithColumn(rows, taskId, PrioritySetter(priorityId, now));
      err := None;
    }
  }

  lemma {:induction false} TasksOfAppend(a: seq<TaskRow>, b: seq<TaskRow>)
    ensures TasksOf(a + b) == TasksOf(a) + TasksOf(b)
  {
    if a == [] {
      assert a + b == b;
    } else {
      assert (a + b)[1..] == a[1..] + b;
      TasksOfAppend(a[1..], b);
    }
  }

  /** Deleting rows keeps the key. */
  lemma {:induction false} FilterKeyed(rows: seq<TaskRow>, p: TaskRow -> bool)
    requires Keyed(rows)
    ensures Keyed(Filter(rows, p))
  {
    if rows != [] {
      FilterKeyed(rows[1..], p);
      var rest := Filter(rows[1..], p);
      if p(rows[0]) {
        var r := [rows[0]] + rest;
        assert Filter(rows, p) == r;
        forall j | 0 < j < |r|
          ensures r[0].id != r[j].id
        {
          assert r[j] in rest;
          var k :| 0 <= k < |rows[1..]| && rows[1..][k] == r[j];
          assert rows[k + 1] == r[j];
        }
      }
    }
  }

  /** The listed tasks are the user's rows, each read as a task. */
  lemma ListedAreTheUsers(rows: seq<TaskRow>, userId: string)
    ensures forall t :: t in TasksOf(Filter(rows, UserSel(userId))) <==>
      exists row :: row in rows && row.userId == userId && t == FromRow(row)
  {
    var models := Filter(rows, UserSel(userId));
    var tasks := TasksOf(models);
    forall t | t in tasks
      ensures exists row :: row in rows && row.userId == userId && t == FromRow(row)
    {
      var i :| 0 <= i < |tasks| && tasks[i] == t;
      assert models[i] in models;
    }
    forall row | row in rows && row.userId == userId
      ensures FromRow(row) in tasks
    {
      assert row in models;
      var i :| 0 <= i < |models| && models[i] == row;
      assert tasks[i] == FromRow(row);
    }
  }

  /** A created task is listed for its user, exactly as created, after the
      user's earlier tasks. */
  lemma CreatedTaskIsListed(rows: seq<TaskRow>, t: Task)
    ensures TasksOf(Filter(rows + [ToRow(t)], UserSel(t.userId))) ==
      TasksOf(Filter(rows, UserSel(t.userId))) + [t]
  {
    FilterAppend(rows, [ToRow(t)], UserSel(t.userId));
    TasksOfAppend(Filter(rows, UserSel(t.userId)), [ToRow(t)]);
    RowRoundTrip(t);
  }

  /** The column updates touch the one row with that id and, in it, only the
      one column and the update time. */
  lemma ColumnUpdateIsLocal(rows: seq<TaskRow>, id: string, statusId: int, now: Time, other: string)
    requires other != id
    ensures RowOf(WithColumn(rows, id, StatusSetter(statusId, now)), other) == RowOf(rows, other)
    ensures RowOf(rows, id).Some? ==>
      RowOf(WithColumn(rows, id, StatusSetter(statusId, now)), id) ==
        Some(RowOf(rows, id).value.(statusId := statusId, updatedAt := now))
  {
    if rows != [] {
      ColumnUpdateIsLocal(rows[1..], id, statusId, now, other);
      assert WithColumn(rows, id, StatusSetter(statusId, now))[1..] ==
        WithColumn(rows[1..], id, StatusSetter(statusId, now));
    }
  }
}
