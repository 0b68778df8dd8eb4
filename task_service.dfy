/** The task rules of internal/tasks/application/service/task_service.go:
    validation on creation and update, ownership on every access by id. The
    clock and the new task's uuid are inputs; database failures of writes
    are oracle inputs. */
module Tasks {
  import opened Common
  import opened TaskStore

  datatype TaskError =
    | InvalidTitle
    | TaskNotFound
    | Unauthorized
    | InvalidDueDate
    | InvalidDates
    | StoreFailed(cause: DbError)

  /** The creation checks, in order: a title, a due date not in the past,
      a start not after the due date. A zero date skips the checks on it. */
  function CreateCheck(title: string, startsAt: Time, dueDate: Time, now: Time): (e: Option<TaskError>)
    ensures title == "" ==> e == Some(InvalidTitle)
    ensures title != "" && !IsZero(dueDate) && dueDate < now ==> e == Some(InvalidDueDate)
    ensures e == Some(InvalidDates) <==>
      && title != "" && (IsZero(dueDate) || dueDate >= now)
      && !IsZero(startsAt) && !IsZero(dueDate) && startsAt > dueDate
    ensures e.None? <==>
      && title != ""
      && (IsZero(dueDate) || now <= dueDate)
      && (IsZero(startsAt) || IsZero(dueDate) || startsAt <= dueDate)
  {
    if title == "" then Some(InvalidTitle)
    else if !IsZero(dueDate) && dueDate < now then Some(InvalidDueDate)
    else if !IsZero(startsAt) && !IsZero(dueDate) && startsAt > dueDate then Some(InvalidDates)
    else None
  }

  /** Unset dates never block creation, whatever the clock says. */
  lemma UnsetDatesAccepted(title: string, now: Time, startsAt: Time)
    requires title != ""
    ensures CreateCheck(title, ZeroTime, ZeroTime, now).None?
    ensures CreateCheck(title, startsAt, ZeroTime, now).None?
  {
  }

  /** The task `UpdateTask` writes: identity, owner and creation time from
      the stored row, every other field from the request, the clock as the
      update time. */
  function Merged(existing: TaskRow, updated: Task, now: Time): (t: Task)
    ensures t.id == existing.id && t.userId == existing.userId && t.createdAt == existing.createdAt
    ensures t.updatedAt == now
    ensures t.(id := updated.id, userId := updated.userId, createdAt := updated.createdAt,
               updatedAt := updated.updatedAt) == updated
  {
    updated.(id := existing.id, userId := existing.userId, createdAt := existing.createdAt, updatedAt := now)
  }

  /** The task `ChangeStatus` writes back: the row as `FindByID` reads it, so
      with status and priority 0, then the new status and the clock. */
  function StatusChanged(existing: TaskRow, statusId: int, now: Time): (t: Task)
    ensures t.statusId == statusId && t.priorityId == 0 && t.updatedAt == now
    ensures t.id == existing.id && t.userId == existing.userId && t.title == existing.title
  {
    FromRowById(existing).(statusId := statusId, updatedAt := now)
  }

  /** The task `ChangePriority` writes back, with status 0. */
  function PriorityChanged(existing: TaskRow, priorityId: int, now: Time): (t: Task)
    ensures t.priorityId == priorityId && t.statusId == 0 && t.updatedAt == now
    ensures t.id == existing.id && t.userId == existing.userId && t.title == existing.title
  {
    FromRowById(existing).(priorityId := priorityId, updatedAt := now)
  }

  class TaskService {
    const tasks: TaskRepository

    constructor (tasks: TaskRepository)
      ensures this.tasks == tasks
    {
      this.tasks := tasks;
    }

    /** `CreateTask`: the checks, then a new task with no completion date,
        created and updated now; a store error is passed on. */
    method CreateTask(title: string, description: string, statusId: int, priorityId: int,
                      startsAt: Time, dueDate: Time, userId: string, now: Time, id: string)
      returns (r: Result<Task, TaskError>)
      requires tasks.Valid()
      modifies tasks
      ensures tasks.Valid()
      ensures CreateCheck(title, startsAt, dueDate, now).Some? ==>
        r == Err(CreateCheck(title, startsAt, dueDate, now).value) && tasks.rows == old(tasks.rows)
      ensures CreateCheck(title, startsAt, dueDate, now).None? ==>
        (r.Ok? <==> RowOf(old(tasks.rows), id).None?)
      ensures r.Ok? ==>
        && r.value == Task(id, userId, title, description, statusId, priorityId,
                           startsAt, dueDate, ZeroTime, now, now)
        && tasks.rows == old(tasks.rows) + [ToRow(r.value)]
      ensures r.Err? ==> tasks.rows == old(tasks.rows)
    {
      var check := CreateCheck(title, startsAt, dueDate, now);
      if check.Some? {
        return Err(check.value);
      }
      var task := Task(id, userId, title, description, statusId, priorityId,
                       startsAt, dueDate, ZeroTime, now, now);
      var err := tasks.Create(task);
      if err.Some? {
        return Err(StoreFailed(err.value));
      }
      r := Ok(task);
    }

    /** `GetTasksByUserID`: the user's tasks, straight from the repository. */
    method GetTasksByUserID(userId: string) returns (ts: seq<Task>)
      ensures forall t :: t in ts <==> exists row :: row in tasks.rows && row.userId == userId && t == FromRow(row)
    {
      ts := tasks.FindByUserID(userId);
    }

    /** `GetTaskByID`: a missing task, then a task of someone else, are
        refused; the caller's own task is returned as `FindByID` reads it. */
    function GetTaskByID(id: string, userId: string): (r: Result<Task, TaskError>)
      reads tasks
      ensures r == Err(TaskNotFound) <==> RowOf(tasks.rows, id).None?
      ensures r == Err(Unauthorized) <==> RowOf(tasks.rows, id).Some? && RowOf(tasks.rows, id).value.userId != userId
      ensures r.Ok? ==> r.value.userId == userId && r.value == FromRowById(RowOf(tasks.rows, id).value)
    {
      match tasks.FindByID(id)
      case Err(_) => Err(TaskNotFound)
      case Ok(task) => if task.userId != userId then Err(Unauthorized) else Ok(task)
    }

    /** `UpdateTask`: existence, then ownership, then a title, then the due
        date against the task's creation time; then the merged task is saved. */
    method UpdateTask(updated: Task, userId: string, now: Time, fault: Option<DbError>)
      returns (r: Result<Task, TaskError>)
      requires tasks.Valid()
      modifies tasks
      ensures tasks.Valid()
      ensures RowOf(old(tasks.rows), updated.id).None? ==> r == Err(TaskNotFound)
      ensures RowOf(old(tasks.rows), updated.id).Some? ==>
        var existing := RowOf(old(tasks.rows), updated.id).value;
        && (existing.userId != userId ==> r == Err(Unauthorized))
        && (existing.userId == userId && updated.title == "" ==> r == Err(InvalidTitle))
        && ((existing.userId == userId && updated.title != "" && !IsZero(updated.dueDate) &&
             updated.dueDate < existing.createdAt) ==> r == Err(InvalidDueDate))
        && ((existing.userId == userId && updated.title != "" &&
             (IsZero(updated.dueDate) || existing.createdAt <= updated.dueDate)) ==>
              if fault.Some? then r == Err(StoreFailed(fault.value))
              else r == Ok(Merged(existing, updated, now)) &&
                   tasks.rows == Upserted(old(tasks.rows), ToRow(r.value)))
      ensures r.Err? ==> tasks.rows == old(tasks.rows)
    {
      var found := tasks.FindByID(updated.id);
      if found.Err? {
        return Err(TaskNotFound);
      }
      var existing := found.value;
      if existing.userId != userId {
        return Err(Unauthorized);
      }
      if updated.title == "" {
        return Err(InvalidTitle);
      }
      if !IsZero(updated.dueDate) && updated.dueDate < existing.createdAt {
        return Err(InvalidDueDate);
      }
      var response := updated.(id := existing.id, userId := existing.userId,
                               createdAt := existing.createdAt, updatedAt := now);
      var err := tasks.Update(response, fault);
      if err.Some? {
        return Err(StoreFailed(err.value));
      }
      r := Ok(response);
    }

    /** `DeleteTask`: only the owner deletes, and only the one task. */
    method DeleteTask(id: string, userId: string, fault: Option<DbError>) returns (err: Option<TaskError>)
      requires tasks.Valid()
      modifies tasks
      ensures tasks.Valid()
      ensures RowOf(old(tasks.rows), id).None? ==> err == Some(TaskNotFound)
      ensures RowOf(old(tasks.rows), id).Some? && RowOf(old(tasks.rows), id).value.userId != userId ==>
        err == Some(Unauthorized)
      ensures err.None? <==>
        RowOf(old(tasks.rows), id).Some? && RowOf(old(tasks.rows), id).value.userId == userId && fault.None?
      ensures err.None? ==> forall row :: row in tasks.rows <==> row in old(tasks.rows) && row.id != id
      ensures err.Some? ==> tasks.rows == old(tasks.rows)
    {
      var found := tasks.FindByID(id);
      if found.Err? {
        return Some(TaskNotFound);
      }
      if found.value.userId != userId {
        return Some(Unauthorized);
      }
      var e := tasks.Delete(id, fault);
      if e.Some? {
        return Some(StoreFailed(e.value));
      }
      err := None;
    }

    /** `ChangeStatus`: after the same checks, the task as `FindByID` read it
        is saved with the new status and the clock. */
    method ChangeStatus(taskId: string, userId: string, statusId: int, now: Time, fault: Option<DbError>)
      returns (err: Option<TaskError>)
      requires tasks.Valid()
      modifies tasks
      ensures tasks.Valid()
      ensures RowOf(old(tasks.rows), taskId).None? ==> err == Some(TaskNotFound)
      ensures RowOf(old(tasks.rows), taskId).Some? && RowOf(old(tasks.rows), taskId).value.userId != userId ==>
        err == Some(Unauthorized)
      ensures err.None? <==>
        RowOf(old(tasks.rows), taskId).Some? && RowOf(old(tasks.rows), taskId).value.userId == userId && fault.None?
      ensures err.None? ==>
        tasks.rows == Upserted(old(tasks.rows), ToRow(StatusChanged(RowOf(old(tasks.rows), taskId).value, statusId, now)))
      ensures err.Some? ==> tasks.rows == old(tasks.rows)
    {
      var found := tasks.FindByID(taskId);
      if found.Err? {
        return Some(TaskNotFound);
      }
      var task := found.value;
      if task.userId != userId {
        return Some(Unauthorized);
      }
      task := task.(statusId := statusId, updatedAt := now);
      var e := tasks.Update(task, fault);
      if e.Some? {
        return Some(StoreFailed(e.value));
      }
      err := None;
    }

    /** `ChangePriority`: the same, for the priority. */
    method ChangePriority(taskId: string, userId: string, priorityId: int, now: Time, fault: Option<DbError>)
      returns (err: Option<TaskError>)
      requires tasks.Valid()
      modifies tasks
      ensures tasks.Valid()
      ensures RowOf(old(tasks.rows), taskId).None? ==> err == Some(TaskNotFound)
      ensures RowOf(old(tasks.rows), taskId).Some? && RowOf(old(tasks.rows), taskId).value.userId != userId ==>
        err == Some(Unauthorized)
      ensures err.None? <==>
        RowOf(old(tasks.rows), taskId).Some? && RowOf(old(tasks.rows), taskId).value.userId == userId && fault.None?
      ensures err.None? ==>
        tasks.rows == Upserted(old(tasks.rows), ToRow(PriorityChanged(RowOf(old(tasks.rows), taskId).value, priorityId, now)))
      ensures err.Some? ==> tasks.rows == old(tasks.rows)
    {
      var found := tasks.FindByID(taskId);
      if found.Err? {
        return Some(TaskNotFound);
      }
      var task := found.value;
      if task.userId != userId {
        return Some(Unauthorized);
      }
      task := task.(priorityId := priorityId, updatedAt := now);
      var e := tasks.Update(task, fault);
      if e.Some? {
        return Some(StoreFailed(e.value));
      }
      err := None;
    }
  }

  /** Changing a task's status through the service stores priority 0 for it,
      and changing its priority stores status 0; no other task is touched.
      The repository's own column update, by contrast, keeps the other column. */
  lemma ServiceChangesZeroTheOtherColumn(rows: seq<TaskRow>, existing: TaskRow, value: int, now: Time)
    requires Keyed(rows) && existing in rows
    ensures RowOf(Upserted(rows, ToRow(StatusChanged(existing, value, now))), existing.id).value.priorityId == 0
    ensures RowOf(Upserted(rows, ToRow(PriorityChanged(existing, value, now))), existing.id).value.statusId == 0
    ensures RowOf(WithColumn(rows, existing.id, StatusSetter(value, now)), existing.id).value.priorityId ==
      existing.priorityId
    ensures forall id :: id != existing.id ==>
      RowOf(Upserted(rows, ToRow(StatusChanged(existing, value, now))), id) == RowOf(rows, id)
  {
    RowOfKeyed(rows, existing);
    ColumnUpdateIsLocal(rows, existing.id, value, now, existing.id + "/");
  }
}
