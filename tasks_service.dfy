/**
 * The business rules of the task service: existence checks, title
 * uniqueness on creation, redundant state updates, filtering by state and
 * the elapsed-days computation, over the task table.
 */
module Tasks {
  import opened Wrappers
  import opened TaskEntity
  import opened Http

  const TaskNotFound := "Task not found"
  const TitleConflict := "There is already a task with that title"
  const StateMissing := "State must be provided."
  const StateInvalid := "The status is not valid."
  const NoTasksWithState := "No tasks found with the provided state."
  const SameState := "The task already has that state."
  const DeletedMessage := "Task successfully deleted"

  /** Milliseconds in a day, 1000 * 60 * 60 * 24. */
  const MsPerDay: nat := 86400000

  /** Request bodies, after validation. */
  datatype CreateTaskDto = CreateTaskDto(title: string, description: string)
  datatype UpdateTaskDto = UpdateTaskDto(title: Field, description: Field)

  /**
   * A field of an update body as the validators let it through: left out,
   * sent as `null` (which `@IsOptional` lets past every other validator),
   * or sent as a string.
   */
  datatype Field = Absent | Null | Given(value: string)
  datatype UpdateStateDto = UpdateStateDto(id: int, state: string)

  /** The validators on an update body: a field sent as a string is not empty. */
  predicate ValidUpdateBody(body: UpdateTaskDto)
  {
    && (body.title.Given? ==> body.title.value != "")
    && (body.description.Given? ==> body.description.value != "")
  }

  /** The body sends `null` for a field; `merge` copies it onto a NOT NULL column. */
  predicate SendsNull(body: UpdateTaskDto)
  {
    body.title.Null? || body.description.Null?
  }

  /** The validators on a state-update body: the state is one of the enum's spellings. */
  predicate ValidStateBody(body: UpdateStateDto)
    ensures ValidStateBody(body) <==> ParseState(body.state).Some?
  {
    body.state in StateNames
  }

  /** What a successful delete returns: a message, the row as it was, and the store's affected-row count. */
  datatype DeleteResponse = DeleteResponse(message: string, task: Task, affected: nat)

  /** What the elapsed-days query returns. */
  datatype DaysPassed = DaysPassed(dateCreated: string, pastDays: nat)

  function Abs(x: int): nat
  {
    if x < 0 then -x else x
  }

  /** The least number of whole `d`-sized blocks that cover `a`. */
  function CeilDiv(a: nat, d: nat): (q: nat)
    requires d > 0
    ensures a <= q * d < a + d
  {
    (a + d - 1) / d
  }

  /**
   * Whole days, rounded up, between two instants given in epoch
   * milliseconds; the absolute difference makes the order irrelevant.
   */
  function PastDays(now: int, createdAt: int): (days: nat)
    ensures Abs(now - createdAt) <= days * MsPerDay < Abs(now - createdAt) + MsPerDay
    ensures days == 0 <==> now == createdAt
  {
    CeilDiv(Abs(now - createdAt), MsPerDay)
  }

  /** Swapping the two instants does not change the elapsed days. */
  lemma PastDaysSymmetric(now: int, createdAt: int)
    ensures PastDays(now, createdAt) == PastDays(createdAt, now)
  {
  }

  /** The part of `s` before the first `sep`, or all of `s` when it has none: `split(sep)[0]`. */
  function FirstField(s: string, sep: char): (field: string)
    ensures field <= s
    ensures sep !in field
    ensures |field| < |s| ==> s[|field|] == sep
  {
    if s == [] || s[0] == sep then [] else [s[0]] + FirstField(s[1..], sep)
  }

  /** The first field is the only prefix that holds no separator and stops at one or at the end. */
  lemma FirstFieldUnique(s: string, sep: char, k: nat)
    requires k <= |s| && sep !in s[..k] && (k < |s| ==> s[k] == sep)
    ensures FirstField(s, sep) == s[..k]
  {
  }

  /** The date part of the ISO timestamp of 2024-07-01 19:00:33.554 UTC. */
  lemma DateOfIsoTimestamp()
    ensures FirstField("2024-07-01T19:00:33.554Z", 'T') == "2024-07-01"
  {
    var iso := "2024-07-01T19:00:33.554Z";
    assert iso[..10] == "2024-07-01";
    FirstFieldUnique(iso, 'T', 10);
  }

  /**
   * The row after `merge` copies onto it the strings the update body
   * supplies: a supplied field replaces the stored one, an absent field
   * keeps it, and the key, state and creation time are untouched. A body
   * that sends `null` would put it in a column a `Task` cannot hold, so
   * `Update` deals with it before merging.
   */
  function Patched(task: Task, body: UpdateTaskDto): (r: Task)
    requires !SendsNull(body)
    ensures r.id == task.id && r.state == task.state && r.createdAt == task.createdAt
    ensures body.title.Given? ==> r.title == body.title.value
    ensures body.title.Absent? ==> r.title == task.title
    ensures body.description.Given? ==> r.description == body.description.value
    ensures body.description.Absent? ==> r.description == task.description
  {
    var title := if body.title.Given? then body.title.value else task.title;
    var description := if body.description.Given? then body.description.value else task.description;
    task.(title := title, description := description)
  }

  /** Merging the same body twice is the same as merging it once. */
  lemma PatchedIdempotent(task: Task, body: UpdateTaskDto)
    requires !SendsNull(body)
    ensures Patched(Patched(task, body), body) == Patched(task, body)
  {
  }

  /** An update body that supplies nothing leaves the row as it was. */
  lemma PatchedWithNothing(task: Task)
    ensures Patched(task, UpdateTaskDto(Absent, Absent)) == task
  {
  }

  /** Under the update validators, a merge never leaves an empty title or description where the row had none. */
  lemma PatchedKeepsNonEmpty(task: Task, body: UpdateTaskDto)
    requires ValidUpdateBody(body) && !SendsNull(body)
    requires task.title != "" && task.description != ""
    ensures Patched(task, body).title != "" && Patched(task, body).description != ""
  {
  }

  /**
   * The service over the task table. `nextId` is the key the store will
   * generate next; `issued` records every key it has ever generated, so a
   * key is never handed out twice, even after its row is deleted.
   */
  class TasksService {
    var tasks: Table
    var nextId: int
    ghost var issued: set<int>

    ghost predicate Valid()
      reads this
    {
      && WellFormed(tasks)
      && tasks.Keys <= issued
      && 1 <= nextId
      && (forall id :: id in issued ==> 1 <= id < nextId)
    }

    /** An empty table whose key sequence starts at 1. */
    constructor ()
      ensures Valid()
      ensures tasks == map[] && nextId == 1 && issued == {}
    {
      tasks := map[];
      nextId := 1;
      issued := {};
    }

    /** Every row, each once. */
    method FindAll() returns (all: set<Task>)
      requires Valid()
      ensures forall t :: t in all <==> exists id :: id in tasks && tasks[id] == t
      ensures |all| == |tasks|
    {
      all := tasks.Values;
      forall t | t in all ensures exists id :: id in tasks && tasks[id] == t {
        var id := KeyOf(tasks, t);
      }
      RowsListedOnce(tasks);
    }

    /** The row with key `id`; a missing row is handed back as a NOT_FOUND exception object, not thrown. */
    method FindOne(id: int) returns (r: Reply<Task>)
      requires Valid()
      ensures id in tasks ==> r == Ok(tasks[id]) && r.value.id == id
      ensures id !in tasks ==> r == ErrorValue(HttpException(TaskNotFound, NotFound))
    {
      if id !in tasks {
        return ErrorValue(HttpException(TaskNotFound, NotFound));
      }
      r := Ok(tasks[id]);
    }

    /**
     * Inserts a new row with the given title and description, the default
     * state, a freshly generated key and `now` as its creation time.
     * A title already in use is handed back as a CONFLICT exception object;
     * a title longer than the column is refused by the store.
     */
    method Create(body: CreateTaskDto, now: int) returns (r: Reply<Task>)
      requires Valid()
      modifies this
      ensures Valid()
      ensures TitleTaken(old(tasks), body.title) ==>
        && r == ErrorValue(HttpException(TitleConflict, Conflict))
        && tasks == old(tasks) && nextId == old(nextId) && issued == old(issued)
      ensures !TitleTaken(old(tasks), body.title) && |body.title| > MaxTitleLength ==>
        && r == Thrown(QueryFailed(TitleTooLong))
        && tasks == old(tasks) && nextId == old(nextId) && issued == old(issued)
      ensures !TitleTaken(old(tasks), body.title) && |body.title| <= MaxTitleLength ==>
        && r.Ok?
        && r.value == Task(old(nextId), body.title, body.description, DefaultState, now)
        && r.value.id !in old(issued) && r.value.id !in old(tasks)
        && tasks == old(tasks)[r.value.id := r.value]
        && issued == old(issued) + {r.value.id}
        && nextId > old(nextId)
    {
      if TitleTaken(tasks, body.title) {
        return ErrorValue(HttpException(TitleConflict, Conflict));
      }
      var row := Task(nextId, body.title, body.description, DefaultState, now);
      var violated := ViolatedConstraint(tasks, row);
      if violated.Some? {
        return Thrown(QueryFailed(violated.value));
      }
      tasks := tasks[row.id := row];
      issued := issued + {row.id};
      nextId := nextId + 1;
      r := Ok(row);
    }

    /**
     * Copies the supplied title and description onto the row with key `id`
     * and saves it. Title uniqueness is not checked here: a save that would
     * break a column constraint is refused by the store, and that includes
     * a `null` field, which `merge` copies onto a NOT NULL column.
     */
    method Update(id: int, body: UpdateTaskDto) returns (r: Reply<Task>)
      requires Valid()
      requires ValidUpdateBody(body)
      modifies this
      ensures Valid()
      ensures nextId == old(nextId) && issued == old(issued)
      ensures id !in old(tasks) ==>
        r == ErrorValue(HttpException(TaskNotFound, NotFound)) && tasks == old(tasks)
      ensures id in old(tasks) && SendsNull(body) ==>
        r == Thrown(QueryFailed(NullColumn)) && tasks == old(tasks)
      ensures id in old(tasks) && !SendsNull(body) ==>
        var before := old(tasks)[id];
        var title := if body.title.Given? then body.title.value else before.title;
        var description := if body.description.Given? then body.description.value else before.description;
        if |title| > MaxTitleLength then
          r == Thrown(QueryFailed(TitleTooLong)) && tasks == old(tasks)
        else if TitleTakenByOther(old(tasks), id, title) then
          r == Thrown(QueryFailed(DuplicateTitle)) && tasks == old(tasks)
        else
          && r.Ok?
          && r.value == Task(id, title, description, before.state, before.createdAt)
          && tasks == old(tasks)[id := r.value]
    {
      if id !in tasks {
        return ErrorValue(HttpException(TaskNotFound, NotFound));
      }
      if SendsNull(body) {
        return Thrown(QueryFailed(NullColumn));
      }
      var row := Patched(tasks[id], body);
      var violated := ViolatedConstraint(tasks, row);
      if violated.Some? {
        return Thrown(QueryFailed(violated.value));
      }
      tasks := tasks[id := row];
      r := Ok(row);
    }

    /**
     * Removes the row with key `id`, answering with the row as it was and
     * the affected-row count. The NOT_FOUND raised for a missing row is
     * caught and thrown again with the same message as INTERNAL_SERVER_ERROR.
     */
    method Delete(id: int) returns (r: Reply<DeleteResponse>)
      requires Valid()
      modifies this
      ensures Valid()
      ensures nextId == old(nextId) && issued == old(issued)
      ensures id !in old(tasks) ==>
        r == Thrown(HttpException(TaskNotFound, InternalServerError)) && tasks == old(tasks)
      ensures id in old(tasks) ==>
        && r == Ok(DeleteResponse(DeletedMessage, old(tasks)[id], 1))
        && id !in tasks
        && tasks == old(tasks) - {id}
        && |tasks| == |old(tasks)| - r.value.affected
    {
      if id !in tasks {
        return Thrown(HttpException(TaskNotFound, InternalServerError));
      }
      var snapshot := tasks[id];
      tasks := tasks - {id};
      r := Ok(DeleteResponse(DeletedMessage, snapshot, 1));
    }

    /**
     * The rows whose state is spelled `state`. An empty or unknown state is
     * a BAD_REQUEST and an empty result a NOT_FOUND, both thrown.
     */
    method FindByStatus(state: string) returns (r: Reply<set<Task>>)
      requires Valid()
      ensures state == "" ==> r == Thrown(HttpException(StateMissing, BadRequest))
      ensures state != "" && state !in StateNames ==> r == Thrown(HttpException(StateInvalid, BadRequest))
      ensures state in StateNames ==>
        if exists id :: id in tasks && StateName(tasks[id].state) == state then
          && r.Ok?
          && r.value != {}
          && forall t :: t in r.value <==> t in tasks.Values && StateName(t.state) == state
        else
          r == Thrown(HttpException(NoTasksWithState, NotFound))
    {
      if state == "" {
        return Thrown(HttpException(StateMissing, BadRequest));
      }
      if state != "PENDING" && state != "IN_PROGRESS" && state != "COMPLETED" && state != "DELETED" {
        return Thrown(HttpException(StateInvalid, BadRequest));
      }
      var found := set t | t in tasks.Values && StateName(t.state) == state;
      forall id | id in tasks && StateName(tasks[id].state) == state ensures tasks[id] in found {
        ValueOf(tasks, id);
      }
      if found == {} {
        return Thrown(HttpException(NoTasksWithState, NotFound));
      }
      ghost var some :| some in found;
      ghost var id := KeyOf(tasks, some);
      r := Ok(found);
    }

    /**
     * Sets the state of the row with key `body.id`. A missing row is handed
     * back as a NOT_FOUND exception object, and a state equal to the stored
     * one as a CONFLICT exception object.
     */
    method UpdateTaskStatus(body: UpdateStateDto) returns (r: Reply<Task>)
      requires Valid()
      requires ValidStateBody(body)
      modifies this
      ensures Valid()
      ensures nextId == old(nextId) && issued == old(issued)
      ensures body.id !in old(tasks) ==>
        r == ErrorValue(HttpException(TaskNotFound, NotFound)) && tasks == old(tasks)
      ensures body.id in old(tasks) && StateName(old(tasks)[body.id].state) == body.state ==>
        r == ErrorValue(HttpException(SameState, Conflict)) && tasks == old(tasks)
      ensures body.id in old(tasks) && StateName(old(tasks)[body.id].state) != body.state ==>
        && r.Ok?
        && r.value == old(tasks)[body.id].(state := r.value.state)
        && StateName(r.value.state) == body.state
        && tasks == old(tasks)[body.id := r.value]
    {
      if body.id !in tasks {
        return ErrorValue(HttpException(TaskNotFound, NotFound));
      }
      var row := tasks[body.id];
      if StateName(row.state) == body.state {
        return ErrorValue(HttpException(SameState, Conflict));
      }
      var state := ParseState(body.state);
      row := row.(state := state.value);
      tasks := tasks[body.id := row];
      r := Ok(row);
    }

    /**
     * The creation date (the ISO timestamp up to its 'T') and the whole days,
     * rounded up, between creation and `now`. A missing row throws a plain
     * `Error`. `now` stands for the clock and `toIso` for the timestamp's
     * ISO rendering.
     */
    method GetDaysSinceCreation(id: int, now: int, toIso: int -> string) returns (r: Reply<DaysPassed>)
      requires Valid()
      ensures id !in tasks ==> r == Thrown(PlainError(TaskNotFound))
      ensures id in tasks ==>
        && r.Ok?
        && r.value.dateCreated <= toIso(tasks[id].createdAt)
        && 'T' !in r.value.dateCreated
        && (|r.value.dateCreated| < |toIso(tasks[id].createdAt)| ==>
              toIso(tasks[id].createdAt)[|r.value.dateCreated|] == 'T')
        && r.value.pastDays == PastDays(now, tasks[id].createdAt)
    {
      if id !in tasks {
        return Thrown(PlainError(TaskNotFound));
      }
      var task := tasks[id];
      r := Ok(DaysPassed(FirstField(toIso(task.createdAt), 'T'), PastDays(now, task.createdAt)));
    }
  }

  /** Creating a task and then looking its key up gives back the created row. */
  method CreateThenFindOne(service: TasksService, body: CreateTaskDto, now: int)
    returns (created: Reply<Task>, found: Reply<Task>)
    requires service.Valid()
    requires !TitleTaken(service.tasks, body.title) && |body.title| <= MaxTitleLength
    modifies service
    ensures created.Ok? && found == created
    ensures found.value.title == body.title && found.value.description == body.description
    ensures found.value.state == Pending
  {
    created := service.Create(body, now);
    found := service.FindOne(created.value.id);
  }
}
