# Task service: a Dafny model

This project models the business-rule layer of a small task-tracking REST
API: the `TasksService` that lists, reads, creates, updates and deletes
tasks, filters them by state, changes a task's state, and computes the days
elapsed since a task was created. The service works over the task table,
whose shape and column constraints the `Task` entity declares.

- `wrappers.dfy` (module `Wrappers`): `Option`, two generic lemmas that
  pick a key out of a map (`PickKey`, `KeyOf`), and one that places a
  stored value among the map's values (`ValueOf`).
- `task_entity.dfy` (module `TaskEntity`): the `Task` row, the four-value
  `State` enum with its spellings, the table as a map from primary key to
  row, and `WellFormed`, the constraints the entity declares (rows keyed by
  their id, titles of at most 50 characters, titles unique). The store's
  check on a write (`ViolatedConstraint`) refuses exactly the writes that
  would break them.
- `http.dfy` (module `Http`): the HTTP statuses used, the exceptions, and
  `Reply`, which says how an outcome leaves an operation. The service is
  inconsistent here, and the model keeps the difference:
  `Ok` is a normal result, `ErrorValue` is an `HttpException` object that the
  operation resolves with instead of throwing (`findOne`, `create`,
  `update`, `updateTaskStatus`), and `Thrown` is a rejection.
- `tasks_service.dfy` (module `Tasks`): the request bodies after
  validation, the elapsed-days arithmetic, and the class `TasksService`. The
  class holds the table, the next key to generate and, as a ghost field,
  every key ever generated. Each service operation is a method. The
  methods that change the table state the whole new table in terms of the
  old one. Each method says which outcome each case gets, and keeps
  `Valid()`: every entity constraint holds, and no key is ever handed out
  twice.

How the code and its tests differ (the model follows the code):

- `findOne` and `update` resolve with a NOT_FOUND exception object. The
  tests expect a rejection (`src/tasks/services/tasks.service.spec.ts:85-93`,
  `:154-165`).
- `updateTaskStatus` resolves with a NOT_FOUND exception object for a
  missing row and with a CONFLICT exception object for an unchanged state.
  The tests expect rejections
  (`src/tasks/services/tasks.service.spec.ts:233-240`, `:242-251`).
- `create` resolves with a CONFLICT exception object. The test expects a
  rejection (`src/tasks/services/tasks.service.spec.ts:115-131`).
- `delete` catches its own NOT_FOUND and throws it again as
  INTERNAL_SERVER_ERROR with the same message. The test's expected object
  carries NOT_FOUND, but its assertion compares only the message, so it
  accepts the rethrow (`src/tasks/services/tasks.service.spec.ts:182-189`).
- `findByStatus` throws NOT_FOUND when no row has the state. The test
  expects an empty array (`src/tasks/services/tasks.service.spec.ts:205-215`).
- `getDaysSinceCreation` throws a plain `Error` for a missing row. The
  test's expected object is an `HttpException` with NOT_FOUND, but its
  assertion compares only the message, so it accepts the plain `Error`
  (`src/tasks/services/tasks.service.spec.ts:274-285`).
- `update` does not check that the new title is unique. In the model, the
  store's `unique` constraint on `title` refuses such a save. The outcome is
  a thrown query failure, not a CONFLICT.

Inputs the model takes as parameters: the clock (`now`, epoch milliseconds,
for `create` and `getDaysSinceCreation`) and the ISO rendering of a
timestamp (`toIso`, for `getDaysSinceCreation`).

## Model

| member | source | states |
|---|---|---|
| `TaskEntity.StateName` | src/tasks/entities/task.entity.ts:14-19 | each enum value is spelled with one of the four accepted names |
| `TaskEntity.ParseState` | src/tasks/dto/update-state.dto.ts:9 | a string is read as a state exactly when it is one of the four names, and the state read back is spelled as that string |
| `TaskEntity.StateNameRoundTrip` | src/tasks/entities/task.entity.ts:14-19 | spelling a state and reading the spelling gives back the same state |
| `TaskEntity.ViolatedConstraint` | src/tasks/entities/task.entity.ts:8 | on a well-formed table the store refuses a saved row exactly when the write would break a declared constraint; it reports TitleTooLong exactly when the title exceeds 50 characters |
| `TaskEntity.KeyedById` | src/tasks/entities/task.entity.ts:5-6 | every row is stored under its own generated primary key |
| `TaskEntity.TitlesFit` | src/tasks/entities/task.entity.ts:8 | every title fits the declared column length of 50 |
| `TaskEntity.TitlesUnique` | src/tasks/entities/task.entity.ts:8 | no two rows share a title (the `unique` constraint) |
| `TaskEntity.WellFormed` | src/tasks/entities/task.entity.ts:5-11 | the table invariant: all the constraints above hold; `TasksService.Valid` requires it and every operation keeps it |
| `TaskEntity.TitleTaken` | src/tasks/services/tasks.service.ts:26-30 | the lookup by title finds a row exactly when some stored row has that title |
| `TaskEntity.RowsListedOnce` | src/tasks/entities/task.entity.ts:5-6 | when every row is keyed by its own id, the table holds as many distinct rows as keys |
| `Tasks.CeilDiv` | src/tasks/services/tasks.service.ts:139 | the quotient rounded up: the smallest count of blocks whose total covers the dividend |
| `Tasks.PastDays` | src/tasks/services/tasks.service.ts:137-139 | the elapsed days are the ceiling of the absolute difference in milliseconds over 86 400 000, and zero exactly when the two instants are equal (so at least 1 when they differ) |
| `Tasks.PastDaysSymmetric` | src/tasks/services/tasks.service.ts:138 | swapping `now` and `createdAt` does not change the elapsed days |
| `Tasks.FirstField` | src/tasks/services/tasks.service.ts:141 | `split('T')[0]`: a prefix of the timestamp with no 'T' in it, followed in the timestamp by a 'T' or by its end |
| `Tasks.FirstFieldUnique` | src/tasks/services/tasks.service.ts:141 | that description fixes the result: any prefix with no separator that stops at one or at the end is the first field |
| `Tasks.DateOfIsoTimestamp` | src/tasks/services/tasks.service.spec.ts:260-263 | the date part of `2024-07-01T19:00:33.554Z` is `2024-07-01` |
| `Tasks.ValidUpdateBody` | src/tasks/dto/update-task.dto.ts:4-12 | an update body's title and description, when sent as strings, are non-empty; a field left out or sent as `null` passes (`@IsOptional`) |
| `Tasks.ValidStateBody` | src/tasks/dto/update-state.dto.ts:7-10 | a state-update body passes validation exactly when its state reads as one of the four states |
| `Tasks.Patched` | src/tasks/services/tasks.service.ts:49 | for a body with no `null`, `merge` replaces the title and description only when the body supplies them, and leaves the key, state and creation time as they were |
| `Tasks.PatchedIdempotent` | src/tasks/services/tasks.service.ts:49 | merging the same body twice gives the same row as merging it once |
| `Tasks.PatchedWithNothing` | src/tasks/services/tasks.service.ts:49 | a body that supplies neither field leaves the row unchanged |
| `Tasks.PatchedKeepsNonEmpty` | src/tasks/dto/update-task.dto.ts:4-12 | with validated bodies that send no `null`, a merge never empties a non-empty title or description |
| `Tasks.TasksService.constructor` | src/tasks/entities/task.entity.ts:5-6 | an empty table whose generated keys start at 1; all constraints hold |
| `Tasks.TasksService.FindAll` | src/tasks/services/tasks.service.ts:13-15 | returns exactly the stored rows, each once (as many rows as keys) |
| `Tasks.TasksService.FindOne` | src/tasks/services/tasks.service.ts:17-23 | a present key gives its stored row unchanged; an absent key resolves with a NOT_FOUND exception object; the table is not modified |
| `Tasks.TasksService.Create` | src/tasks/services/tasks.service.ts:25-38 | a title already in use resolves with a CONFLICT exception object, whatever the description, and changes nothing; a title over 50 characters is refused by the store and changes nothing; otherwise exactly one row is added, with the given title and description, state PENDING, creation time `now` and a key never issued before; other rows are unchanged and titles stay unique |
| `Tasks.TasksService.Update` | src/tasks/services/tasks.service.ts:40-51 | an absent key resolves with a NOT_FOUND exception object; a body that sends `null` for the title or description is copied onto a NOT NULL column and the save is refused, table unchanged; otherwise only the supplied title and description of that row change (id, state, creation time and all other rows stay), unless the merged row breaks a column constraint, which the store refuses with the table unchanged |
| `Tasks.TasksService.Delete` | src/tasks/services/tasks.service.ts:53-75 | an absent key throws INTERNAL_SERVER_ERROR with message 'Task not found' and changes nothing; a present key removes exactly that row and returns 'Task successfully deleted', the row as it was, and an affected count of 1 equal to the drop in row count |
| `Tasks.TasksService.FindByStatus` | src/tasks/services/tasks.service.ts:77-107 | an empty state or one outside the four names throws BAD_REQUEST; otherwise the result is exactly the rows in that state, and when there are none it throws NOT_FOUND |
| `Tasks.TasksService.UpdateTaskStatus` | src/tasks/services/tasks.service.ts:109-127 | an absent key resolves with a NOT_FOUND exception object, and a state equal to the stored one with a CONFLICT exception object, both leaving the table unchanged; otherwise only that row's state changes, to the requested one |
| `Tasks.TasksService.GetDaysSinceCreation` | src/tasks/services/tasks.service.ts:129-144 | an absent key throws a plain Error 'Task not found'; otherwise the date is the ISO timestamp's part before its first 'T' (a prefix with no 'T', followed by a 'T' or the end, which `FirstFieldUnique` shows is `FirstField(iso, 'T')`) and the days are `PastDays(now, createdAt)` |
| `Tasks.CreateThenFindOne` | src/tasks/services/tasks.service.ts:17-38 | a successful create followed by a lookup of the new key gives back the created row, with the given title and description and state PENDING |

## Left out

- The web layer: routing, dependency injection, `ParseIntPipe`, and the validation decorators. Their constraints appear only as preconditions: an update body's fields are non-empty when sent as strings (left out and `null` pass), and a state-update body's state is one of the four names.
- The controller's `toUpperCase` before `findByStatus` (src/tasks/controllers/tasks.controller.ts:49). It is Unicode case mapping in the controller, outside the service.
- The ORM's repository internals. The table is a map from key to row. `save` is the check of the declared column constraints followed by the write. `delete`'s result is reduced to its affected-row count.
- Whether a failed insert consumes a value of the key sequence. That depends on the database. The model leaves the next key unchanged, and keys are still never reused.
- TaskEntity.TitleTaken and TaskEntity.TitlesUnique: titles are compared by exact string equality. In the program both the lookup by title and the `unique` index compare under the database's collation, which may ignore case (then "task" conflicts with "Task"). Collations are not modelled.
- The length of a title is counted in characters of the model's strings. The database's own character counting is not modelled.
- The validators of the creation body are not modelled, so `Create` places no precondition on its title or description.
- Async behaviour, and the race between a check and the write that follows it when requests run concurrently.
- The wall clock and the calendar conversion in `toISOString`. Both are inputs of `getDaysSinceCreation`. Only the split at the first 'T' is modelled.
- A failure of the store's `delete` itself, which would also be re-thrown as INTERNAL_SERVER_ERROR.
- Tasks.TasksService.FindAll: returns a set of rows, not an array. The order in which the store lists rows is not modelled.
- Tasks.TasksService.FindByStatus: returns a set of rows, not an array. The order is not modelled.
- Tasks.TasksService.Update: a body that sends `null` and whose merged row would also break another constraint is reported as the NOT NULL refusal. Which violation the database names first is not modelled.
- Tasks.PastDays: uses exact integer ceiling division in place of `Math.ceil` over a floating-point quotient. The two agree for any realistic time difference.
