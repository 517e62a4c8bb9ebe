# Task management core, modelled in Dafny

This project models the in-memory task service of a Spring task-management application. It has three parts:

- **The store** (`TaskRepositoryImpl`). It keeps a map from id to task object plus an id counter that starts at 1.
- **The task manager** (`TaskServiceImpl`). It checks ids and payloads in a fixed order, defaults a missing status to TODO, merges update payloads into stored tasks, and calls the store.
- **The `Task` entity and `TaskStatus`.** A task has an id, a title, a description, a status and two timestamps. Its setters refresh `updatedAt`, and equality compares ids only.

The model is imperative where the code is:

- `Task` is a class whose setters update its fields.
- The store is a class holding a `map<nat, Task>` of task references and a `nat` counter.
- The service is a class over a store.

Each state-changing method states its new state through two ghost views:

- `Task.View()`, a value of every field at one moment;
- `TaskRepository.Snapshot()`, the store's contents as values.

Each method also keeps a class invariant:

- `Valid`: every task is filed under its own id.
- `IdsIssued`: every key lies in `[1, nextId)`.
- `Serviceable`: the store is valid, ids were issued by the counter, and every stored task passed validation.

Exceptions become values:

- `IllegalArgumentException(msg)` is `InvalidArgument(msg)`.
- `TaskNotFoundException(id)` is `NotFound(id)`.
- Operations that return a value give a `Result`; operations that return nothing give an `Outcome`.

The exact messages are constants in `Service`, `Repository` and `Errors`.

Two pieces of `java.lang` behaviour are modelled because the core depends on them:

- `String.trim`, which strips every leading and trailing char at or below U+0020. It decides whether a title is blank.
- `Long.toString`, which renders the id inside the not-found message.

The wall clock is replaced by a logical time `now: nat` that the caller passes in.

Files:

- `wrappers.dfy`: `Option`.
- `text.dfy`: trim, blankness, decimal rendering.
- `errors.dfy`: failures and their messages.
- `model.dfy`: `Status`, `TaskView`, the `Task` class.
- `repository.dfy`: the store.
- `service.dfy`: validation, merge, and the service.

### Behaviours of the code worth knowing

The model follows what the code does. The first two points depart from the intent of the merge's own comments, "Update title if provided" and "Update status if provided" (TaskServiceImpl.java:205, 213).

- **An update without a status resets the status to TODO.** Validation defaults a null status to TODO on the payload itself (TaskServiceImpl.java:182-185). The merge then sees a non-null status and applies it (214-216). `Service.TaskService.UpdateTask` states that the new status is `DefaultStatus(old payload status)`. So an update that carries a title but no status does not keep the old status.
- **An update needs a title.** Validation rejects a null or blank title before the merge runs. So the merge's "replace the title only if it is non-blank" branch always replaces it, and an update payload that carries only a status is rejected with "Task title is required". `Service.UpdateTaskFields` models the merge with its guard. `Service.TaskService.UpdateTask` states the net effect: the title is always replaced.
- **`save` does not set `createdAt`.** It assigns an id when there is none and refreshes only `updatedAt`. `createdAt` keeps the value from the task's field initialiser or its constructor.
- **`updateTask` sets `updatedAt` to the time of the call.** It increases strictly only when the clock has advanced since the last change.

## Model

| member | source | states |
|---|---|---|
| Text.TrimStartKeepsSuffix | src/main/java/com/cloudnova/taskmanagement/service/impl/TaskServiceImpl.java:167 | The leading part of `trim`: the result is a suffix of the input that is empty or starts with a char above U+0020, and every char removed is at or below U+0020 |
| Text.TrimEndKeepsPrefix | src/main/java/com/cloudnova/taskmanagement/service/impl/TaskServiceImpl.java:167 | The trailing part of `trim`: the result is a prefix of the input that is empty or ends with a char above U+0020, and every char removed is at or below U+0020 |
| Text.BlankIffAllTrimmable | src/main/java/com/cloudnova/taskmanagement/service/impl/TaskServiceImpl.java:167 | `s.trim().isEmpty()` holds exactly when every char of `s` is at or below U+0020 (both directions) |
| Text.Digits | src/main/java/com/cloudnova/taskmanagement/exception/TaskNotFoundException.java:14 | The decimal rendering of a non-negative id is non-empty, consists of digits only, is a single digit exactly when the value is below 10, and has no leading zero (it starts with '0' only for zero itself) |
| Text.DigitsRoundTrip | src/main/java/com/cloudnova/taskmanagement/exception/TaskNotFoundException.java:14 | Reading the rendered digits back gives the number: the rendering is the inverse of decimal reading |
| Text.NegativeDecimal | src/main/java/com/cloudnova/taskmanagement/exception/TaskNotFoundException.java:14 | The rendering of a long starts with '-' exactly when it is negative, and the rest is the digits of its magnitude |
| Text.MagnitudeDetermined | src/main/java/com/cloudnova/taskmanagement/exception/TaskNotFoundException.java:14 | Two non-negative numbers with the same digits are equal |
| Text.DecimalInjective | src/main/java/com/cloudnova/taskmanagement/exception/TaskNotFoundException.java:14 | Distinct longs render to distinct strings |
| Errors.Message | src/main/java/com/cloudnova/taskmanagement/exception/TaskNotFoundException.java:13-15 | An invalid-argument failure carries its own message; a not-found message is the prefix "Task not found with id: " followed by a non-empty rendering of the id |
| Errors.NotFoundMessageNamesId | src/main/java/com/cloudnova/taskmanagement/exception/TaskNotFoundException.java:13-15 | Two not-found messages are equal only if their ids are, so the message identifies the missing id |
| Model.DisplayNameInjective | src/main/java/com/cloudnova/taskmanagement/model/TaskStatus.java:12-16 | The three statuses carry pairwise different display names |
| Model.Task.constructor | src/main/java/com/cloudnova/taskmanagement/model/Task.java:21-34 | A task made with no arguments has no id, title or description, status TODO, and both timestamps equal to the creation time |
| Model.Task.WithText | src/main/java/com/cloudnova/taskmanagement/model/Task.java:36-40 | The (title, description) constructor sets those two fields, has no id and status TODO, and stamps both timestamps with the creation time |
| Model.Task.WithStatus | src/main/java/com/cloudnova/taskmanagement/model/Task.java:43-48 | The (title, description, status) constructor stores the given status as is, null included, with no id and both timestamps at creation time |
| Model.Task.WithAll | src/main/java/com/cloudnova/taskmanagement/model/Task.java:17 | The all-arguments constructor stores every field, timestamps included, exactly as given |
| Model.Task.SetId | src/main/java/com/cloudnova/taskmanagement/model/Task.java:15 | The generated id setter changes the id and nothing else; it does not refresh updatedAt |
| Model.Task.SetTitle | src/main/java/com/cloudnova/taskmanagement/model/Task.java:50-53 | Only the title and updatedAt change; updatedAt becomes the call time; createdAt <= updatedAt is kept when time does not go back |
| Model.Task.SetDescription | src/main/java/com/cloudnova/taskmanagement/model/Task.java:55-58 | Only the description and updatedAt change; updatedAt becomes the call time; createdAt <= updatedAt is kept when time does not go back |
| Model.Task.SetStatus | src/main/java/com/cloudnova/taskmanagement/model/Task.java:60-63 | Only the status and updatedAt change; updatedAt becomes the call time; createdAt <= updatedAt is kept when time does not go back |
| Model.Task.Touch | src/main/java/com/cloudnova/taskmanagement/model/Task.java:66-68 | Only updatedAt changes, to the call time; createdAt <= updatedAt is kept when time does not go back |
| Model.Task.Equals | src/main/java/com/cloudnova/taskmanagement/model/Task.java:18 | A task equals another exactly when the other is non-null and has the same id (two unset ids count as equal), whatever the other fields hold |
| Model.EqualsIsEquivalence | src/main/java/com/cloudnova/taskmanagement/model/Task.java:18 | Id-only equality is reflexive, symmetric and transitive |
| Repository.TaskRepository.constructor | src/main/java/com/cloudnova/taskmanagement/repository/impl/TaskRepositoryImpl.java:23-26 | A new store is empty with its counter at 1, and satisfies both store invariants |
| Repository.TaskRepository.FindAll | src/main/java/com/cloudnova/taskmanagement/repository/impl/TaskRepositoryImpl.java:29-32 | The list has as many elements as the store has entries, contains every stored task, contains nothing else, and in a valid store lists no task twice |
| Repository.TaskRepository.FindById | src/main/java/com/cloudnova/taskmanagement/repository/impl/TaskRepositoryImpl.java:35-50 | Finds a task exactly when the id is non-null and a key of the store, and then it is the task stored under that key; a null id finds nothing |
| Repository.TaskRepository.FoundTaskHasId | src/main/java/com/cloudnova/taskmanagement/repository/impl/TaskRepositoryImpl.java:42-49 | In a valid store the task found under an id carries that id |
| Repository.TaskRepository.ExistsById | src/main/java/com/cloudnova/taskmanagement/repository/impl/TaskRepositoryImpl.java:93-101 | Presence agrees with lookup: true exactly when FindById finds a task, so false for a null id |
| Repository.TaskRepository.Count | src/main/java/com/cloudnova/taskmanagement/repository/impl/TaskRepositoryImpl.java:121-125 | The count is the number of stored ids, and zero exactly when the store is empty. FindAll returns that many tasks, CreateTask raises it by one, DeleteTask lowers it by one, and DeleteAllTasks leaves it at zero |
| Repository.TaskRepository.GenerateId | src/main/java/com/cloudnova/taskmanagement/repository/impl/TaskRepositoryImpl.java:135-137 | Returns the counter's current value and advances it by one |
| Repository.TaskRepository.Save | src/main/java/com/cloudnova/taskmanagement/repository/impl/TaskRepositoryImpl.java:53-75 | A null task fails with "Task cannot be null" and changes nothing. A task without an id receives the counter value, and the counter advances. A task with an id keeps it, and the counter stays. Either way only updatedAt is refreshed, the entry at its id is replaced by it and no other entry changes, and FindById/ExistsById then find it. A generated id was not yet a key when every key was issued by the counter. The key invariant is preserved, and so is the issued-ids invariant when a preset id was already a key |
| Repository.TaskRepository.DeleteById | src/main/java/com/cloudnova/taskmanagement/repository/impl/TaskRepositoryImpl.java:78-90 | Removes exactly the given key and nothing else; a null or absent id changes nothing; the counter is unchanged and the id is no longer found |
| Repository.TaskRepository.FindByStatus | src/main/java/com/cloudnova/taskmanagement/repository/impl/TaskRepositoryImpl.java:104-118 | A null status gives an empty list; otherwise a stored task is listed exactly when its status equals the given one, nothing unstored is listed, and in a valid store no task appears twice |
| Repository.TaskRepository.DeleteAll | src/main/java/com/cloudnova/taskmanagement/repository/impl/TaskRepositoryImpl.java:128-133 | The store is left empty with its counter back at 1, so the next new task gets id 1 |
| Service.ValidateId | src/main/java/com/cloudnova/taskmanagement/service/impl/TaskServiceImpl.java:125-134 | Passes exactly for a present, positive id; null fails with "Task ID cannot be null" before sign is looked at, and a non-positive id fails with "Task ID must be positive" |
| Service.CheckFields | src/main/java/com/cloudnova/taskmanagement/service/impl/TaskServiceImpl.java:166-180 | Passes exactly when the title is present, has a char above U+0020, is at most 100 long, and the description is absent or at most 500 long. Otherwise the first failing check in source order decides the message |
| Service.ValidateTaskFields | src/main/java/com/cloudnova/taskmanagement/service/impl/TaskServiceImpl.java:166-186 | The outcome is that of the field checks on the payload as given. Only when they pass and the payload has no status, the payload's status becomes TODO (and updatedAt the call time); otherwise the payload is unchanged |
| Service.ValidateStatus | src/main/java/com/cloudnova/taskmanagement/service/impl/TaskServiceImpl.java:192-197 | Passes exactly for a present status; null fails with "Task status cannot be null" |
| Service.UpdateTaskFields | src/main/java/com/cloudnova/taskmanagement/service/impl/TaskServiceImpl.java:204-219 | The title is replaced only by a present, non-blank one; the description is always replaced, null included; the status is replaced only by a present one; updatedAt becomes the call time; id and createdAt stay |
| Service.TaskService.constructor | src/main/java/com/cloudnova/taskmanagement/service/impl/TaskServiceImpl.java:19-23 | The service wraps the store it is given and starts out satisfying the service invariant |
| Service.TaskService.GetAllTasks | src/main/java/com/cloudnova/taskmanagement/service/impl/TaskServiceImpl.java:25-31 | Returns every stored task, and only stored tasks, as many as there are entries, each listed once while the service invariant holds |
| Service.TaskService.GetTaskById | src/main/java/com/cloudnova/taskmanagement/service/impl/TaskServiceImpl.java:32-42 | An invalid id fails with the id-check message; a valid id that is not stored fails with NotFound(id); it succeeds exactly for a positive stored id, with the task stored there |
| Service.TaskService.CreateTask | src/main/java/com/cloudnova/taskmanagement/service/impl/TaskServiceImpl.java:44-59 | Null fails with "Task cannot be null". Otherwise it succeeds exactly when the fields pass, and a failure carries the first failing check's message and changes neither the store nor the payload. On success the payload itself is stored under the counter value, whatever id it carried; that id was not yet in use; the status is the payload's or TODO; the counter and the count grow by one; the new task is found by id; and the service invariant is kept |
| Service.TaskService.StoreNew | src/main/java/com/cloudnova/taskmanagement/service/impl/TaskServiceImpl.java:51-55 | Clearing the id and saving gives a validated payload the counter value as a fresh id and adds exactly that entry |
| Service.TaskService.UpdateTask | src/main/java/com/cloudnova/taskmanagement/service/impl/TaskServiceImpl.java:61-78 | Failures come in order: the id check, a null payload ("Task update data cannot be null"), the field checks, then NotFound(id). It succeeds exactly when all pass and the id is stored. Keys and counter never change, and no failure changes the store. On success the stored task keeps its id and createdAt, takes the payload's title and description, takes the payload's status or TODO if it had none, and is the only entry that changes. On success or NotFound, a payload that is not itself a stored task has been changed in place by validation: a missing status became TODO and updatedAt the call time; on any other failure it is unchanged |
| Service.TaskService.MergeAndSave | src/main/java/com/cloudnova/taskmanagement/service/impl/TaskServiceImpl.java:70-77 | Merging a validated payload into the stored task and saving it again changes exactly that entry and keeps the keys, the counter and the service invariant |
| Service.TaskService.DeleteTask | src/main/java/com/cloudnova/taskmanagement/service/impl/TaskServiceImpl.java:80-93 | An invalid id fails with the id-check message; an absent id fails with NotFound(id); it succeeds exactly for a positive stored id. Failures change nothing. Success removes exactly that entry, the count drops by one, and a later lookup fails with NotFound(id) |
| Service.TaskService.GetTasksByStatus | src/main/java/com/cloudnova/taskmanagement/service/impl/TaskServiceImpl.java:95-103 | A null status fails with "Task status cannot be null"; otherwise it succeeds with exactly the stored tasks of that status, each listed once while the service invariant holds |
| Service.TaskService.GetTaskCount | src/main/java/com/cloudnova/taskmanagement/service/impl/TaskServiceImpl.java:105-111 | Passes the store's count through: the number of stored ids, zero exactly when the store is empty. DeleteAllTasks leaves it at zero, and CreateAfterReset leaves it at one |
| Service.TaskService.DeleteAllTasks | src/main/java/com/cloudnova/taskmanagement/service/impl/TaskServiceImpl.java:113-119 | The store ends empty with its counter at 1, the count is 0, and the service invariant is kept |
| Service.CreateAfterReset | src/main/java/com/cloudnova/taskmanagement/service/impl/TaskServiceImpl.java:113-119 | After clearing everything, creating a valid task stores it as the only task, under id 1 |

## Left out

- Concurrency: `ConcurrentHashMap`, `AtomicLong` and races between a check and the action after it. Operations run one at a time.
- Logging: every log call is dropped.
- `getStatistics` (TaskRepositoryImpl.java:142-150): a monitoring helper that returns an untyped map of counters.
- `getTaskCountByStatus` (TaskRepositoryImpl.java:156-162): an optional monitoring helper returning a count per status, which no core operation uses.
- The Bean Validation annotations on `Task` (`@NotBlank`, `@Size`, `@NotNull`): the framework applies them before the service runs; only the service's own checks are modelled.
- `TaskController.java`, `GlobalExceptionHandler.java`, `ErrorResponse.java` and `ValidationErrorResponse.java` are not part of this model. They cover HTTP routing and translating exceptions into responses.
- Lombok's generated `hashCode`, `toString` and getters: getters are plain field reads. Equality against objects that are not tasks is not modelled.
- The wall clock: `LocalDateTime.now()` becomes the `now` argument, so the model does not guarantee that time never goes backwards.
- Overflow of the `Long` counter: ids are unbounded naturals.
- Negative ids on a task: task ids are naturals, and lookups and deletes take any integer but find nothing for a negative one. The service only ever stores ids the counter issued. A create clears the payload's id before saving (TaskServiceImpl.java:52), and an update re-saves a task that is already stored (TaskServiceImpl.java:74); `IdsIssued` inside `Serviceable` records this. A direct `save` of a task whose preset id is negative cannot be represented. Java files such a task under its negative key, and `findById` then finds it.
- String lengths count chars. Java counts UTF-16 units, so a character outside the Basic Multilingual Plane counts once here but twice in the title and description limits.
- The order of the lists returned by `findAll` and `findByStatus` is left open, as the hash map's iteration order is.
- Service.TaskService.UpdateTask: does not state what a payload becomes when it is itself the stored task, because the merge then writes into the payload as well.
- Service.TaskService.CreateTask: requires that the payload object is not already stored. Creating from a task object that is itself stored would refile the same object under a second key and break the one-id-per-entry invariant; the model does not cover that aliasing.
- Service.TaskService.constructor: requires the store it is given to satisfy the service invariant (a new store does); the code assumes the same, since only the service writes to the store.
- `createdAt <= updatedAt` is not a store invariant. The all-arguments constructor and a deserialised payload can carry any timestamps. The setters keep it only when time does not go backwards, and the model states exactly that.
