/**
 * The task manager: validates its inputs in a fixed order, then calls the
 * store. Every failure is returned as a value instead of being thrown.
 */
module Service {
  import opened Wrappers
  import opened Errors
  import opened Text
  import opened Model
  import opened Repository

  const IdNullMessage := "Task ID cannot be null"
  const IdNotPositiveMessage := "Task ID must be positive"
  const CreateNullMessage := "Task cannot be null"
  const UpdateNullMessage := "Task update data cannot be null"
  const TitleRequiredMessage := "Task title is required"
  const TitleTooLongMessage := "Task title must not exceed 100 characters"
  const DescriptionTooLongMessage := "Task description must not exceed 500 characters"
  const StatusNullMessage := "Task status cannot be null"

  const MaxTitleLength := 100
  const MaxDescriptionLength := 500

  /** An id is usable when it is present and positive; null is reported before sign. */
  function ValidateId(id: Option<int>): (r: Outcome)
    ensures r == Pass <==> id.Some? && id.value > 0
    ensures id.None? ==> r == Fail(InvalidArgument(IdNullMessage))
    ensures id.Some? && id.value <= 0 ==> r == Fail(InvalidArgument(IdNotPositiveMessage))
  {
    if id.None? then Fail(InvalidArgument(IdNullMessage))
    else if id.value <= 0 then Fail(InvalidArgument(IdNotPositiveMessage))
    else Pass
  }

  /**
   * What a create or update payload must satisfy: a title holding at least
   * one char that trim would keep, at most 100 chars long, and a description
   * of at most 500 chars when there is one.
   */
  predicate AcceptableFields(title: Option<string>, description: Option<string>) {
    && title.Some?
    && (exists i :: 0 <= i < |title.value| && !IsTrimmable(title.value[i]))
    && |title.value| <= MaxTitleLength
    && (description.Some? ==> |description.value| <= MaxDescriptionLength)
  }

  /**
   * The checks on title and description, in the order they run: the first
   * one that fails decides the message.
   */
  function CheckFields(title: Option<string>, description: Option<string>): (r: Outcome)
    ensures r == Pass <==> AcceptableFields(title, description)
    ensures title.None? || IsBlank(title.value) ==> r == Fail(InvalidArgument(TitleRequiredMessage))
    ensures title.Some? && !IsBlank(title.value) && |title.value| > MaxTitleLength ==>
      r == Fail(InvalidArgument(TitleTooLongMessage))
    ensures title.Some? && !IsBlank(title.value) && |title.value| <= MaxTitleLength &&
            description.Some? && |description.value| > MaxDescriptionLength ==>
      r == Fail(InvalidArgument(DescriptionTooLongMessage))
  {
    if title.None? then Fail(InvalidArgument(TitleRequiredMessage))
    else
      BlankIffAllTrimmable(title.value);
      if IsBlank(title.value) then Fail(InvalidArgument(TitleRequiredMessage))
      else if |title.value| > MaxTitleLength then Fail(InvalidArgument(TitleTooLongMessage))
      else if description.Some? && |description.value| > MaxDescriptionLength then
        Fail(InvalidArgument(DescriptionTooLongMessage))
      else Pass
  }

  /** A status filter must be present. */
  function ValidateStatus(status: Option<Status>): (r: Outcome)
    ensures r == Pass <==> status.Some?
    ensures status.None? ==> r == Fail(InvalidArgument(StatusNullMessage))
  {
    if status.None? then Fail(InvalidArgument(StatusNullMessage)) else Pass
  }

  /** The status a validated payload carries: its own, or TODO when it had none. */
  function DefaultStatus(s: Option<Status>): Status {
    if s.None? then Todo else s.value
  }

  /** A task as it stands after passing validation. */
  predicate WellFormed(v: TaskView) {
    AcceptableFields(v.title, v.description) && v.status.Some?
  }

  /**
   * What the service keeps true of its store between calls: the store is
   * consistent, every key came from the counter, and every stored task
   * passed validation.
   */
  ghost predicate Serviceable(repo: TaskRepository)
    reads repo, repo.tasks.Values
  {
    && repo.Valid()
    && repo.IdsIssued()
    && forall k :: k in repo.tasks ==> WellFormed(repo.tasks[k].View())
  }

  /**
   * Checks a payload's title and description and, only when both pass,
   * defaults a missing status to TODO on the payload itself.
   */
  method ValidateTaskFields(task: Task, now: nat) returns (r: Outcome)
    modifies task
    ensures r == CheckFields(old(task.title), old(task.description))
    ensures r.Fail? || old(task.status).Some? ==> task.View() == old(task.View())
    ensures r.Pass? && old(task.status).None? ==>
      task.View() == old(task.View()).(status := Some(Todo), updatedAt := now)
  {
    r := CheckFields(task.title, task.description);
    if r.Pass? && task.status.None? {
      task.SetStatus(Some(Todo), now);
    }
  }

  /**
   * Merges an update payload into a task: the title only when the payload's
   * is non-blank, the description always (null included), the status only
   * when the payload has one. Each setter refreshes updatedAt.
   */
  method UpdateTaskFields(existing: Task, update: Task, now: nat)
    modifies existing
    ensures existing.View() == old(existing.View()).(
      title := if old(update.title).Some? && !IsBlank(old(update.title).value)
               then old(update.title) else old(existing.title),
      description := old(update.description),
      status := if old(update.status).Some? then old(update.status) else old(existing.status),
      updatedAt := now)
  {
    if update.title.Some? && !IsBlank(update.title.value) {
      existing.SetTitle(update.title, now);
    }
    existing.SetDescription(update.description, now);
    if update.status.Some? {
      existing.SetStatus(update.status, now);
    }
  }

  class TaskService {
    const repo: TaskRepository

    ghost predicate Valid()
      reads this, repo, repo.tasks.Values
    {
      Serviceable(repo)
    }

    constructor (repo: TaskRepository)
      requires Serviceable(repo)
      ensures this.repo == repo && Valid()
    {
      this.repo := repo;
    }

    method GetAllTasks() returns (r: seq<Task>)
      ensures |r| == repo.Count()
      ensures forall k :: k in repo.tasks ==> repo.tasks[k] in r
      ensures forall i :: 0 <= i < |r| ==> r[i] in repo.tasks.Values
      ensures Valid() ==> forall i, j :: 0 <= i < j < |r| ==> r[i] != r[j]
    {
      r := repo.FindAll();
    }

    /** The stored task with this id, after the id itself has been checked. */
    function GetTaskById(id: Option<int>): (r: Result<Task>)
      reads this, repo
      ensures ValidateId(id).Fail? ==> r == Err(ValidateId(id).failure)
      ensures ValidateId(id).Pass? && !repo.Stored(id.value) ==> r == Err(NotFound(id.value))
      ensures r.Ok? <==> id.Some? && id.value > 0 && repo.Stored(id.value)
      ensures r.Ok? ==> r.value == repo.tasks[id.value]
    {
      match ValidateId(id)
      case Fail(f) => Err(f)
      case Pass =>
        match repo.FindById(id)
        case Some(t) => Ok(t)
        case None => Err(NotFound(id.value))
    }

    /**
     * Validates a new task and stores it under a fresh id, whatever id it
     * carried. The payload object itself becomes the stored task.
     */
    method CreateTask(payload: Task?, now: nat) returns (r: Result<Task>)
      requires Valid()
      requires payload == null || payload !in repo.tasks.Values
      modifies repo, payload
      ensures Valid()
      ensures payload == null ==> r == Err(InvalidArgument(CreateNullMessage))
      ensures payload != null ==> (r.Ok? <==> AcceptableFields(old(payload.title), old(payload.description)))
      ensures payload != null && r.Err? ==>
        && r == Err(CheckFields(old(payload.title), old(payload.description)).failure)
        && payload.View() == old(payload.View())
      ensures r.Err? ==> repo.tasks == old(repo.tasks) && repo.nextId == old(repo.nextId)
      ensures payload != null && r.Ok? ==>
        && r.value == payload
        && payload.View() == old(payload.View()).(id := Some(old(repo.nextId)),
                                                   status := Some(DefaultStatus(old(payload.status))),
                                                   updatedAt := now)
        && old(repo.nextId) !in old(repo.tasks)
        && repo.tasks == old(repo.tasks)[old(repo.nextId) := payload]
        && repo.Snapshot() == old(repo.Snapshot())[old(repo.nextId) := payload.View()]
        && repo.nextId == old(repo.nextId) + 1
        && repo.Count() == old(repo.Count()) + 1
        && GetTaskById(Some(old(repo.nextId))) == Ok(payload)
    {
      if payload == null {
        return Err(InvalidArgument(CreateNullMessage));
      }
      var v := ValidateTaskFields(payload, now);
      if v.Fail? {
        return Err(v.failure);
      }
      assert repo.Snapshot() == old(repo.Snapshot());
      r := StoreNew(payload, now);
    }

    /** The tail of a create: drop whatever id the validated payload carried and save it as new. */
    method StoreNew(payload: Task, now: nat) returns (r: Result<Task>)
      requires Valid()
      requires payload !in repo.tasks.Values
      requires WellFormed(payload.View())
      modifies repo, payload
      ensures Valid()
      ensures r == Ok(payload)
      ensures payload.View() == old(payload.View()).(id := Some(old(repo.nextId)), updatedAt := now)
      ensures old(repo.nextId) !in old(repo.tasks)
      ensures repo.tasks == old(repo.tasks)[old(repo.nextId) := payload]
      ensures repo.Snapshot() == old(repo.Snapshot())[old(repo.nextId) := payload.View()]
      ensures repo.nextId == old(repo.nextId) + 1
    {
      payload.SetId(None);
      ghost var contents1 := repo.Snapshot();
      assert contents1 == old(repo.Snapshot());
      r := repo.Save(payload, now);
    }

    /**
     * Validates the id and the payload, then merges the payload into the
     * stored task and saves it again under the same id. Because validation
     * already rejected a blank title and defaulted a missing status, the
     * title is always replaced and a payload without status resets it to TODO.
     */
    method UpdateTask(id: Option<int>, payload: Task?, now: nat) returns (r: Result<Task>)
      requires Valid()
      modifies repo, repo.tasks.Values, payload
      ensures Valid()
      ensures ValidateId(id).Fail? ==> r == Err(ValidateId(id).failure)
      ensures ValidateId(id).Pass? && payload == null ==> r == Err(InvalidArgument(UpdateNullMessage))
      ensures ValidateId(id).Pass? && payload != null &&
              CheckFields(old(payload.title), old(payload.description)).Fail? ==>
        r == Err(CheckFields(old(payload.title), old(payload.description)).failure)
      ensures ValidateId(id).Pass? && payload != null &&
              AcceptableFields(old(payload.title), old(payload.description)) &&
              !old(repo.Stored(id.value)) ==>
        r == Err(NotFound(id.value))
      ensures r.Ok? <==> && ValidateId(id).Pass? && payload != null
                          && AcceptableFields(old(payload.title), old(payload.description))
                          && old(repo.Stored(id.value))
      ensures repo.tasks == old(repo.tasks) && repo.nextId == old(repo.nextId)
      ensures r.Err? ==> repo.Snapshot() == old(repo.Snapshot())
      ensures payload != null && r.Err? && !r.failure.NotFound? ==> payload.View() == old(payload.View())
      ensures payload != null && (r.Ok? || r.failure.NotFound?) && payload !in old(repo.tasks.Values) ==>
        payload.View() == if old(payload.status).None?
                          then old(payload.View()).(status := Some(Todo), updatedAt := now)
                          else old(payload.View())
      ensures payload != null && r.Ok? ==>
        && id.Some? && r.value in old(repo.tasks.Values) && r.value.id == Some(id.value as nat)
        && r.value.View() == old(r.value.View()).(title := old(payload.title),
                                                   description := old(payload.description),
                                                   status := Some(DefaultStatus(old(payload.status))),
                                                   updatedAt := now)
        && repo.Snapshot() == old(repo.Snapshot())[id.value as nat := r.value.View()]
    {
      var check := ValidateId(id);
      if check.Fail? {
        return Err(check.failure);
      }
      if payload == null {
        return Err(InvalidArgument(UpdateNullMessage));
      }
      var v := ValidateTaskFields(payload, now);
      if v.Fail? {
        return Err(v.failure);
      }
      assert repo.Snapshot() == old(repo.Snapshot());
      var found := GetTaskById(id);
      if found.Err? {
        return found;
      }
      BlankIffAllTrimmable(old(payload.title).value);
      r := MergeAndSave(id.value, found.value, payload, now);
    }

    /** The tail of an update: merge the validated payload into the stored task, then save it. */
    method MergeAndSave(key: nat, existing: Task, payload: Task, now: nat) returns (r: Result<Task>)
      requires Valid()
      requires key in repo.tasks && repo.tasks[key] == existing
      requires payload.title.Some? && !IsBlank(payload.title.value) && payload.status.Some?
      requires WellFormed(payload.View())
      modifies repo, existing
      ensures Valid()
      ensures r == Ok(existing)
      ensures repo.tasks == old(repo.tasks) && repo.nextId == old(repo.nextId)
      ensures existing.View() == old(existing.View()).(title := old(payload.title),
                                                       description := old(payload.description),
                                                       status := old(payload.status),
                                                       updatedAt := now)
      ensures repo.Snapshot() == old(repo.Snapshot())[key := existing.View()]
    {
      UpdateTaskFields(existing, payload, now);
      ghost var contents1 := repo.Snapshot();
      assert contents1 == old(repo.Snapshot())[key := existing.View()];
      r := repo.Save(existing, now);
      assert repo.Snapshot() == contents1[key := existing.View()];
    }

    /** Removes the task with this id, reporting NotFound when there is none. */
    method DeleteTask(id: Option<int>) returns (r: Outcome)
      requires Valid()
      modifies repo
      ensures Valid()
      ensures ValidateId(id).Fail? ==> r == Fail(ValidateId(id).failure)
      ensures ValidateId(id).Pass? && !old(repo.Stored(id.value)) ==> r == Fail(NotFound(id.value))
      ensures r == Pass <==> id.Some? && id.value > 0 && old(repo.Stored(id.value))
      ensures r.Fail? ==> repo.tasks == old(repo.tasks)
      ensures id.Some? && id.value > 0 && r.Pass? ==>
        && repo.tasks == old(repo.tasks) - {id.value as nat}
        && repo.Snapshot() == old(repo.Snapshot()) - {id.value as nat}
        && repo.Count() == old(repo.Count()) - 1
        && GetTaskById(id) == Err(NotFound(id.value))
      ensures repo.nextId == old(repo.nextId)
    {
      var check := ValidateId(id);
      if check.Fail? {
        return Fail(check.failure);
      }
      if !repo.ExistsById(id) {
        return Fail(NotFound(id.value));
      }
      ghost var key := id.value as nat;
      repo.DeleteById(id);
      assert repo.tasks.Keys == old(repo.tasks).Keys - {key};
      assert repo.Snapshot() == old(repo.Snapshot()) - {key};
      r := Pass;
    }

    /** The stored tasks with the given status; a null status is rejected. */
    method GetTasksByStatus(status: Option<Status>) returns (r: Result<seq<Task>>)
      ensures status.None? ==> r == Err(InvalidArgument(StatusNullMessage))
      ensures status.Some? ==> r.Ok?
      ensures r.Ok? ==> forall k :: k in repo.tasks ==> (repo.tasks[k] in r.value <==> repo.tasks[k].status == status)
      ensures r.Ok? ==> forall i :: 0 <= i < |r.value| ==> r.value[i] in repo.tasks.Values && r.value[i].status == status
      ensures r.Ok? && Valid() ==> forall i, j :: 0 <= i < j < |r.value| ==> r.value[i] != r.value[j]
    {
      var check := ValidateStatus(status);
      if check.Fail? {
        return Err(check.failure);
      }
      var found := repo.FindByStatus(status);
      r := Ok(found);
    }

    /** The number of stored tasks: zero exactly when the store is empty. */
    function GetTaskCount(): (n: nat)
      reads this, repo
      ensures n == |repo.tasks.Keys|
      ensures n == 0 <==> repo.tasks == map[]
    {
      repo.Count()
    }

    /** Empties the store and restarts its id counter. */
    method DeleteAllTasks()
      requires Valid()
      modifies repo
      ensures Valid()
      ensures repo.tasks == map[] && repo.nextId == 1
      ensures GetTaskCount() == 0
    {
      repo.DeleteAll();
    }
  }

  /** Clearing the store restarts the numbering: the next task created gets id 1 and is the only one. */
  method CreateAfterReset(service: TaskService, payload: Task, now: nat) returns (r: Result<Task>)
    requires service.Valid()
    requires AcceptableFields(payload.title, payload.description)
    modifies service.repo, payload
    ensures service.Valid()
    ensures r == Ok(payload) && payload.id == Some(1)
    ensures service.GetTaskCount() == 1 && service.GetTaskById(Some(1)) == Ok(payload)
  {
    service.DeleteAllTasks();
    r := service.CreateTask(payload, now);
  }
}
