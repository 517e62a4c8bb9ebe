/**
 * The in-memory task store: a map from id to task object plus the id
 * counter. It holds the task objects themselves, so a caller that keeps a
 * reference to a saved task sees later changes to it and vice versa.
 */
module Repository {
  import opened Wrappers
  import opened Errors
  import opened Model

  const NullTaskMessage := "Task cannot be null"

  class TaskRepository {
    var tasks: map<nat, Task>
    /** The id the next new task receives. */
    var nextId: nat

    /** Every entry is filed under its own id, and the counter never drops below its start. */
    ghost predicate Valid()
      reads this, tasks.Values
    {
      && nextId >= 1
      && forall k :: k in tasks ==> tasks[k].id == Some(k)
    }

    /**
     * Every stored id was handed out by the counter: it lies in [1, nextId).
     * The store keeps this as long as tasks with a preset id are only saved
     * again under an id already present.
     */
    ghost predicate IdsIssued()
      reads this
    {
      forall k :: k in tasks ==> 1 <= k < nextId
    }

    /** The contents of the store as values. */
    ghost function Snapshot(): map<nat, TaskView>
      reads this, tasks.Values
    {
      map k | k in tasks :: tasks[k].View()
    }

    constructor ()
      ensures Valid() && IdsIssued()
      ensures tasks == map[] && nextId == 1
    {
      tasks := map[];
      nextId := 1;
    }

    /** A copy of the stored tasks, each exactly once, in no particular order. */
    method FindAll() returns (r: seq<Task>)
      ensures |r| == Count()
      ensures forall k :: k in tasks ==> tasks[k] in r
      ensures forall i :: 0 <= i < |r| ==> r[i] in tasks.Values
      ensures Valid() ==> forall i, j :: 0 <= i < j < |r| ==> r[i] != r[j]
    {
      r := [];
      var todo := tasks.Keys;
      ghost var keys: seq<nat> := [];
      while todo != {}
        invariant todo <= tasks.Keys
        invariant |r| == |keys| == |tasks.Keys - todo|
        invariant forall i :: 0 <= i < |keys| ==> keys[i] in tasks && keys[i] !in todo && r[i] == tasks[keys[i]]
        invariant forall i, j :: 0 <= i < j < |keys| ==> keys[i] != keys[j]
        invariant forall k :: k in tasks && k !in todo ==> tasks[k] in r
        decreases |todo|
      {
        var k :| k in todo;
        assert tasks.Keys - (todo - {k}) == (tasks.Keys - todo) + {k};
        r := r + [tasks[k]];
        keys := keys + [k];
        todo := todo - {k};
      }
      assert tasks.Keys - todo == tasks.Keys;
    }

    /** Lookup by id; an absent, negative or null id finds nothing. */
    function FindById(id: Option<int>): (r: Option<Task>)
      reads this
      ensures r.Some? <==> id.Some? && Stored(id.value)
      ensures r.Some? ==> r.value == tasks[id.value]
    {
      if id.None? then None
      else if Stored(id.value) then Some(tasks[id.value])
      else None
    }

    /** Whether a (Java long) id is a key of the store. */
    predicate Stored(id: int)
      reads this
    {
      id >= 0 && id in tasks
    }

    /** In a valid store, the task found under an id carries that id. */
    lemma FoundTaskHasId(id: Option<int>)
      requires Valid()
      ensures FindById(id).Some? ==> FindById(id).value.id == id
    {
    }

    /** Presence check; agrees with FindById, so a null id is never present. */
    function ExistsById(id: Option<int>): (r: bool)
      reads this
      ensures r <==> FindById(id).Some?
    {
      id.Some? && Stored(id.value)
    }

    /** The number of entries: one per stored id, zero exactly when the store is empty. */
    function Count(): (n: nat)
      reads this
      ensures n == |tasks.Keys|
      ensures n == 0 <==> tasks == map[]
    {
      |tasks|
    }

    /** Takes the counter's value and advances it. */
    method GenerateId() returns (id: nat)
      modifies this`nextId
      ensures id == old(nextId) && nextId == old(nextId) + 1
    {
      id := nextId;
      nextId := nextId + 1;
    }

    /**
     * Gives a task without an id the next counter value, refreshes its
     * updatedAt and files it under its id, replacing any entry there. A null
     * task is rejected and nothing changes.
     */
    method Save(t: Task?, now: nat) returns (r: Result<Task>)
      requires Valid()
      modifies this, t
      ensures Valid()
      ensures t == null ==> r == Err(InvalidArgument(NullTaskMessage))
      ensures t == null ==> tasks == old(tasks) && nextId == old(nextId)
      ensures t != null ==> r == Ok(t) && t.id.Some?
      ensures t != null && old(t.id).None? ==>
        && t.View() == old(t.View()).(id := Some(old(nextId)), updatedAt := now)
        && nextId == old(nextId) + 1
      ensures t != null && old(t.id).Some? ==>
        && t.View() == old(t.View()).(updatedAt := now)
        && nextId == old(nextId)
      ensures t != null ==> tasks == old(tasks)[t.id.value := t]
      ensures t != null ==> Snapshot() == old(Snapshot())[t.id.value := t.View()]
      ensures t != null ==> FindById(t.id) == Some(t) && ExistsById(t.id)
      ensures t != null && old(t.id).None? && old(IdsIssued()) ==> old(nextId) !in old(tasks)
      ensures old(IdsIssued()) && (t != null && old(t.id).Some? ==> old(t.id).value in old(tasks)) ==> IdsIssued()
    {
      if t == null {
        return Err(InvalidArgument(NullTaskMessage));
      }
      if t.id.None? {
        var id := GenerateId();
        t.SetId(Some(id));
      }
      t.Touch(now);
      var key := t.id.value;
      forall k | k in old(tasks) && k != key
        ensures old(tasks)[k] != t
      {
        assert old(tasks[k].id) == Some(k);
      }
      tasks := tasks[key := t];
      assert Snapshot() == old(Snapshot())[key := t.View()];
      r := Ok(t);
    }

    /** Removes the entry for id if there is one; a null or absent id is a no-op. */
    method DeleteById(id: Option<int>)
      requires Valid()
      modifies this
      ensures Valid()
      ensures tasks == if id.Some? && id.value >= 0 then old(tasks) - {id.value} else old(tasks)
      ensures nextId == old(nextId)
      ensures FindById(id).None?
      ensures old(IdsIssued()) ==> IdsIssued()
    {
      if id.None? {
        return;
      }
      if id.value >= 0 {
        tasks := tasks - {id.value};
      }
    }

    /** The stored tasks whose status is the given one; a null status matches nothing. */
    method FindByStatus(status: Option<Status>) returns (r: seq<Task>)
      ensures status.None? ==> r == []
      ensures forall k :: k in tasks ==> (tasks[k] in r <==> status.Some? && tasks[k].status == status)
      ensures forall i :: 0 <= i < |r| ==> r[i] in tasks.Values && r[i].status == status
      ensures Valid() ==> forall i, j :: 0 <= i < j < |r| ==> r[i] != r[j]
    {
      r := [];
      if status.None? {
        return;
      }
      var todo := tasks.Keys;
      ghost var keys: seq<nat> := [];
      while todo != {}
        invariant todo <= tasks.Keys
        invariant |r| == |keys|
        invariant forall i :: 0 <= i < |keys| ==> keys[i] in tasks && keys[i] !in todo && r[i] == tasks[keys[i]]
        invariant forall i :: 0 <= i < |r| ==> r[i].status == status
        invariant forall i, j :: 0 <= i < j < |keys| ==> keys[i] != keys[j]
        invariant forall k :: k in tasks && k !in todo && tasks[k].status == status ==> tasks[k] in r
        decreases |todo|
      {
        var k :| k in todo;
        if tasks[k].status == status {
          r := r + [tasks[k]];
          keys := keys + [k];
        }
        todo := todo - {k};
      }
    }

    /** Empties the store and restarts the counter, so the next new task gets id 1. */
    method DeleteAll()
      modifies this
      ensures Valid() && IdsIssued()
      ensures tasks == map[] && nextId == 1
    {
      tasks := map[];
      nextId := 1;
    }
  }
}
