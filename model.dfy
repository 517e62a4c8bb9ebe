/**
 * The Task entity and its status enumeration. Times are logical: every
 * operation that would read the wall clock takes the current time `now`
 * from its caller instead.
 */
module Model {
  import opened Wrappers

  datatype Status = Todo | InProgress | Completed

  /** The human-readable label each status carries. */
  function DisplayName(s: Status): string {
    match s
    case Todo => "To Do"
    case InProgress => "In Progress"
    case Completed => "Completed"
  }

  /** No two statuses share a label. */
  lemma DisplayNameInjective(a: Status, b: Status)
    requires DisplayName(a) == DisplayName(b)
    ensures a == b
  {
  }

  /**
   * The value of every field of a task at one moment. Ids are non-negative:
   * the store hands out ids from 1 upwards.
   */
  datatype TaskView = TaskView(
    id: Option<nat>,
    title: Option<string>,
    description: Option<string>,
    status: Option<Status>,
    createdAt: nat,
    updatedAt: nat)

  class Task {
    var id: Option<nat>
    var title: Option<string>
    var description: Option<string>
    var status: Option<Status>
    var createdAt: nat
    var updatedAt: nat

    function View(): TaskView
      reads this
    {
      TaskView(id, title, description, status, createdAt, updatedAt)
    }

    /** The timestamps are in order: never updated before being created. */
    predicate Timely()
      reads this
    {
      createdAt <= updatedAt
    }

    /** No-argument constructor: only the field initialisers run. */
    constructor (now: nat)
      ensures View() == TaskView(None, None, None, Some(Todo), now, now)
      ensures Timely()
    {
      id, title, description, status := None, None, None, Some(Todo);
      createdAt, updatedAt := now, now;
    }

    constructor WithText(title: Option<string>, description: Option<string>, now: nat)
      ensures View() == TaskView(None, title, description, Some(Todo), now, now)
      ensures Timely()
    {
      this.id, this.title, this.description, this.status := None, title, description, Some(Todo);
      createdAt, updatedAt := now, now;
    }

    /** Unlike the two above, this one stores whatever status it is given, null included. */
    constructor WithStatus(title: Option<string>, description: Option<string>, status: Option<Status>, now: nat)
      ensures View() == TaskView(None, title, description, status, now, now)
      ensures Timely()
    {
      this.id, this.title, this.description, this.status := None, title, description, status;
      createdAt, updatedAt := now, now;
    }

    /** The all-fields constructor: every field, timestamps included, comes from the caller. */
    constructor WithAll(id: Option<nat>, title: Option<string>, description: Option<string>,
                        status: Option<Status>, createdAt: nat, updatedAt: nat)
      ensures View() == TaskView(id, title, description, status, createdAt, updatedAt)
    {
      this.id, this.title, this.description, this.status := id, title, description, status;
      this.createdAt, this.updatedAt := createdAt, updatedAt;
    }

    /** The plain generated setter: it does not refresh updatedAt. */
    method SetId(id: Option<nat>)
      modifies this
      ensures View() == old(View()).(id := id)
    {
      this.id := id;
    }

    method SetTitle(title: Option<string>, now: nat)
      modifies this
      ensures View() == old(View()).(title := title, updatedAt := now)
      ensures old(Timely()) && old(updatedAt) <= now ==> Timely()
    {
      this.title := title;
      updatedAt := now;
    }

    method SetDescription(description: Option<string>, now: nat)
      modifies this
      ensures View() == old(View()).(description := description, updatedAt := now)
      ensures old(Timely()) && old(updatedAt) <= now ==> Timely()
    {
      this.description := description;
      updatedAt := now;
    }

    method SetStatus(status: Option<Status>, now: nat)
      modifies this
      ensures View() == old(View()).(status := status, updatedAt := now)
      ensures old(Timely()) && old(updatedAt) <= now ==> Timely()
    {
      this.status := status;
      updatedAt := now;
    }

    /** Refreshes updatedAt and nothing else. */
    method Touch(now: nat)
      modifies this
      ensures View() == old(View()).(updatedAt := now)
      ensures old(Timely()) && old(updatedAt) <= now ==> Timely()
    {
      updatedAt := now;
    }

    /**
     * Equality is generated over `id` alone: a task equals itself, and two
     * distinct tasks are equal exactly when their ids are (both unset counts).
     */
    function Equals(other: Task?): (r: bool)
      reads this, other
      ensures r <==> other != null && other.id == id
    {
      other == this || (other != null && other.id == id)
    }
  }

  /** Task equality keeps the equals contract: reflexive, symmetric and transitive. */
  lemma EqualsIsEquivalence(a: Task, b: Task, c: Task)
    ensures a.Equals(a)
    ensures a.Equals(b) == b.Equals(a)
    ensures a.Equals(b) && b.Equals(c) ==> a.Equals(c)
  {
  }
}
