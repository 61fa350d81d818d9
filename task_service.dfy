/** The mock task store: one array of task records, changed in place by
    `unshift`, indexed assignment and `splice`. */
module TaskStore {
  import opened Wrappers
  import opened Seqs
  import opened Tasks

  const TaskNotFound := "Task not found"

  /** Whether an awaited service call reaches the service (`Up`) or the
      promise rejects on the way with an error message (`Down`). */
  datatype Link = Up | Down(message: string)

  /** The record `create` stores: `{ id: <generated>, ...data, createdAt: <now>,
      completedAt: null, archived: false }`. */
  function Stamp(data: TaskPatch, generatedId: string, now: int): (t: Task)
    ensures !t.archived && t.completedAt == None && t.createdAt == now
    // `completedAt` is forced to null, so a record created completed breaks the invariant
    ensures CompletionConsistent(t) <==> !t.completed
    ensures t.id == data.id.GetOr(generatedId)
    // every other field the caller supplied is kept
    ensures Merge(t, data.(completedAt := None, archived := None, createdAt := None)) == t
  {
    Merge(Task(generatedId, "", Medium, None, "", false, None, false, now), data)
      .(createdAt := now, completedAt := None, archived := false)
  }

  /** `task => task.dueDate && startDate <= new Date(task.dueDate) <= endDate`;
      an unparsable date (`None`) compares false. */
  function DueWithin(start: int, end: int, instantOf: string -> Option<int>): (f: Task -> bool)
    ensures forall t :: f(t) <==> HasDueDate(t) && start <= instantOf(t.dueDate.value).GetOr(start - 1) <= end
    ensures start > end ==> forall t :: !f(t)
  {
    (t: Task) => HasDueDate(t) && instantOf(t.dueDate.value).Some?
         && start <= instantOf(t.dueDate.value).value <= end
  }

  class TaskService {
    var tasks: seq<Task>

    constructor (seed: seq<Task>)
      ensures tasks == seed
    {
      tasks := seed;
    }

    /** A copy of the whole store, in store order. */
    method GetAll() returns (r: seq<Task>)
      ensures r == tasks
    {
      r := tasks;
    }

    method GetById(id: string) returns (r: Result<Task>)
      ensures r.Failure? <==> forall t :: t in tasks ==> t.id != id
      ensures r.Failure? ==> r.error == TaskNotFound
      ensures r.Success? ==> r.value == tasks[FirstIndex(tasks, TaskId, id)] && r.value.id == id
    {
      var i := FindIndex(tasks, TaskId, id);
      if i == -1 {
        return Failure(TaskNotFound);
      }
      return Success(tasks[i]);
    }

    /** Stamps the record and puts it first (`unshift`). */
    method Create(data: TaskPatch, generatedId: string, now: int) returns (created: Task)
      modifies this
      ensures created == Stamp(data, generatedId, now)
      ensures tasks == [created] + old(tasks)
      // a later getById(created.id) finds exactly this record
      ensures FirstIndex(tasks, TaskId, created.id) == 0
    {
      created := Stamp(data, generatedId, now);
      tasks := [created] + tasks;
    }

    /** Spreads the patch over the first record with this id. */
    method Update(id: string, patch: TaskPatch) returns (r: Result<Task>)
      modifies this
      ensures var i := FirstIndex(old(tasks), TaskId, id);
        if i == -1 then r == Failure(TaskNotFound) && tasks == old(tasks)
        else r == Success(Merge(old(tasks)[i], patch)) && tasks == old(tasks)[i := r.value]
    {
      var i := FindIndex(tasks, TaskId, id);
      if i == -1 {
        return Failure(TaskNotFound);
      }
      tasks := tasks[i := Merge(tasks[i], patch)];
      return Success(tasks[i]);
    }

    /** Splices out the first record with this id. */
    method Delete(id: string) returns (r: Result<bool>)
      modifies this
      ensures var i := FirstIndex(old(tasks), TaskId, id);
        if i == -1 then r == Failure(TaskNotFound) && tasks == old(tasks)
        else r == Success(true) && tasks == RemoveAt(old(tasks), i)
    {
      var i := FindIndex(tasks, TaskId, id);
      if i == -1 {
        return Failure(TaskNotFound);
      }
      tasks := RemoveAt(tasks, i);
      return Success(true);
    }

    method GetByList(listId: string) returns (r: seq<Task>)
      ensures r == Filter(tasks, InList(listId))
      ensures forall t :: t in r <==> t in tasks && t.listId == listId
    {
      r := Filter(tasks, InList(listId));
    }

    /** Tasks due within `[start, end]`, both ends inclusive; tasks without
        a due date are never returned. */
    method GetByDateRange(start: int, end: int, instantOf: string -> Option<int>) returns (r: seq<Task>)
      ensures r == Filter(tasks, DueWithin(start, end, instantOf))
      ensures forall t :: t in r ==>
                t in tasks && HasDueDate(t) && start <= instantOf(t.dueDate.value).GetOr(start - 1) <= end
    {
      r := Filter(tasks, DueWithin(start, end, instantOf));
    }

    method GetCompleted() returns (r: seq<Task>)
      ensures r == Filter(tasks, IsCompleted)
      ensures forall t :: t in r <==> t in tasks && t.completed
    {
      r := Filter(tasks, IsCompleted);
    }

    method GetArchived() returns (r: seq<Task>)
      ensures r == Filter(tasks, IsArchived)
      ensures forall t :: t in r <==> t in tasks && t.archived
    {
      r := Filter(tasks, IsArchived);
    }
  }

  /** Deleting the record just created gives back the store as it was. */
  lemma {:induction false} DeleteUndoesCreate(s: seq<Task>, c: Task)
    ensures FirstIndex([c] + s, TaskId, c.id) == 0
    ensures RemoveAt([c] + s, 0) == s
  {
    assert ([c] + s)[1..] == s;
  }
}
