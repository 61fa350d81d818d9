/** The task screen: its local copy of the tasks, kept in step with the
    task store write-through (the local copy changes only after the store
    call succeeds), and the view it renders. */
module TaskCollection {
  import opened Wrappers
  import opened Seqs
  import opened Tasks
  import opened Filters
  import opened ViewEngine
  import opened TaskStore
  import TaskForm
  import Progress

  const LoadFailed := "Failed to load tasks"
  const DefaultList := "personal"

  /** `err.message || fallback` */
  function ErrorText(message: string, fallback: string): (e: string)
    ensures fallback != "" ==> e != ""
    ensures message != "" ==> e == message
    ensures message == "" ==> e == fallback
  {
    if message != "" then message else fallback
  }

  /** `filterByList || 'personal'`: the list a new task goes to. */
  function TargetList(filterByList: string): (l: string)
    ensures l != ""
    ensures filterByList != "" ==> l == filterByList
    ensures filterByList == "" ==> l == DefaultList
  {
    if filterByList != "" then filterByList else DefaultList
  }

  /** What `handleCreateTask` sends: the submitted fields, with the list
      forced to `filterByList || 'personal'` and a pending, unarchived state. */
  function CreateRequest(d: TaskForm.SubmitData, filterByList: string, clientNow: int): (p: TaskPatch)
    ensures p.id.None?
    ensures p.title == Some(d.title) && p.priority == Some(d.priority) && p.dueDate == Some(d.dueDate)
    ensures p.listId == Some(TargetList(filterByList))
    ensures p.completed == Some(false) && p.archived == Some(false) && p.completedAt == Some(None)
  {
    TaskPatch(None, Some(d.title), Some(d.priority), Some(d.dueDate), Some(TargetList(filterByList)),
              Some(false), Some(None), Some(false), Some(clientNow))
  }

  /** What the edit form's `onSubmit` hands to `handleUpdateTask`: the
      four form fields, and nothing about completion, archiving or identity. */
  function EditPatch(d: TaskForm.SubmitData): (p: TaskPatch)
    ensures forall t :: Merge(t, p) == t.(title := d.title, priority := d.priority, dueDate := d.dueDate, listId := d.listId)
    ensures p.completed.None? && p.completedAt.None?
  {
    TaskPatch(None, Some(d.title), Some(d.priority), Some(d.dueDate), Some(d.listId), None, None, None, None)
  }

  /** The record `handleToggleComplete` sends: `{ ...task, completed:
      !task.completed, completedAt: !task.completed ? now : null }`. */
  function Toggled(t: Task, now: int): (u: Task)
    ensures u.completed == !t.completed
    ensures CompletionConsistent(u)
    ensures u.completed ==> u.completedAt == Some(now)
    ensures u.(completed := t.completed, completedAt := t.completedAt) == t
  {
    t.(completed := !t.completed, completedAt := if !t.completed then Some(now) else None)
  }

  /** Toggling a consistent pending task twice gives it back unchanged:
      completed again false and `completedAt` again null. */
  lemma ToggleTwiceRestores(t: Task, n1: int, n2: int)
    requires CompletionConsistent(t) && !t.completed
    ensures Toggled(Toggled(t, n1), n2) == t
  {
  }

  /** The header's progress figure, `Math.round(completedCount /
      filteredTasks.length * 100)`, shown only for a non-empty view. */
  function ViewPercentage(view: seq<Task>): (p: Option<int>)
    ensures p.Some? <==> view != []
    // the figure is `completedCount / filteredTasks.length * 100`, rounded half up
    ensures p.Some? ==> p == Progress.Percentage(CompletedCount(view), |view|)
    ensures p.Some? ==> 2 * |view| * p.value <= 200 * CompletedCount(view) + |view| < 2 * |view| * (p.value + 1)
    ensures p.Some? ==> 0 <= p.value <= 100
    ensures p.Some? && CompletedCount(view) == 0 ==> p.value == 0
    ensures p.Some? && CompletedCount(view) == |view| ==> p.value == 100
  {
    if view == [] then None
    else
      Progress.PercentageBounds(CompletedCount(view), |view|);
      Progress.Percentage(CompletedCount(view), |view|)
  }

  class TaskScreen {
    const store: TaskService
    /** The `filterByList` and `filterByDate` props. */
    const scope: Scope
    var tasks: seq<Task>
    var error: Option<string>
    var filters: Criteria

    /** Both the screen's tasks and the store's keep the completion invariant. */
    predicate Consistent()
      reads this, store
    {
      AllConsistent(tasks) && AllConsistent(store.tasks)
    }

    constructor (store: TaskService, scope: Scope)
      ensures this.store == store && this.scope == scope
      ensures tasks == [] && error == None && filters == Cleared
    {
      this.store := store;
      this.scope := scope;
      tasks := [];
      error := None;
      filters := Cleared;
    }

    /** `getFilteredTasks()` over the current state: sorted, and holding
        exactly the screen's tasks that pass every active filter, with
        tasks that compare equal in the screen's order. */
    function View(clock: Clock): (v: seq<Task>)
      reads this
      ensures Sorted(v)
      ensures multiset(v) <= multiset(tasks)
      ensures forall t :: t in v ==> Shown(t, scope, filters, clock)
      ensures forall t :: t in tasks && Shown(t, scope, filters, clock) ==> t in v
      ensures forall t {:trigger multiset(v)[t]} :: multiset(v)[t] == if Shown(t, scope, filters, clock) then multiset(tasks)[t] else 0
      ensures forall y :: Filter(v, Tie(y)) == Filter(Filter(tasks, ShownTest(scope, filters, clock)), Tie(y))
    {
      var v := FilteredTasks(tasks, scope, filters, clock);
      ViewWithinScope(tasks, scope, filters, clock);
      // membership is a positive multiplicity, which `FilteredTasks` fixes
      forall t
        ensures t in v <==> t in tasks && Shown(t, scope, filters, clock)
      {
        assert t in v <==> multiset(v)[t] > 0;
        assert t in tasks <==> multiset(tasks)[t] > 0;
      }
      v
    }

    /** `loadTasks`: replaces the tasks by the store's, or records the error and keeps them. */
    method LoadTasks(link: Link)
      modifies this`tasks, this`error
      ensures link.Up? ==> tasks == store.tasks && error == None
      ensures link.Down? ==> tasks == old(tasks) && error == Some(ErrorText(link.message, LoadFailed))
      ensures old(Consistent()) ==> Consistent()
    {
      error := None;
      if link.Down? {
        error := Some(ErrorText(link.message, LoadFailed));
        return;
      }
      var result := store.GetAll();
      tasks := result;
    }

    /** `handleCreateTask`: the stored record goes first, once the store has it. */
    method HandleCreateTask(d: TaskForm.SubmitData, link: Link, clientNow: int, generatedId: string, serverNow: int)
      modifies this`tasks, store
      ensures link.Down? ==> tasks == old(tasks) && store.tasks == old(store.tasks)
      ensures link.Up? ==>
        var created := Stamp(CreateRequest(d, scope.listId, clientNow), generatedId, serverNow);
        && tasks == [created] + old(tasks)
        && store.tasks == [created] + old(store.tasks)
        && created.listId == TargetList(scope.listId)
        && !created.completed && !created.archived && created.completedAt == None
      ensures old(Consistent()) ==> Consistent()
    {
      if link.Down? {
        return;
      }
      var created := store.Create(CreateRequest(d, scope.listId, clientNow), generatedId, serverNow);
      tasks := [created] + tasks;
    }

    /** `handleUpdateTask`: the store's updated record replaces every local task with that id. */
    method HandleUpdateTask(id: string, patch: TaskPatch, link: Link)
      modifies this`tasks, store
      ensures var i := FirstIndex(old(store.tasks), TaskId, id);
        if link.Down? || i == -1 then tasks == old(tasks) && store.tasks == old(store.tasks)
        else
          var u := Merge(old(store.tasks)[i], patch);
          store.tasks == old(store.tasks)[i := u] && tasks == ReplaceById(old(tasks), id, u)
      // an edit that leaves completion alone, as the edit form's does, keeps the invariant
      ensures patch.completed.None? && patch.completedAt.None? ==> old(Consistent()) ==> Consistent()
    {
      if link.Down? {
        return;
      }
      ghost var i := FirstIndex(store.tasks, TaskId, id);
      var r := store.Update(id, patch);
      if patch.completed.None? && patch.completedAt.None? && old(Consistent()) && r.Success? {
        assert old(store.tasks)[i] in old(store.tasks);
        ConsistentUpdated(old(store.tasks), i, r.value);
      }
      if r.Success? {
        tasks := ReplaceById(tasks, id, r.value);
      }
    }

    /** `handleToggleComplete`: without a local task of that id no call is
        made; otherwise the toggled record is written over the store's. */
    method HandleToggleComplete(id: string, link: Link, now: int)
      modifies this`tasks, store
      ensures var k := FirstIndex(old(tasks), TaskId, id);
        var i := FirstIndex(old(store.tasks), TaskId, id);
        if k == -1 || link.Down? || i == -1 then tasks == old(tasks) && store.tasks == old(store.tasks)
        else
          var u := Toggled(old(tasks)[k], now);
          store.tasks == old(store.tasks)[i := u] && tasks == ReplaceById(old(tasks), id, u)
      ensures old(Consistent()) ==> Consistent()
    {
      var k := FindIndex(tasks, TaskId, id);
      if k == -1 || link.Down? {
        return;
      }
      ghost var i := FirstIndex(store.tasks, TaskId, id);
      var r := store.Update(id, FullPatch(Toggled(tasks[k], now)));
      if old(Consistent()) && r.Success? {
        ConsistentUpdated(old(store.tasks), i, r.value);
      }
      if r.Success? {
        tasks := ReplaceById(tasks, id, r.value);
      }
    }

    /** `handleDeleteTask`: the tasks with that id leave the screen once the store has deleted one. */
    method HandleDeleteTask(id: string, link: Link)
      modifies this`tasks, store
      ensures var i := FirstIndex(old(store.tasks), TaskId, id);
        if link.Down? || i == -1 then tasks == old(tasks) && store.tasks == old(store.tasks)
        else store.tasks == RemoveAt(old(store.tasks), i) && tasks == RemoveById(old(tasks), id)
      ensures old(Consistent()) ==> Consistent()
    {
      if link.Down? {
        return;
      }
      var r := store.Delete(id);
      if r.Success? {
        tasks := RemoveById(tasks, id);
      }
      if old(Consistent()) {
        ConsistentWithin(store.tasks, old(store.tasks));
        ConsistentWithin(tasks, old(tasks));
      }
    }

    /** `handleArchiveTask`: the store's copy is marked archived and the
        tasks with that id leave the screen. */
    method HandleArchiveTask(id: string, link: Link)
      modifies this`tasks, store
      ensures var k := FirstIndex(old(tasks), TaskId, id);
        var i := FirstIndex(old(store.tasks), TaskId, id);
        if k == -1 || link.Down? || i == -1 then tasks == old(tasks) && store.tasks == old(store.tasks)
        else
          && store.tasks == old(store.tasks)[i := old(tasks)[k].(archived := true)]
          && tasks == RemoveById(old(tasks), id)
      ensures old(Consistent()) ==> Consistent()
    {
      var k := FindIndex(tasks, TaskId, id);
      if k == -1 || link.Down? {
        return;
      }
      ghost var i := FirstIndex(store.tasks, TaskId, id);
      var r := store.Update(id, FullPatch(tasks[k].(archived := true)));
      if r.Success? {
        tasks := RemoveById(tasks, id);
      }
      if old(Consistent()) && r.Success? {
        assert old(tasks)[k] in old(tasks);
        ConsistentUpdated(old(store.tasks), i, r.value);
        ConsistentWithin(tasks, old(tasks));
      }
    }

    /** The filter bar's `handleFilterChange`, applied to the screen's criteria. */
    method ChangeFilter(ch: FilterChange)
      modifies this`filters
      ensures filters == ApplyChange(old(filters), ch)
    {
      filters := ApplyChange(filters, ch);
    }

    /** The filter bar's `clearFilters`. */
    method ClearFilters()
      modifies this`filters
      ensures filters == Cleared && !HasActiveFilters(filters)
    {
      filters := Cleared;
    }
  }
}
