/** The task record and the shallow object spread (`{ ...task, ...patch }`)
    through which every store and screen changes one. */
module Tasks {
  import opened Wrappers
  import opened Seqs

  /** The three priorities the screens offer; the sort rank is `{ high: 0, medium: 1, low: 2 }`. */
  datatype Priority = High | Medium | Low

  /** A task as stored. `createdAt` and `completedAt` are instants in
      milliseconds; `dueDate` is the string the form produced (`null` is `None`). */
  datatype Task = Task(
    id: string,
    title: string,
    priority: Priority,
    dueDate: Option<string>,
    listId: string,
    completed: bool,
    completedAt: Option<int>,
    archived: bool,
    createdAt: int)

  /** The object a caller spreads over a task: a present field overrides,
      an absent one leaves the task's field alone. For nullable fields,
      `Some(None)` is an explicit `null`. */
  datatype TaskPatch = TaskPatch(
    id: Option<string>,
    title: Option<string>,
    priority: Option<Priority>,
    dueDate: Option<Option<string>>,
    listId: Option<string>,
    completed: Option<bool>,
    completedAt: Option<Option<int>>,
    archived: Option<bool>,
    createdAt: Option<int>)

  const EmptyPatch := TaskPatch(None, None, None, None, None, None, None, None, None)

  function TaskId(t: Task): string { t.id }

  predicate IsArchived(t: Task) { t.archived }

  predicate IsCompleted(t: Task) { t.completed }

  /** `!task.archived`: the tasks the main screens show. */
  predicate IsActive(t: Task) { !t.archived }

  /** `task => task.listId === listId` */
  function InList(listId: string): Task -> bool {
    (t: Task) => t.listId == listId
  }

  /** `task.dueDate` is truthy: present and not the empty string. */
  predicate HasDueDate(t: Task) { t.dueDate.Some? && t.dueDate.value != "" }

  /** `{ ...t, ...p }`: every field present in the patch wins. */
  function Merge(t: Task, p: TaskPatch): (r: Task)
    ensures p.id.Some? ==> r.id == p.id.value
    ensures p.id.None? ==> r.id == t.id
    ensures p.title.Some? ==> r.title == p.title.value
    ensures p.title.None? ==> r.title == t.title
    ensures p.priority.Some? ==> r.priority == p.priority.value
    ensures p.priority.None? ==> r.priority == t.priority
    ensures p.dueDate.Some? ==> r.dueDate == p.dueDate.value
    ensures p.dueDate.None? ==> r.dueDate == t.dueDate
    ensures p.listId.Some? ==> r.listId == p.listId.value
    ensures p.listId.None? ==> r.listId == t.listId
    ensures p.completed.Some? ==> r.completed == p.completed.value
    ensures p.completed.None? ==> r.completed == t.completed
    ensures p.completedAt.Some? ==> r.completedAt == p.completedAt.value
    ensures p.completedAt.None? ==> r.completedAt == t.completedAt
    ensures p.archived.Some? ==> r.archived == p.archived.value
    ensures p.archived.None? ==> r.archived == t.archived
    ensures p.createdAt.Some? ==> r.createdAt == p.createdAt.value
    ensures p.createdAt.None? ==> r.createdAt == t.createdAt
    ensures p == EmptyPatch ==> r == t
  {
    Task(
      p.id.GetOr(t.id),
      p.title.GetOr(t.title),
      p.priority.GetOr(t.priority),
      p.dueDate.GetOr(t.dueDate),
      p.listId.GetOr(t.listId),
      p.completed.GetOr(t.completed),
      p.completedAt.GetOr(t.completedAt),
      p.archived.GetOr(t.archived),
      p.createdAt.GetOr(t.createdAt))
  }

  /** `{ ...t }` used as a patch: every field present. */
  function FullPatch(t: Task): (p: TaskPatch)
    ensures forall u :: Merge(u, p) == t
  {
    TaskPatch(Some(t.id), Some(t.title), Some(t.priority), Some(t.dueDate), Some(t.listId),
              Some(t.completed), Some(t.completedAt), Some(t.archived), Some(t.createdAt))
  }

  /** Whether a task keeps the record invariant that `completedAt` is set
      exactly when the task is completed. */
  predicate CompletionConsistent(t: Task) {
    t.completed <==> t.completedAt.Some?
  }

  /** Every task of the sequence keeps the completion invariant. */
  predicate AllConsistent(s: seq<Task>) {
    forall t :: t in s ==> CompletionConsistent(t)
  }

  /** Taking some of the tasks keeps the invariant. */
  lemma ConsistentWithin(a: seq<Task>, b: seq<Task>)
    requires multiset(a) <= multiset(b) && AllConsistent(b)
    ensures AllConsistent(a)
  {
    forall t | t in a
      ensures CompletionConsistent(t)
    {
      assert t in multiset(a);
    }
  }

  /** Overwriting one position with a consistent task keeps the invariant. */
  lemma ConsistentUpdated(s: seq<Task>, i: nat, u: Task)
    requires i < |s| && AllConsistent(s) && CompletionConsistent(u)
    ensures AllConsistent(s[i := u])
  {
    forall t | t in s[i := u]
      ensures CompletionConsistent(t)
    {
      var j :| 0 <= j < |s| && s[i := u][j] == t;
      if j != i {
        assert s[j] in s;
      }
    }
  }

  /** Replace every element whose id is `id` by `u`:
      `prev.map(t => t.id === id ? u : t)`. */
  function ReplaceById(s: seq<Task>, id: string, u: Task): (r: seq<Task>)
    ensures |r| == |s|
    ensures forall i :: 0 <= i < |s| ==> r[i] == if s[i].id == id then u else s[i]
    ensures AllConsistent(s) && CompletionConsistent(u) ==> AllConsistent(r)
  {
    if s == [] then [] else [if s[0].id == id then u else s[0]] + ReplaceById(s[1..], id, u)
  }

  /** Keep every element whose id is not `id`: `prev.filter(t => t.id !== id)`. */
  function RemoveById(s: seq<Task>, id: string): (r: seq<Task>)
    ensures forall t {:trigger t in r} :: t in r <==> t in s && t.id != id
    ensures forall t {:trigger multiset(r)[t]} :: multiset(r)[t] == if t.id != id then multiset(s)[t] else 0
    ensures |r| <= |s|
    ensures multiset(r) <= multiset(s)
  {
    FilterWithin(s, (t: Task) => t.id != id);
    Filter(s, (t: Task) => t.id != id)
  }
}
