/** The archive screen: the archived tasks, restoring and deleting them one
    at a time, and clearing the whole archive. */
module Archive {
  import opened Wrappers
  import opened Seqs
  import opened Tasks
  import opened Text
  import opened TaskStore
  import opened TaskCollection

  const LoadArchivedFailed := "Failed to load archived tasks"
  const ClearLabel := "Clear Archive"

  /** `tasks.map(task => task.id)` */
  function Ids(s: seq<Task>): (r: seq<string>)
    ensures |r| == |s|
    ensures forall i :: 0 <= i < |s| ==> r[i] == s[i].id
  {
    seq(|s|, i requires 0 <= i < |s| => s[i].id)
  }

  /** No two tasks share an id. */
  predicate UniqueIds(s: seq<Task>) {
    forall i, j :: 0 <= i < j < |s| ==> s[i].id != s[j].id
  }

  /** What a run of deletes leaves: the remaining tasks, and whether every
      delete found its task. */
  datatype Deletion = Deletion(rest: seq<Task>, allFound: bool)

  /** One `delete(id)` on the store: the store afterwards, and whether
      the task was found. A missing id fails and changes nothing. */
  function DeleteOne(s: seq<Task>, id: string): (r: Deletion)
    ensures r.allFound <==> exists j :: 0 <= j < |s| && s[j].id == id
    ensures r.allFound ==> |r.rest| + 1 == |s|
    ensures !r.allFound ==> r.rest == s
    ensures multiset(r.rest) <= multiset(s)
    ensures forall t: Task :: t.id != id ==> multiset(r.rest)[t] == multiset(s)[t]
  {
    var i := FirstIndex(s, TaskId, id);
    if i == -1 then Deletion(s, false) else Deletion(RemoveAt(s, i), true)
  }

  /** The store after one `delete` per id, in order, and whether every one
      of them found its task. A failed delete does not stop the others. */
  function DeleteEach(s: seq<Task>, ids: seq<string>): (r: Deletion)
    ensures |r.rest| <= |s|
    ensures multiset(r.rest) <= multiset(s)
    ensures r.allFound ==> |r.rest| + |ids| == |s|
    ensures forall t: Task :: t.id !in ids ==> multiset(r.rest)[t] == multiset(s)[t]
    decreases |ids|
  {
    if ids == [] then Deletion(s, true)
    else
      var prior := ids[..|ids| - 1];
      var r := DeleteEach(s, prior);
      var d := DeleteOne(r.rest, ids[|ids| - 1]);
      assert forall t: Task :: t.id !in ids ==> t.id !in prior && t.id != ids[|ids| - 1];
      Deletion(d.rest, r.allFound && d.allFound)
  }

  /** The sub-title: `"<n> task(s) in archive"`. */
  function ArchiveLabel(n: nat): (s: string)
    ensures var head := Decimal(n) + " " + TaskNoun(n);
      |head| <= |s| && s[..|head|] == head
    ensures |s| >= 11 && s[|s| - 11..] == " in archive"
    // nothing else: the noun and the suffix meet with one space between
    ensures |s| == |Decimal(n)| + 1 + |TaskNoun(n)| + 11
  {
    var head := Decimal(n) + " " + TaskNoun(n);
    var s := head + " in archive";
    assert s[..|head|] == head;
    s
  }

  /** The header action is offered exactly when the archive is not empty. */
  function ClearAction(n: nat): (a: Option<string>)
    ensures a.Some? <==> n > 0
    ensures a.Some? ==> a.value == ClearLabel
  {
    if n > 0 then Some(ClearLabel) else None
  }

  /** Different counts give different sub-titles. */
  lemma {:induction false} ArchiveLabelInjective(n: nat, m: nat)
    requires ArchiveLabel(n) == ArchiveLabel(m)
    ensures n == m
  {
    var s := ArchiveLabel(n);
    // the first space ends the digits, so both labels start with the same digits
    assert Decimal(n) == s[..|Decimal(n)|] == Decimal(m);
    DecimalInjective(n, m);
  }

  /** One more delete, on top of the earlier ones. */
  lemma DeleteEachSnoc(s: seq<Task>, ids: seq<string>, id: string)
    ensures DeleteEach(s, ids + [id]) ==
      var r := DeleteEach(s, ids);
      var d := DeleteOne(r.rest, id);
      Deletion(d.rest, r.allFound && d.allFound)
  {
    assert (ids + [id])[..|ids|] == ids;
  }

  /** The same, for the prefixes of `ids` a loop walks through. */
  lemma DeleteEachStep(s: seq<Task>, ids: seq<string>, k: nat, after: seq<Task>, found: bool)
    requires k < |ids|
    requires Deletion(after, found) == DeleteOne(DeleteEach(s, ids[..k]).rest, ids[k])
    ensures after == DeleteEach(s, ids[..k + 1]).rest
    ensures DeleteEach(s, ids[..k]).allFound && found <==> DeleteEach(s, ids[..k + 1]).allFound
  {
    TakeOneMore(ids, k);
    DeleteEachSnoc(s, ids[..k], ids[k]);
  }

  /** With no `x.id` among `p`, deleting `x.id` from `p + [x] + b` takes out `x`. */
  lemma DeleteAfterPrefix(p: seq<Task>, x: Task, b: seq<Task>)
    requires forall j :: 0 <= j < |p| ==> p[j].id != x.id
    ensures DeleteOne(p + ([x] + b), x.id) == Deletion(p + b, true)
  {
    var s := p + ([x] + b);
    assert s[|p|] == x;
    assert forall j :: 0 <= j < |p| ==> s[j] == p[j];
    assert FirstIndex(s, TaskId, x.id) == |p|;
    assert s[..|p|] == p && s[|p| + 1..] == b;
  }

  /** A task that comes before `x` in a store with unique ids has another id. */
  lemma EarlierIdsDiffer(a': seq<Task>, x: Task, b: seq<Task>, q: seq<Task>)
    requires UniqueIds(a' + ([x] + b))
    requires forall t :: t in q ==> t in a'
    ensures forall j :: 0 <= j < |q| ==> q[j].id != x.id
  {
    forall j | 0 <= j < |q|
      ensures q[j].id != x.id
    {
      assert q[j] in a';
      var p :| 0 <= p < |a'| && a'[p] == q[j];
      assert (a' + ([x] + b))[p] == q[j] && (a' + ([x] + b))[|a'|] == x;
    }
  }

  /** How the archived and live parts grow when one task is added at the end. */
  lemma FilterLast(a': seq<Task>, x: Task)
    ensures x.archived ==> Ids(Filter(a' + [x], IsArchived)) == Ids(Filter(a', IsArchived)) + [x.id]
    ensures x.archived ==> Filter(a' + [x], IsActive) == Filter(a', IsActive)
    ensures !x.archived ==> Ids(Filter(a' + [x], IsArchived)) == Ids(Filter(a', IsArchived))
    ensures !x.archived ==> Filter(a' + [x], IsActive) == Filter(a', IsActive) + [x]
  {
    FilterAppend(a', [x], IsArchived);
    FilterAppend(a', [x], IsActive);
    assert [x][1..] == [];
    if x.archived {
      assert Filter(a' + [x], IsArchived) == Filter(a', IsArchived) + [x];
    } else {
      assert Filter(a' + [x], IsArchived) == Filter(a', IsArchived) + [];
      assert Filter(a' + [x], IsArchived) == Filter(a', IsArchived);
    }
  }

  /** The step of `DeleteArchivedPrefix` for an archived task: its id is
      the one more delete, and it finds that very task. */
  lemma ExtendArchived(a': seq<Task>, x: Task, b: seq<Task>)
    requires x.archived && UniqueIds(a' + ([x] + b))
    requires DeleteEach(a' + ([x] + b), Ids(Filter(a', IsArchived))) == Deletion(Filter(a', IsActive) + ([x] + b), true)
    ensures DeleteEach((a' + [x]) + b, Ids(Filter(a' + [x], IsArchived))) == Deletion(Filter(a' + [x], IsActive) + b, true)
  {
    AppendAssoc(a', [x], b);
    FilterLast(a', x);
    var live' := Filter(a', IsActive);
    DeleteEachSnoc(a' + ([x] + b), Ids(Filter(a', IsArchived)), x.id);
    EarlierIdsDiffer(a', x, b, live');
    DeleteAfterPrefix(live', x, b);
  }

  /** The step of `DeleteArchivedPrefix` for a live task: no more deletes,
      and the task stays. */
  lemma ExtendLive(a': seq<Task>, x: Task, b: seq<Task>)
    requires !x.archived
    requires DeleteEach(a' + ([x] + b), Ids(Filter(a', IsArchived))) == Deletion(Filter(a', IsActive) + ([x] + b), true)
    ensures DeleteEach((a' + [x]) + b, Ids(Filter(a' + [x], IsArchived))) == Deletion(Filter(a' + [x], IsActive) + b, true)
  {
    FilterLast(a', x);
    var ids := Ids(Filter(a', IsArchived));
    var live := Filter(a', IsActive);
    calc {
      DeleteEach((a' + [x]) + b, Ids(Filter(a' + [x], IsArchived)));
      { AppendAssoc(a', [x], b); }
      DeleteEach(a' + ([x] + b), ids);
      Deletion(live + ([x] + b), true);
      { AppendAssoc(live, [x], b); }
      Deletion((live + [x]) + b, true);
    }
  }

  /** Deleting, in order, the ids of the archived tasks at the front of the
      store removes exactly those tasks, when ids are unique. */
  lemma {:induction false} DeleteArchivedPrefix(a: seq<Task>, b: seq<Task>)
    requires UniqueIds(a + b)
    ensures DeleteEach(a + b, Ids(Filter(a, IsArchived))) == Deletion(Filter(a, IsActive) + b, true)
    decreases |a|
  {
    if a == [] {
      assert Ids(Filter(a, IsArchived)) == [];
    } else {
      var a' := a[..|a| - 1];
      var x := a[|a| - 1];
      assert a == a' + [x];
      AppendAssoc(a', [x], b);
      DeleteArchivedPrefix(a', [x] + b);
      if x.archived {
        ExtendArchived(a', x, b);
      } else {
        ExtendLive(a', x, b);
      }
    }
  }

  /** Clearing an archive just loaded from a store with unique ids deletes
      every archived task and nothing else, and every delete succeeds. */
  lemma ClearLoadedArchiveKeepsLiveTasks(s: seq<Task>)
    requires UniqueIds(s)
    ensures DeleteEach(s, Ids(Filter(s, IsArchived))) == Deletion(Filter(s, IsActive), true)
  {
    assert s + [] == s;
    DeleteArchivedPrefix(s, []);
    assert Filter(s, IsActive) + [] == Filter(s, IsActive);
  }

  class ArchiveScreen {
    const store: TaskService
    var tasks: seq<Task>
    var error: Option<string>

    /** Both the archive's tasks and the store's keep the completion invariant. */
    predicate Consistent()
      reads this, store
    {
      AllConsistent(tasks) && AllConsistent(store.tasks)
    }

    constructor (store: TaskService)
      ensures this.store == store && tasks == [] && error == None
    {
      this.store := store;
      tasks := [];
      error := None;
    }

    /** `loadArchivedTasks`: keeps the archived tasks of the store, or records the error. */
    method LoadArchivedTasks(link: Link)
      modifies this`tasks, this`error
      ensures link.Up? ==> tasks == Filter(store.tasks, IsArchived) && error == None
      ensures link.Down? ==> tasks == old(tasks) && error == Some(ErrorText(link.message, LoadArchivedFailed))
      ensures old(Consistent()) ==> Consistent()
    {
      error := None;
      if link.Down? {
        error := Some(ErrorText(link.message, LoadArchivedFailed));
        return;
      }
      var all := store.GetAll();
      tasks := Filter(all, IsArchived);
      FilterWithin(all, IsArchived);
      if old(Consistent()) {
        ConsistentWithin(tasks, all);
      }
    }

    /** `handleRestoreTask`: the local record, unarchived, is written over
        the store's, and the tasks with that id leave the archive. */
    method HandleRestoreTask(id: string, link: Link)
      modifies this`tasks, store
      ensures var k := FirstIndex(old(tasks), TaskId, id);
        var i := FirstIndex(old(store.tasks), TaskId, id);
        if k == -1 || link.Down? || i == -1 then tasks == old(tasks) && store.tasks == old(store.tasks)
        else
          && store.tasks == old(store.tasks)[i := old(tasks)[k].(archived := false)]
          && tasks == RemoveById(old(tasks), id)
      ensures old(Consistent()) ==> Consistent()
    {
      var k := FindIndex(tasks, TaskId, id);
      if k == -1 || link.Down? {
        return;
      }
      ghost var i := FirstIndex(store.tasks, TaskId, id);
      var r := store.Update(id, FullPatch(tasks[k].(archived := false)));
      if r.Success? {
        tasks := RemoveById(tasks, id);
      }
      if old(Consistent()) && r.Success? {
        assert old(tasks)[k] in old(tasks);
        ConsistentUpdated(old(store.tasks), i, r.value);
        ConsistentWithin(tasks, old(tasks));
      }
    }

    /** `handleDeleteTask`: permanent deletion, then the tasks with that id leave the archive. */
    method HandleDeleteTask(id: string, link: Link)
      modifies this`tasks, store
      ensures var i := FirstIndex(old(store.tasks), TaskId, id);
        if link.Down? || i == -1 then tasks == old(tasks) && store.tasks == old(store.tasks)
        else store.tasks == RemoveAt(old(store.tasks), i) && tasks == RemoveById(old(tasks), id)
      ensures old(Consistent()) ==> Consistent()
    {
      if link.Down? {
        return;
      }
      var r := store.Delete(id);
      if r.Success? {
        tasks := RemoveById(tasks, id);
      }
      if old(Consistent()) {
        ConsistentWithin(store.tasks, old(store.tasks));
        ConsistentWithin(tasks, old(tasks));
      }
    }

    /** `Promise.all(ids.map(id => taskService.delete(id)))`: every delete
        is issued, in order, and the result says whether all succeeded. */
    method DeleteAll(ids: seq<string>) returns (ok: bool)
      modifies store
      ensures store.tasks == DeleteEach(old(store.tasks), ids).rest
      ensures ok == DeleteEach(old(store.tasks), ids).allFound
    {
      ghost var s0 := store.tasks;
      ok := true;
      var k := 0;
      while k < |ids|
        invariant 0 <= k <= |ids|
        invariant store.tasks == DeleteEach(s0, ids[..k]).rest && ok == DeleteEach(s0, ids[..k]).allFound
      {
        ghost var before := store.tasks;
        var r := store.Delete(ids[k]);
        assert Deletion(store.tasks, r.Success?) == DeleteOne(before, ids[k]);
        DeleteEachStep(s0, ids, k, store.tasks, r.Success?);
        ok := ok && r.Success?;
        k := k + 1;
      }
      TakeAll(ids);
      assert ids[..k] == ids;
      assert store.tasks == DeleteEach(s0, ids).rest;
      assert s0 == old(store.tasks);
    }

    /** `handleClearArchive`: after confirmation, one delete per archived
        task; the archive is emptied only when every delete succeeded. */
    method HandleClearArchive(confirmed: bool, link: Link)
      modifies this`tasks, store
      ensures !confirmed || link.Down? ==> tasks == old(tasks) && store.tasks == old(store.tasks)
      ensures confirmed && link.Up? ==>
        var r := DeleteEach(old(store.tasks), Ids(old(tasks)));
        store.tasks == r.rest && tasks == (if r.allFound then [] else old(tasks))
      ensures old(Consistent()) ==> Consistent()
    {
      if !confirmed || link.Down? {
        return;
      }
      var ok := DeleteAll(Ids(tasks));
      if ok {
        tasks := [];
      }
      if old(Consistent()) {
        ConsistentWithin(store.tasks, old(store.tasks));
      }
    }
  }
}
