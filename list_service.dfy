/** The mock list store: one array of list records, grown by `push` with a
    `sortOrder` read from the current length. */
module ListStore {
  import opened Wrappers
  import opened Seqs

  const ListNotFound := "List not found"

  /** A task list: identifier, display name and display position. */
  datatype TaskList = TaskList(id: string, name: string, sortOrder: int)

  /** The object spread over a list record; absent fields are left alone. */
  datatype ListPatch = ListPatch(id: Option<string>, name: Option<string>, sortOrder: Option<int>)

  function ListId(l: TaskList): string { l.id }

  /** `{ ...l, ...p }` */
  function MergeList(l: TaskList, p: ListPatch): (r: TaskList)
    ensures r.id == p.id.GetOr(l.id) && r.name == p.name.GetOr(l.name)
    ensures r.sortOrder == p.sortOrder.GetOr(l.sortOrder)
  {
    TaskList(p.id.GetOr(l.id), p.name.GetOr(l.name), p.sortOrder.GetOr(l.sortOrder))
  }

  class ListService {
    var lists: seq<TaskList>

    constructor (seed: seq<TaskList>)
      ensures lists == seed
    {
      lists := seed;
    }

    method GetAll() returns (r: seq<TaskList>)
      ensures r == lists
    {
      r := lists;
    }

    method GetById(id: string) returns (r: Result<TaskList>)
      ensures r.Failure? <==> forall l :: l in lists ==> l.id != id
      ensures r.Failure? ==> r.error == ListNotFound
      ensures r.Success? ==> r.value == lists[FirstIndex(lists, ListId, id)] && r.value.id == id
    {
      var i := FindIndex(lists, ListId, id);
      if i == -1 {
        return Failure(ListNotFound);
      }
      return Success(lists[i]);
    }

    /** `{ id: <generated>, ...data, sortOrder: lists.length }`, appended. */
    method Create(data: ListPatch, generatedId: string) returns (created: TaskList)
      modifies this
      ensures created.id == data.id.GetOr(generatedId) && created.name == data.name.GetOr("")
      // the supplied sortOrder never survives: the new list goes last
      ensures created.sortOrder == |old(lists)|
      ensures lists == old(lists) + [created]
    {
      created := MergeList(TaskList(generatedId, "", 0), data).(sortOrder := |lists|);
      lists := lists + [created];
    }

    method Update(id: string, patch: ListPatch) returns (r: Result<TaskList>)
      modifies this
      ensures var i := FirstIndex(old(lists), ListId, id);
        if i == -1 then r == Failure(ListNotFound) && lists == old(lists)
        else r == Success(MergeList(old(lists)[i], patch)) && lists == old(lists)[i := r.value]
    {
      var i := FindIndex(lists, ListId, id);
      if i == -1 {
        return Failure(ListNotFound);
      }
      lists := lists[i := MergeList(lists[i], patch)];
      return Success(lists[i]);
    }

    method Delete(id: string) returns (r: Result<bool>)
      modifies this
      ensures var i := FirstIndex(old(lists), ListId, id);
        if i == -1 then r == Failure(ListNotFound) && lists == old(lists)
        else r == Success(true) && lists == RemoveAt(old(lists), i)
    {
      var i := FindIndex(lists, ListId, id);
      if i == -1 {
        return Failure(ListNotFound);
      }
      lists := RemoveAt(lists, i);
      return Success(true);
    }
  }

  /** Whether every list's sortOrder is its position. */
  predicate PositionallyOrdered(s: seq<TaskList>) {
    forall i :: 0 <= i < |s| ==> s[i].sortOrder == i
  }

  /** Appending with `sortOrder: lists.length` keeps every sortOrder equal to its position. */
  lemma AppendKeepsOrder(s: seq<TaskList>, l: TaskList)
    requires PositionallyOrdered(s) && l.sortOrder == |s|
    ensures PositionallyOrdered(s + [l])
  {
  }
}
