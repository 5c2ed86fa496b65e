/**
 * The task service: an array of tasks keyed by `Id`, with lookup, creation,
 * patching, deletion and two filter queries. Each operation takes the current
 * array (and the current instant where the service reads the clock) and
 * returns the new array together with the value the service resolves to.
 */
module TaskStore {
  import opened Wrappers
  import opened Dates
  import opened Records
  import Text
  import Seqs
  import Store

  /** What a caller passes to `create`; `None` is an absent property. */
  datatype TaskInput = TaskInput(
    title: string,
    description: Option<string>,
    priority: Option<string>,
    dueDate: Option<Day>,
    category: Option<string>,
    projectId: Option<int>,
    parentId: Option<int>,
    status: Option<string>,
    completed: Option<bool>)

  /**
   * What a caller passes to `update`: `None` leaves a field alone, `Some(v)`
   * overwrites it (for nullable fields `v` may itself be `None`, i.e. `null`).
   */
  datatype TaskPatch = TaskPatch(
    Id: Option<int>,
    title: Option<string>,
    description: Option<string>,
    priority: Option<string>,
    dueDate: Option<Option<Day>>,
    category: Option<string>,
    projectId: Option<Option<int>>,
    completed: Option<bool>,
    createdAt: Option<Time>,
    completedAt: Option<Option<Time>>,
    parentId: Option<Option<int>>,
    status: Option<Option<string>>)

  const EmptyPatch := TaskPatch(None, None, None, None, None, None, None, None, None, None, None, None)

  /** Position of the first task with `id`. */
  function IndexOf(tasks: seq<Task>, id: int): Option<nat> {
    Store.FindIndex(tasks, TaskId, id)
  }

  /** No task in `tasks` has `id`. */
  predicate Absent(tasks: seq<Task>, id: int) {
    forall t :: t in tasks ==> t.Id != id
  }

  lemma IndexOfAbsent(tasks: seq<Task>, id: int)
    ensures IndexOf(tasks, id).None? <==> Absent(tasks, id)
  {
    if IndexOf(tasks, id).Some? {
      assert tasks[IndexOf(tasks, id).value] in tasks;
    }
  }

  /** `getById`: the first task with `id`, or `null`. */
  function GetById(tasks: seq<Task>, id: int): (r: Option<Task>)
    ensures r.None? <==> Absent(tasks, id)
    ensures r.Some? ==> r.value in tasks && r.value.Id == id
  {
    IndexOfAbsent(tasks, id);
    Store.Find(tasks, TaskId, id)
  }

  /** `create`: a fresh id, the documented defaults, and the task appended. */
  function Create(tasks: seq<Task>, input: TaskInput, now: Time): (r: (seq<Task>, Task))
    ensures r.0 == tasks + [r.1]
    ensures forall t :: t in tasks ==> t.Id < r.1.Id
    ensures |tasks| == 0 ==> r.1.Id == 1
    ensures |tasks| > 0 ==> exists i :: 0 <= i < |tasks| && tasks[i].Id == r.1.Id - 1
    ensures r.1.title == input.title
    ensures !r.1.completed && r.1.completedAt.None?
    ensures r.1.parentId.None? && r.1.status.None?
    ensures r.1.createdAt == now
    ensures r.1.projectId.Some? ==> r.1.projectId == input.projectId && r.1.projectId != Some(0)
    ensures r.1.projectId == if input.projectId == Some(0) then None else input.projectId
    ensures r.1.description == Text.OrElse(input.description, "")
    ensures r.1.priority == Text.OrElse(input.priority, "medium")
    ensures r.1.dueDate == input.dueDate
    ensures r.1.category == Text.OrElse(input.category, "Personal")
  {
    var id := Store.NextId(tasks, TaskId);
    var t := Task(
      id,
      input.title,
      Text.OrElse(input.description, ""),
      Text.OrElse(input.priority, "medium"),
      input.dueDate,
      Text.OrElse(input.category, "Personal"),
      if input.projectId.Some? && input.projectId.value != 0 then input.projectId else None,
      false,
      now,
      None,
      None,
      None);
    (tasks + [t], t)
  }

  /**
   * The record `update` writes: the patch spread over the prev record, `Id`
   * pinned to the requested id, then `completedAt` re-stamped whenever the
   * patch names `completed`.
   */
  function Merge(prev: Task, id: int, p: TaskPatch, now: Time): Task {
    var merged := Task(
      id,
      p.title.GetOr(prev.title),
      p.description.GetOr(prev.description),
      p.priority.GetOr(prev.priority),
      p.dueDate.GetOr(prev.dueDate),
      p.category.GetOr(prev.category),
      p.projectId.GetOr(prev.projectId),
      p.completed.GetOr(prev.completed),
      p.createdAt.GetOr(prev.createdAt),
      p.completedAt.GetOr(prev.completedAt),
      p.parentId.GetOr(prev.parentId),
      p.status.GetOr(prev.status));
    if p.completed.Some? then
      merged.(completedAt := if p.completed.value then Some(now) else None)
    else
      merged
  }

  /** `update`: `null` and no change for an unknown id, else the merged record in place. */
  function Update(tasks: seq<Task>, id: int, p: TaskPatch, now: Time): (r: (seq<Task>, Option<Task>))
    ensures r.1.None? <==> Absent(tasks, id)
    ensures r.1.None? ==> r.0 == tasks
    ensures r.1.Some? ==>
      (IndexOf(tasks, id).Some? && r.0 == tasks[IndexOf(tasks, id).value := r.1.value])
    ensures r.1.Some? ==> r.1.value.Id == id
    ensures r.1.Some? && p.completed.Some? ==>
      r.1.value.completed == p.completed.value &&
      (r.1.value.completedAt.Some? <==> r.1.value.completed) &&
      (r.1.value.completed ==> r.1.value.completedAt == Some(now))
    ensures r.1.Some? && p.completed.None? ==>
      var prev := tasks[IndexOf(tasks, id).value];
      r.1.value.completed == prev.completed &&
      r.1.value.completedAt == p.completedAt.GetOr(prev.completedAt)
  {
    IndexOfAbsent(tasks, id);
    match IndexOf(tasks, id)
    case None => (tasks, None)
    case Some(i) =>
      var t := Merge(tasks[i], id, p, now);
      (tasks[i := t], Some(t))
  }

  /** `delete`: `false` and no change for an unknown id, else the first match spliced out. */
  function Delete(tasks: seq<Task>, id: int): (r: (seq<Task>, bool))
    ensures !r.1 <==> Absent(tasks, id)
    ensures !r.1 ==> r.0 == tasks
    ensures r.1 ==> |r.0| == |tasks| - 1 && Seqs.IsSubsequence(r.0, tasks)
    ensures r.1 ==> exists t :: t in tasks && t.Id == id && multiset(r.0) + multiset{t} == multiset(tasks)
    ensures forall t :: t in tasks && t.Id != id ==> t in r.0
  {
    IndexOfAbsent(tasks, id);
    match IndexOf(tasks, id)
    case None => (tasks, false)
    case Some(i) =>
      var rest := Store.RemoveAt(tasks, i);
      Store.RemoveAtSubsequence(tasks, i);
      assert tasks[i] in tasks;
      Store.RemoveAtKeepsOthers(tasks, i, TaskId);
      (rest, true)
  }

  /** `getByStatus(completed)`: the tasks whose flag equals `completed`, in store order. */
  function GetByStatus(tasks: seq<Task>, completed: bool): (r: seq<Task>)
    ensures forall t :: t in r <==> t in tasks && t.completed == completed
    ensures Seqs.IsSubsequence(r, tasks)
  {
    Seqs.Filter(tasks, (t: Task) => t.completed == completed)
  }

  /** The search predicate: title or description contains the query, ignoring case. */
  predicate MatchesSearch(t: Task, query: string) {
    Text.MatchesIgnoringCase(t.title, query) || Text.MatchesIgnoringCase(t.description, query)
  }

  /** `search(query)`: the matching tasks, in store order. */
  function Search(tasks: seq<Task>, query: string): (r: seq<Task>)
    ensures forall t :: t in r <==> t in tasks && MatchesSearch(t, query)
    ensures Seqs.IsSubsequence(r, tasks)
  {
    Seqs.Filter(tasks, (t: Task) => MatchesSearch(t, query))
  }

  // ---------------------------------------------------------------------------
  // Properties relating the operations

  /** Creation keeps ids unique. */
  lemma CreateKeepsIdsUnique(tasks: seq<Task>, input: TaskInput, now: Time)
    requires Store.UniqueIds(tasks, TaskId)
    ensures Store.UniqueIds(Create(tasks, input, now).0, TaskId)
  {
    var r := Create(tasks, input, now);
    forall i | 0 <= i < |tasks|
      ensures TaskId(tasks[i]) < TaskId(r.1)
    {
      assert tasks[i] in tasks;
    }
    Store.AppendFreshUnique(tasks, r.1, TaskId);
  }

  /** The created task is what `getById` finds under its new id. */
  lemma CreateThenGet(tasks: seq<Task>, input: TaskInput, now: Time)
    ensures var r := Create(tasks, input, now); GetById(r.0, r.1.Id) == Some(r.1)
  {
    var r := Create(tasks, input, now);
    var s := r.0;
    forall i | 0 <= i < |tasks|
      ensures s[i].Id != r.1.Id
    {
      assert tasks[i] in tasks;
    }
    Store.FindIndexIs(s, TaskId, r.1.Id, |tasks|);
  }

  /** Deleting the task just created restores the store. */
  lemma CreateThenDelete(tasks: seq<Task>, input: TaskInput, now: Time)
    ensures var r := Create(tasks, input, now); Delete(r.0, r.1.Id) == (tasks, true)
  {
    var r := Create(tasks, input, now);
    var s := r.0;
    forall i | 0 <= i < |tasks|
      ensures s[i].Id != r.1.Id
    {
      assert tasks[i] in tasks;
    }
    Store.FindIndexIs(s, TaskId, r.1.Id, |tasks|);
    assert Store.RemoveAt(s, |tasks|) == tasks;
  }

  /** A task created with only a title gets every documented default. */
  lemma CreateDefaults(tasks: seq<Task>, title: string, now: Time)
    ensures var t := Create(tasks, TaskInput(title, None, None, None, None, None, None, None, None), now).1;
      t.description == "" && t.priority == "medium" && t.dueDate.None? &&
      t.category == "Personal" && t.projectId.None?
  {
  }

  /** `create` ignores a parent id and a status in its input. */
  lemma CreateIgnoresParentAndStatus(tasks: seq<Task>, input: TaskInput, parent: Option<int>, status: Option<string>, now: Time)
    ensures Create(tasks, input.(parentId := parent, status := status), now) == Create(tasks, input, now)
  {
  }

  /** Update keeps ids unique: the rewritten record keeps the requested id. */
  lemma UpdateKeepsIdsUnique(tasks: seq<Task>, id: int, p: TaskPatch, now: Time)
    requires Store.UniqueIds(tasks, TaskId)
    ensures Store.UniqueIds(Update(tasks, id, p, now).0, TaskId)
  {
    var r := Update(tasks, id, p, now);
    if r.1.Some? {
      Store.ReplaceSameIdUnique(tasks, IndexOf(tasks, id).value, r.1.value, TaskId);
    }
  }

  /**
   * A successful update writes the patch over the stored record field by
   * field, keeps the requested `Id`, and when the patch names `completed`
   * stamps `completedAt` with the update's instant or clears it.
   */
  lemma UpdateMerges(tasks: seq<Task>, id: int, p: TaskPatch, now: Time)
    requires !Absent(tasks, id)
    ensures var prev := GetById(tasks, id).value;
      var done := p.completed.GetOr(prev.completed);
      Update(tasks, id, p, now).1 == Some(prev.(
        title := p.title.GetOr(prev.title),
        description := p.description.GetOr(prev.description),
        priority := p.priority.GetOr(prev.priority),
        dueDate := p.dueDate.GetOr(prev.dueDate),
        category := p.category.GetOr(prev.category),
        projectId := p.projectId.GetOr(prev.projectId),
        completed := done,
        createdAt := p.createdAt.GetOr(prev.createdAt),
        completedAt :=
          if p.completed.None? then p.completedAt.GetOr(prev.completedAt)
          else if done then Some(now) else None,
        parentId := p.parentId.GetOr(prev.parentId),
        status := p.status.GetOr(prev.status)))
  {
    IndexOfAbsent(tasks, id);
  }

  /** An `Id` carried by the patch is ignored. */
  lemma UpdateIgnoresPatchId(tasks: seq<Task>, id: int, p: TaskPatch, other: Option<int>, now: Time)
    ensures Update(tasks, id, p.(Id := other), now) == Update(tasks, id, p, now)
  {
  }

  /** An empty patch changes nothing and returns the record found. */
  lemma UpdateEmptyPatch(tasks: seq<Task>, id: int, now: Time)
    ensures Update(tasks, id, EmptyPatch, now) == (tasks, GetById(tasks, id))
  {
    match IndexOf(tasks, id)
    case None =>
    case Some(i) =>
      assert Merge(tasks[i], id, EmptyPatch, now) == tasks[i];
      assert tasks[i := tasks[i]] == tasks;
  }

  /** After an update, `getById` sees the returned record. */
  lemma UpdateThenGet(tasks: seq<Task>, id: int, p: TaskPatch, now: Time)
    requires !Absent(tasks, id)
    ensures var r := Update(tasks, id, p, now); GetById(r.0, id) == r.1
  {
    var r := Update(tasks, id, p, now);
    var i := IndexOf(tasks, id).value;
    Store.FindIndexIs(r.0, TaskId, id, i);
  }

  /** Applying the same patch twice at the same instant is the same as once. */
  lemma UpdateIdempotent(tasks: seq<Task>, id: int, p: TaskPatch, now: Time)
    ensures var r := Update(tasks, id, p, now); Update(r.0, id, p, now) == r
  {
    var r := Update(tasks, id, p, now);
    if r.1.Some? {
      var i := IndexOf(tasks, id).value;
      Store.FindIndexIs(r.0, TaskId, id, i);
      assert Merge(r.1.value, id, p, now) == r.1.value;
      assert r.0[i := r.1.value] == r.0;
    }
  }

  /** Deleting a task leaves its subtasks in place: there is no cascade. */
  lemma DeleteKeepsSubtasks(tasks: seq<Task>, id: int, t: Task)
    requires t in tasks && t.parentId == Some(id) && t.Id != id
    ensures t in Delete(tasks, id).0
  {
  }

  /** With unique ids, a successful delete leaves no task with that id. */
  lemma DeleteRemovesId(tasks: seq<Task>, id: int)
    requires Store.UniqueIds(tasks, TaskId)
    ensures Absent(Delete(tasks, id).0, id)
  {
    IndexOfAbsent(tasks, id);
    match IndexOf(tasks, id)
    case None =>
    case Some(i) =>
      var rest := Store.RemoveAt(tasks, i);
      forall k | 0 <= k < |rest|
        ensures rest[k].Id != id
      {
        if k < i {
          assert TaskId(tasks[k]) != TaskId(tasks[i]);
        } else {
          assert TaskId(tasks[k + 1]) != TaskId(tasks[i]);
        }
      }
  }

  /** Completed and incomplete tasks split the store. */
  lemma GetByStatusPartition(tasks: seq<Task>)
    ensures |GetByStatus(tasks, true)| + |GetByStatus(tasks, false)| == |tasks|
  {
    Seqs.FilterComplementCount(tasks, (t: Task) => t.completed == true, (t: Task) => t.completed == false);
  }

  /** Two queries that lower-case alike find the same tasks. */
  lemma SearchIgnoresQueryCase(tasks: seq<Task>, q1: string, q2: string)
    requires Text.Lower(q1) == Text.Lower(q2)
    ensures Search(tasks, q1) == Search(tasks, q2)
  {
    forall t: Task
      ensures MatchesSearch(t, q1) == MatchesSearch(t, q2)
    {
      Text.MatchIgnoresQueryCase(t.title, q1, q2);
      Text.MatchIgnoresQueryCase(t.description, q1, q2);
    }
    Seqs.FilterCongruent(tasks, (t: Task) => MatchesSearch(t, q1), (t: Task) => MatchesSearch(t, q2));
  }

  /** The empty query finds every task. */
  lemma SearchEmptyFindsAll(tasks: seq<Task>)
    ensures Search(tasks, "") == tasks
  {
    forall t: Task
      ensures MatchesSearch(t, "")
    {
      Text.IncludesEmpty(Text.Lower(t.title));
    }
    Seqs.FilterAll(tasks, (t: Task) => MatchesSearch(t, ""));
  }
}
