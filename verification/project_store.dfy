/**
 * The project service: an array of projects keyed by `Id`. Unlike tasks,
 * projects carry `createdAt`/`updatedAt` stamps and `update` always
 * refreshes `updatedAt`.
 */
module ProjectStore {
  import opened Wrappers
  import opened Dates
  import opened Records
  import Text
  import Seqs
  import Store

  /** What a caller passes to `create`; `None` is an absent property. */
  datatype ProjectInput = ProjectInput(
    name: string,
    description: Option<string>,
    status: Option<string>,
    priority: Option<string>,
    startDate: Option<Day>,
    dueDate: Option<Day>,
    color: Option<string>,
    progress: Option<int>)

  /** What a caller passes to `update`: `None` leaves a field alone. */
  datatype ProjectPatch = ProjectPatch(
    Id: Option<int>,
    name: Option<string>,
    description: Option<string>,
    status: Option<string>,
    priority: Option<string>,
    startDate: Option<Option<Day>>,
    dueDate: Option<Option<Day>>,
    color: Option<string>,
    progress: Option<Option<int>>,
    createdAt: Option<Time>,
    updatedAt: Option<Time>)

  const EmptyPatch := ProjectPatch(None, None, None, None, None, None, None, None, None, None, None)

  const DefaultColor := "#4F46E5"

  function IndexOf(projects: seq<Project>, id: int): Option<nat> {
    Store.FindIndex(projects, ProjectId, id)
  }

  /** No project in `projects` has `id`. */
  predicate Absent(projects: seq<Project>, id: int) {
    forall p :: p in projects ==> p.Id != id
  }

  lemma IndexOfAbsent(projects: seq<Project>, id: int)
    ensures IndexOf(projects, id).None? <==> Absent(projects, id)
  {
    if IndexOf(projects, id).Some? {
      assert projects[IndexOf(projects, id).value] in projects;
    }
  }

  /** `getById`: the first project with `id`, or `null`. */
  function GetById(projects: seq<Project>, id: int): (r: Option<Project>)
    ensures r.None? <==> Absent(projects, id)
    ensures r.Some? ==> r.value in projects && r.value.Id == id
  {
    IndexOfAbsent(projects, id);
    Store.Find(projects, ProjectId, id)
  }

  /**
   * `create`: a fresh id, the documented defaults, progress 0 whatever the
   * input says, and both stamps set to the same instant.
   */
  function Create(projects: seq<Project>, input: ProjectInput, now: Time): (r: (seq<Project>, Project))
    ensures r.0 == projects + [r.1]
    ensures forall p :: p in projects ==> p.Id < r.1.Id
    ensures |projects| == 0 ==> r.1.Id == 1
    ensures |projects| > 0 ==> exists i :: 0 <= i < |projects| && projects[i].Id == r.1.Id - 1
    ensures r.1.name == input.name
    ensures r.1.progress == Some(0)
    ensures r.1.createdAt == now && r.1.updatedAt == now
    ensures r.1.startDate == Some(input.startDate.GetOr(DayOf(now)))
    ensures r.1.description == Text.OrElse(input.description, "")
    ensures r.1.status == Text.OrElse(input.status, "active")
    ensures r.1.priority == Text.OrElse(input.priority, "medium")
    ensures r.1.dueDate == input.dueDate
    ensures r.1.color == Text.OrElse(input.color, DefaultColor)
  {
    var id := Store.NextId(projects, ProjectId);
    var p := Project(
      id,
      input.name,
      Text.OrElse(input.description, ""),
      Text.OrElse(input.status, "active"),
      Text.OrElse(input.priority, "medium"),
      Some(input.startDate.GetOr(DayOf(now))),
      input.dueDate,
      Text.OrElse(input.color, DefaultColor),
      Some(0),
      now,
      now);
    (projects + [p], p)
  }

  /** The record `update` writes: the patch spread over the old record, `Id` and `updatedAt` pinned. */
  function Merge(prev: Project, id: int, p: ProjectPatch, now: Time): Project {
    Project(
      id,
      p.name.GetOr(prev.name),
      p.description.GetOr(prev.description),
      p.status.GetOr(prev.status),
      p.priority.GetOr(prev.priority),
      p.startDate.GetOr(prev.startDate),
      p.dueDate.GetOr(prev.dueDate),
      p.color.GetOr(prev.color),
      p.progress.GetOr(prev.progress),
      p.createdAt.GetOr(prev.createdAt),
      now)
  }

  /** `update`: `null` and no change for an unknown id, else the merged record in place. */
  function Update(projects: seq<Project>, id: int, p: ProjectPatch, now: Time): (r: (seq<Project>, Option<Project>))
    ensures r.1.None? <==> Absent(projects, id)
    ensures r.1.None? ==> r.0 == projects
    ensures r.1.Some? ==>
      (IndexOf(projects, id).Some? && r.0 == projects[IndexOf(projects, id).value := r.1.value])
    ensures r.1.Some? ==> r.1.value.Id == id && r.1.value.updatedAt == now
  {
    IndexOfAbsent(projects, id);
    match IndexOf(projects, id)
    case None => (projects, None)
    case Some(i) =>
      var q := Merge(projects[i], id, p, now);
      (projects[i := q], Some(q))
  }

  /** `delete`: `false` and no change for an unknown id, else the first match spliced out. */
  function Delete(projects: seq<Project>, id: int): (r: (seq<Project>, bool))
    ensures !r.1 <==> Absent(projects, id)
    ensures !r.1 ==> r.0 == projects
    ensures r.1 ==> |r.0| == |projects| - 1 && Seqs.IsSubsequence(r.0, projects)
    ensures r.1 ==> exists q :: q in projects && q.Id == id && multiset(r.0) + multiset{q} == multiset(projects)
    ensures forall q :: q in projects && q.Id != id ==> q in r.0
  {
    IndexOfAbsent(projects, id);
    match IndexOf(projects, id)
    case None => (projects, false)
    case Some(i) =>
      var rest := Store.RemoveAt(projects, i);
      Store.RemoveAtSubsequence(projects, i);
      assert projects[i] in projects;
      assert multiset(rest) + multiset{projects[i]} == multiset(projects);
      Store.RemoveAtKeepsOthers(projects, i, ProjectId);
      (rest, true)
  }

  /** `getByStatus(status)`: the projects with exactly that status, in store order. */
  function GetByStatus(projects: seq<Project>, status: string): (r: seq<Project>)
    ensures forall q :: q in r <==> q in projects && q.status == status
    ensures Seqs.IsSubsequence(r, projects)
  {
    Seqs.Filter(projects, (q: Project) => q.status == status)
  }

  /** The search predicate: name or description contains the query, ignoring case. */
  predicate MatchesSearch(q: Project, query: string) {
    Text.MatchesIgnoringCase(q.name, query) || Text.MatchesIgnoringCase(q.description, query)
  }

  /** `search(query)`: the matching projects, in store order. */
  function Search(projects: seq<Project>, query: string): (r: seq<Project>)
    ensures forall q :: q in r <==> q in projects && MatchesSearch(q, query)
    ensures Seqs.IsSubsequence(r, projects)
  {
    Seqs.Filter(projects, (q: Project) => MatchesSearch(q, query))
  }

  // ---------------------------------------------------------------------------
  // Properties relating the operations

  /** Creation keeps ids unique. */
  lemma CreateKeepsIdsUnique(projects: seq<Project>, input: ProjectInput, now: Time)
    requires Store.UniqueIds(projects, ProjectId)
    ensures Store.UniqueIds(Create(projects, input, now).0, ProjectId)
  {
    var r := Create(projects, input, now);
    forall i | 0 <= i < |projects|
      ensures ProjectId(projects[i]) < ProjectId(r.1)
    {
      assert projects[i] in projects;
    }
    Store.AppendFreshUnique(projects, r.1, ProjectId);
  }

  /** A project created from a bare name gets every documented default. */
  lemma CreateDefaults(projects: seq<Project>, name: string, now: Time)
    ensures var q := Create(projects, ProjectInput(name, None, None, None, None, None, None, None), now).1;
      q.description == "" && q.status == "active" && q.priority == "medium" &&
      q.dueDate.None? && q.color == "#4F46E5" && q.startDate == Some(DayOf(now)) && q.progress == Some(0)
  {
  }

  /** The progress a caller supplies to `create` is discarded. */
  lemma CreateIgnoresProgress(projects: seq<Project>, input: ProjectInput, progress: Option<int>, now: Time)
    ensures Create(projects, input.(progress := progress), now) == Create(projects, input, now)
  {
  }

  /** Deleting the project just created restores the store. */
  lemma CreateThenDelete(projects: seq<Project>, input: ProjectInput, now: Time)
    ensures var r := Create(projects, input, now); Delete(r.0, r.1.Id) == (projects, true)
  {
    var r := Create(projects, input, now);
    forall i | 0 <= i < |projects|
      ensures r.0[i].Id != r.1.Id
    {
      assert projects[i] in projects;
    }
    Store.FindIndexIs(r.0, ProjectId, r.1.Id, |projects|);
    assert Store.RemoveAt(r.0, |projects|) == projects;
  }

  /** `updatedAt` always becomes the update's instant; a patched one is ignored. */
  lemma UpdateIgnoresPatchStamps(projects: seq<Project>, id: int, p: ProjectPatch, other: Option<Time>, otherId: Option<int>, now: Time)
    ensures Update(projects, id, p.(updatedAt := other, Id := otherId), now) == Update(projects, id, p, now)
  {
  }

  /** An empty patch changes only `updatedAt`. */
  lemma UpdateEmptyPatchTouchesOnlyStamp(projects: seq<Project>, id: int, now: Time)
    requires !Absent(projects, id)
    ensures var r := Update(projects, id, EmptyPatch, now);
      r.1.Some? && r.1 == Some(GetById(projects, id).value.(updatedAt := now))
  {
  }

  /**
   * A successful update writes the patch over the stored record field by
   * field: the `Id` stays the one asked for and `updatedAt` is always the
   * update's instant, whatever the patch holds.
   */
  lemma UpdateMerges(projects: seq<Project>, id: int, p: ProjectPatch, now: Time)
    requires !Absent(projects, id)
    ensures var prev := GetById(projects, id).value;
      Update(projects, id, p, now).1 == Some(prev.(
        name := p.name.GetOr(prev.name),
        description := p.description.GetOr(prev.description),
        status := p.status.GetOr(prev.status),
        priority := p.priority.GetOr(prev.priority),
        startDate := p.startDate.GetOr(prev.startDate),
        dueDate := p.dueDate.GetOr(prev.dueDate),
        color := p.color.GetOr(prev.color),
        progress := p.progress.GetOr(prev.progress),
        createdAt := p.createdAt.GetOr(prev.createdAt),
        updatedAt := now))
  {
    IndexOfAbsent(projects, id);
  }

  /** A project just created is what `getById` finds under its id. */
  lemma CreateThenGet(projects: seq<Project>, input: ProjectInput, now: Time)
    ensures var r := Create(projects, input, now); GetById(r.0, r.1.Id) == Some(r.1)
  {
    var r := Create(projects, input, now);
    forall i | 0 <= i < |projects|
      ensures r.0[i].Id != r.1.Id
    {
      assert projects[i] in projects;
    }
    Store.FindIndexIs(r.0, ProjectId, r.1.Id, |projects|);
  }

  /** Update keeps ids unique. */
  lemma UpdateKeepsIdsUnique(projects: seq<Project>, id: int, p: ProjectPatch, now: Time)
    requires Store.UniqueIds(projects, ProjectId)
    ensures Store.UniqueIds(Update(projects, id, p, now).0, ProjectId)
  {
    var r := Update(projects, id, p, now);
    if r.1.Some? {
      Store.ReplaceSameIdUnique(projects, IndexOf(projects, id).value, r.1.value, ProjectId);
    }
  }

  /** Two queries that agree once lower-cased find the same projects. */
  lemma SearchIgnoresQueryCase(projects: seq<Project>, q1: string, q2: string)
    requires Text.Lower(q1) == Text.Lower(q2)
    ensures Search(projects, q1) == Search(projects, q2)
  {
    forall q: Project
      ensures MatchesSearch(q, q1) == MatchesSearch(q, q2)
    {
      Text.MatchIgnoresQueryCase(q.name, q1, q2);
      Text.MatchIgnoresQueryCase(q.description, q1, q2);
    }
    Seqs.FilterCongruent(projects, (q: Project) => MatchesSearch(q, q1), (q: Project) => MatchesSearch(q, q2));
  }
}
