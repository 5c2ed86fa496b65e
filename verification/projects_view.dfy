/** The projects page's list: status tab, search box, then newest update first. */
module ProjectsView {
  import opened Wrappers
  import opened Dates
  import opened Records
  import Seqs
  import ProjectStore
  import ProjectForm

  /** The status tab: "all" keeps every project, any other value that exact status. */
  predicate PassesStatus(p: Project, statusFilter: string) {
    statusFilter == "all" || p.status == statusFilter
  }

  /** The tab, then the search box if the query is non-empty, in store order. */
  function Selected(projects: seq<Project>, statusFilter: string, query: string): (r: seq<Project>)
    ensures forall p :: p in r <==>
      p in projects && PassesStatus(p, statusFilter) && (query == "" || ProjectStore.MatchesSearch(p, query))
    ensures multiset(r) <= multiset(projects)
  {
    var byStatus := if statusFilter != "all" then Seqs.Filter(projects, (p: Project) => p.status == statusFilter) else projects;
    if query != "" then Seqs.Filter(byStatus, (p: Project) => ProjectStore.MatchesSearch(p, query)) else byStatus
  }

  /**
   * `getFilteredProjects`: the projects passing the tab and (if non-empty) the
   * search box, stably sorted by `updatedAt`, newest first.
   */
  function FilteredProjects(projects: seq<Project>, statusFilter: string, query: string): (r: seq<Project>)
    ensures forall p :: p in r <==>
      p in projects && PassesStatus(p, statusFilter) && (query == "" || ProjectStore.MatchesSearch(p, query))
    ensures Seqs.SortedDesc(r, UpdatedAt)
    ensures multiset(r) <= multiset(projects)
    ensures multiset(r) == multiset(Selected(projects, statusFilter, query))
    ensures Seqs.SameTieOrder(r, Selected(projects, statusFilter, query), UpdatedAt)
  {
    var selected := Selected(projects, statusFilter, query);
    var r := Seqs.SortDesc(selected, UpdatedAt);
    Seqs.SameMultisetSameMembers(r, selected);
    r
  }

  /** Projects updated at the same instant keep their store order on the page. */
  lemma EqualStampsKeepStoreOrder(projects: seq<Project>, t: int)
    requires forall i :: 0 <= i < |projects| ==> projects[i].updatedAt == t
    ensures FilteredProjects(projects, "all", "") == projects
  {
    Seqs.SortDescAllTied(projects, UpdatedAt, t);
  }

  /** With the "all" tab and no query, the page shows every project, just reordered. */
  lemma NoFilterIsPermutation(projects: seq<Project>)
    ensures multiset(FilteredProjects(projects, "all", "")) == multiset(projects)
  {
  }

  /** With a status tab and no query, the page shows the service's `getByStatus`, reordered. */
  lemma StatusTabIsStoreQuery(projects: seq<Project>, status: string)
    requires status != "all"
    ensures multiset(FilteredProjects(projects, status, "")) == multiset(ProjectStore.GetByStatus(projects, status))
  {
  }

  /** The page's search uses the service's match rule, so it agrees with `search` up to order. */
  lemma SearchIsStoreSearch(projects: seq<Project>, query: string)
    requires query != ""
    ensures multiset(FilteredProjects(projects, "all", query)) == multiset(ProjectStore.Search(projects, query))
  {
  }

  /**
   * `handleUpdateProject`: the edit form's whole payload becomes the patch,
   * so a cleared start date and a NaN progress overwrite the stored ones.
   */
  function EditPatch(p: ProjectForm.Payload): (r: ProjectStore.ProjectPatch)
    ensures r.Id.None? && r.createdAt.None? && r.updatedAt.None?
    ensures r.name == Some(p.name) && r.description == Some(p.description)
    ensures r.status == Some(p.status) && r.priority == Some(p.priority) && r.color == Some(p.color)
    ensures r.startDate == Some(p.startDate) && r.dueDate == Some(p.dueDate) && r.progress == Some(p.progress)
  {
    ProjectStore.ProjectPatch(None, Some(p.name), Some(p.description), Some(p.status), Some(p.priority),
                              Some(p.startDate), Some(p.dueDate), Some(p.color), Some(p.progress), None, None)
  }

  /**
   * Saving an edit whose start date was cleared and whose progress text had
   * no digits stores neither a date nor a number; opening the form on the
   * stored project again shows today and 0 in their place.
   */
  lemma ClearedEditReopensWithDefaults(projects: seq<Project>, id: int, p: ProjectForm.Payload, now: Time, later: Time)
    requires !ProjectStore.Absent(projects, id)
    requires p.startDate.None? && p.progress.None?
    ensures var r := ProjectStore.Update(projects, id, EditPatch(p), now);
      r.1.Some? && r.1.value.startDate.None? && r.1.value.progress.None? &&
      var f := ProjectForm.InitialForm(r.1, later);
      f.startDate == Some(DayOf(later)) && f.progress == ProjectForm.Number(0)
  {
    ProjectStore.UpdateMerges(projects, id, EditPatch(p), now);
  }
}
