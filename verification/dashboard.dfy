/**
 * The dashboard's figures: project and task counts, the overdue count, the
 * "recent" lists and the completion percentage.
 */
module Dashboard {
  import opened Wrappers
  import opened Dates
  import opened Records
  import Seqs
  import Percent
  import ProjectStore
  import TaskStore

  datatype ProjectStats = ProjectStats(total: nat, active: nat, completed: nat, planning: nat)

  /** `getProjectStats`: paused projects and unknown statuses are not broken out. */
  function GetProjectStats(projects: seq<Project>): (r: ProjectStats)
    ensures r.total == |projects|
    ensures r.active == |ProjectStore.GetByStatus(projects, "active")|
    ensures r.completed == |ProjectStore.GetByStatus(projects, "completed")|
    ensures r.planning == |ProjectStore.GetByStatus(projects, "planning")|
    ensures r.active + r.completed + r.planning <= r.total
  {
    var a := (p: Project) => p.status == "active";
    var c := (p: Project) => p.status == "completed";
    var l := (p: Project) => p.status == "planning";
    var ac := (p: Project) => a(p) || c(p);
    var acl := (p: Project) => ac(p) || l(p);
    Seqs.FilterDisjointCount(projects, a, c, ac);
    Seqs.FilterDisjointCount(projects, ac, l, acl);
    ProjectStats(|projects|, |Seqs.Filter(projects, a)|, |Seqs.Filter(projects, c)|, |Seqs.Filter(projects, l)|)
  }

  /** The breakdown covers every project exactly when no project is paused or of another status. */
  lemma ProjectStatsCoverAll(projects: seq<Project>)
    requires forall p :: p in projects ==> p.status == "active" || p.status == "completed" || p.status == "planning"
    ensures var s := GetProjectStats(projects); s.active + s.completed + s.planning == s.total
  {
    var a := (p: Project) => p.status == "active";
    var c := (p: Project) => p.status == "completed";
    var l := (p: Project) => p.status == "planning";
    var ac := (p: Project) => a(p) || c(p);
    var acl := (p: Project) => ac(p) || l(p);
    Seqs.FilterDisjointCount(projects, a, c, ac);
    Seqs.FilterDisjointCount(projects, ac, l, acl);
    Seqs.FilterAll(projects, acl);
  }

  /**
   * The dashboard's overdue test: an open task whose due date's midnight is
   * before now. In days, that takes in every earlier day, and today as soon
   * as today's first millisecond has passed.
   */
  function DashboardOverdue(t: Task, now: Time): (r: bool)
    ensures r ==> !t.completed && t.dueDate.Some? && t.dueDate.value <= DayOf(now)
    ensures !t.completed && t.dueDate.Some? && t.dueDate.value < DayOf(now) ==> r
    ensures !t.completed && t.dueDate == Some(DayOf(now)) ==> (r <==> now % MsPerDay != 0)
  {
    if t.dueDate.None? then false
    else
      MidnightOrder(t.dueDate.value, now);
      !t.completed && Midnight(t.dueDate.value) < now
  }

  datatype TaskStats = TaskStats(total: nat, active: nat, completed: nat, overdue: nat)

  /** `getTaskStats`. */
  function GetTaskStats(tasks: seq<Task>, now: Time): (r: TaskStats)
    ensures r.total == |tasks|
    ensures r.active + r.completed == r.total
    ensures r.completed == |TaskStore.GetByStatus(tasks, true)|
    ensures r.overdue <= r.active
    ensures r.overdue == |Seqs.Filter(tasks, (t: Task) => DashboardOverdue(t, now))|
  {
    var open := (t: Task) => !t.completed;
    var done := (t: Task) => t.completed;
    var late := (t: Task) => DashboardOverdue(t, now);
    Seqs.FilterComplementCount(tasks, open, done);
    Seqs.FilterCountMonotone(tasks, late, open);
    Seqs.FilterCongruent(tasks, done, (t: Task) => t.completed == true);
    TaskStats(|tasks|, |Seqs.Filter(tasks, open)|, |Seqs.Filter(tasks, done)|, |Seqs.Filter(tasks, late)|)
  }

  /**
   * The dashboard counts a task due today as overdue once the day has begun,
   * although the task card does not mark it overdue.
   */
  lemma DueTodayCountsAsOverdue(t: Task, now: Time)
    requires t.dueDate == Some(DayOf(now)) && !t.completed && now % MsPerDay != 0
    ensures DashboardOverdue(t, now)
    ensures !IsOverdue(t.dueDate, now)
  {
  }

  /** Every open task the card marks overdue is counted overdue on the dashboard. */
  lemma CardOverdueIsDashboardOverdue(t: Task, now: Time)
    requires !t.completed && IsOverdue(t.dueDate, now)
    ensures DashboardOverdue(t, now)
  {
  }

  /**
   * `s.filter(keep).sort((a, b) => key(b) - key(a)).slice(0, n)`: the `n`
   * kept elements with the largest keys, largest first.
   */
  function TopBy<T(!new)>(s: seq<T>, keep: T -> bool, key: T -> int, n: nat): (r: seq<T>)
    ensures |r| <= n
    ensures forall x :: x in r ==> x in s && keep(x)
    ensures Seqs.SortedDesc(r, key)
    ensures |r| == if |Seqs.Filter(s, keep)| < n then |Seqs.Filter(s, keep)| else n
    ensures forall x, y :: x in r && y in s && keep(y) && y !in r ==> key(x) >= key(y)
    ensures multiset(r) <= multiset(Seqs.Filter(s, keep))
    ensures forall k :: Seqs.WithKey(r, key, k) <= Seqs.WithKey(Seqs.Filter(s, keep), key, k)
  {
    var kept := Seqs.Filter(s, keep);
    var sorted := Seqs.SortDesc(kept, key);
    Seqs.SortedPrefix(sorted, n, key);
    TopPrefix(sorted, n, key);
    StablePrefixTies(sorted, kept, n, key);
    forall x | x in sorted
      ensures x in kept
    {
      assert multiset(sorted)[x] > 0;
    }
    forall y | y in s && keep(y)
      ensures y in sorted
    {
      assert multiset(kept)[y] > 0;
    }
    Seqs.Take(sorted, n)
  }

  /** `getRecentProjects`: the three most recently updated active projects. */
  function RecentProjects(projects: seq<Project>): (r: seq<Project>)
    ensures |r| <= 3
    ensures forall p :: p in r ==> p in projects && p.status == "active"
    ensures Seqs.SortedDesc(r, UpdatedAt)
    ensures |r| == if |ProjectStore.GetByStatus(projects, "active")| < 3 then |ProjectStore.GetByStatus(projects, "active")| else 3
    ensures forall p, q :: p in r && q in projects && q.status == "active" && q !in r ==> p.updatedAt >= q.updatedAt
    ensures multiset(r) <= multiset(ProjectStore.GetByStatus(projects, "active"))
    ensures forall k :: Seqs.WithKey(r, UpdatedAt, k) <= Seqs.WithKey(ProjectStore.GetByStatus(projects, "active"), UpdatedAt, k)
  {
    Seqs.FilterCongruent(projects, (p: Project) => p.status == "active", (q: Project) => q.status == "active");
    TopBy(projects, (p: Project) => p.status == "active", UpdatedAt, 3)
  }

  /** `getRecentTasks`: the five most recently created open tasks. */
  function RecentTasks(tasks: seq<Task>): (r: seq<Task>)
    ensures |r| <= 5
    ensures forall t :: t in r ==> t in tasks && !t.completed
    ensures Seqs.SortedDesc(r, CreatedAt)
    ensures |r| == if |TaskStore.GetByStatus(tasks, false)| < 5 then |TaskStore.GetByStatus(tasks, false)| else 5
    ensures forall t, u :: t in r && u in tasks && !u.completed && u !in r ==> t.createdAt >= u.createdAt
    ensures multiset(r) <= multiset(TaskStore.GetByStatus(tasks, false))
    ensures forall k :: Seqs.WithKey(r, CreatedAt, k) <= Seqs.WithKey(TaskStore.GetByStatus(tasks, false), CreatedAt, k)
  {
    Seqs.FilterCongruent(tasks, (t: Task) => !t.completed, (t: Task) => t.completed == false);
    TopBy(tasks, (t: Task) => !t.completed, CreatedAt, 5)
  }

  /**
   * Cutting a stably sorted sequence short keeps, for every key, the first
   * elements of that key in the original order: ties are taken in order.
   */
  lemma StablePrefixTies<T(!new)>(sorted: seq<T>, s: seq<T>, n: nat, key: T -> int)
    requires Seqs.SameTieOrder(sorted, s, key)
    ensures forall k :: Seqs.WithKey(Seqs.Take(sorted, n), key, k) <= Seqs.WithKey(s, key, k)
  {
    forall k
      ensures Seqs.WithKey(Seqs.Take(sorted, n), key, k) <= Seqs.WithKey(s, key, k)
    {
      Seqs.WithKeyPrefix(Seqs.Take(sorted, n), sorted, key, k);
    }
  }

  /** The first `n` of a sorted sequence rank at least as high as anything left out. */
  lemma TopPrefix<T>(s: seq<T>, n: nat, key: T -> int)
    requires Seqs.SortedDesc(s, key)
    ensures forall x, y :: x in Seqs.Take(s, n) && y in s && y !in Seqs.Take(s, n) ==> key(x) >= key(y)
  {
    var r := Seqs.Take(s, n);
    forall x, y | x in r && y in s && y !in r
      ensures key(x) >= key(y)
    {
      var i :| 0 <= i < |r| && r[i] == x;
      var j :| 0 <= j < |s| && s[j] == y;
      assert s[i] == x;
    }
  }

  /** The "Task Completion" figure. */
  function CompletionPercent(tasks: seq<Task>, now: Time): (r: int)
    ensures 0 <= r <= 100
    ensures |tasks| == 0 ==> r == 0
    ensures (forall t :: t in tasks ==> !t.completed) ==> r == 0
    ensures |tasks| > 0 && (forall t :: t in tasks ==> t.completed) ==> r == 100
  {
    var s := GetTaskStats(tasks, now);
    StatsExtremes(tasks, now);
    Percent.RoundedPercent(s.completed, s.total)
  }

  /** No completed task means a zero count; all completed means the full count. */
  lemma StatsExtremes(tasks: seq<Task>, now: Time)
    ensures (forall t :: t in tasks ==> !t.completed) ==> GetTaskStats(tasks, now).completed == 0
    ensures (forall t :: t in tasks ==> t.completed) ==> GetTaskStats(tasks, now).completed == |tasks|
  {
    var g := TaskStore.GetByStatus(tasks, true);
    if forall t :: t in tasks ==> t.completed {
      Seqs.FilterAll(tasks, (t: Task) => t.completed == true);
    }
  }
}
