/**
 * The task page's derived views: the list of main tasks after the status tab
 * and the search box, the tab counts, the progress figure, and whether a task
 * about to be deleted has subtasks.
 */
module TaskManagerView {
  import opened Wrappers
  import opened Records
  import Seqs
  import TaskStore
  import Percent
  import TaskForm
  import Store

  /** `!task.parentId`: no parent, or the falsy parent id 0. */
  predicate IsMainTask(t: Task) {
    t.parentId.None? || t.parentId.value == 0
  }

  /** The status tab: "active" keeps open tasks, "completed" done ones, anything else all. */
  predicate PassesStatusTab(t: Task, tab: string) {
    if tab == "active" then !t.completed
    else if tab == "completed" then t.completed
    else true
  }

  function MainTasks(tasks: seq<Task>): (r: seq<Task>)
    ensures forall t :: t in r <==> t in tasks && IsMainTask(t)
    ensures Seqs.IsSubsequence(r, tasks)
  {
    Seqs.Filter(tasks, IsMainTask)
  }

  /** `getFilteredTasks`: main tasks, then the status tab, then the search box if non-empty. */
  function FilteredTasks(tasks: seq<Task>, tab: string, query: string): (r: seq<Task>)
    ensures forall t :: t in r ==> IsMainTask(t)
    ensures forall t :: t in r <==>
      t in tasks && IsMainTask(t) && PassesStatusTab(t, tab) && (query == "" || TaskStore.MatchesSearch(t, query))
    ensures Seqs.IsSubsequence(r, tasks)
  {
    var main := MainTasks(tasks);
    var byTab :=
      if tab == "active" then Seqs.Filter(main, (t: Task) => !t.completed)
      else if tab == "completed" then Seqs.Filter(main, (t: Task) => t.completed)
      else main;
    assert Seqs.IsSubsequence(byTab, tasks) by {
      if byTab != main {
        Seqs.SubsequenceTrans(byTab, main, tasks);
      }
    }
    if query != "" then
      var r := Seqs.Filter(byTab, (t: Task) => TaskStore.MatchesSearch(t, query));
      Seqs.SubsequenceTrans(r, byTab, tasks);
      r
    else
      byTab
  }

  /** With the "all" tab, the page's search is the service's search over main tasks. */
  lemma AllTabIsStoreSearch(tasks: seq<Task>, query: string)
    ensures FilteredTasks(tasks, "all", query) == TaskStore.Search(MainTasks(tasks), query)
  {
    if query == "" {
      TaskStore.SearchEmptyFindsAll(MainTasks(tasks));
    }
  }

  datatype TaskCounts = TaskCounts(all: nat, active: nat, completed: nat)

  /** `getTaskCounts`: counts over main tasks only. */
  function GetTaskCounts(tasks: seq<Task>): (r: TaskCounts)
    ensures r.all == |MainTasks(tasks)|
    ensures r.active + r.completed == r.all
    ensures r.active == |FilteredTasks(tasks, "active", "")|
    ensures r.completed == |FilteredTasks(tasks, "completed", "")|
  {
    var main := MainTasks(tasks);
    Seqs.FilterComplementCount(main, (t: Task) => !t.completed, (t: Task) => t.completed);
    TaskCounts(|main|,
               |Seqs.Filter(main, (t: Task) => !t.completed)|,
               |Seqs.Filter(main, (t: Task) => t.completed)|)
  }

  /** The progress summary's percentage of main tasks completed. */
  function ProgressPercent(tasks: seq<Task>): (r: int)
    ensures 0 <= r <= 100
    ensures |MainTasks(tasks)| == 0 ==> r == 0
    ensures GetTaskCounts(tasks).completed == 0 ==> r == 0
    ensures GetTaskCounts(tasks).active == 0 && |MainTasks(tasks)| > 0 ==> r == 100
  {
    var c := GetTaskCounts(tasks);
    Percent.RoundedPercent(c.completed, c.all)
  }

  /** `tasks.some(t => t.parentId === taskId)`. */
  function HasSubtasks(tasks: seq<Task>, id: int): (r: bool)
    ensures r <==> exists t :: t in tasks && t.parentId == Some(id)
  {
    if |tasks| == 0 then false
    else
      assert tasks == [tasks[0]] + tasks[1..];
      tasks[0].parentId == Some(id) || HasSubtasks(tasks[1..], id)
  }

  /**
   * `create` drops `parentId`, so creating a "subtask" never gives any task a
   * subtask it did not have.
   */
  lemma CreateNeverAddsSubtask(tasks: seq<Task>, input: TaskStore.TaskInput, now: int, id: int)
    ensures HasSubtasks(TaskStore.Create(tasks, input, now).0, id) == HasSubtasks(tasks, id)
  {
    var r := TaskStore.Create(tasks, input, now);
    assert forall t :: t in r.0 <==> t in tasks || t == r.1;
  }

  /** Deleting a parent leaves its subtasks behind, still pointing at it. */
  lemma DeleteLeavesSubtasks(tasks: seq<Task>, id: int)
    requires HasSubtasks(tasks, id)
    requires forall t :: t in tasks && t.parentId == Some(id) ==> t.Id != id
    ensures HasSubtasks(TaskStore.Delete(tasks, id).0, id)
  {
    var t :| t in tasks && t.parentId == Some(id);
    TaskStore.DeleteKeepsSubtasks(tasks, id, t);
  }

  /**
   * `handleCreateTask`: the form's payload goes to `create` as it is, with
   * `parentId` added exactly when a subtask is being created.
   */
  function CreateInput(p: TaskForm.Payload, parent: Option<Task>): (r: TaskStore.TaskInput)
    ensures r.title == p.title && r.dueDate == p.dueDate
    ensures r.description == Some(p.description) && r.priority == Some(p.priority) && r.category == Some(p.category)
    ensures r.parentId.Some? <==> parent.Some?
    ensures parent.Some? ==> r.parentId == Some(parent.value.Id)
    ensures r.projectId.None? && r.status.None? && r.completed.None?
  {
    TaskStore.TaskInput(p.title, Some(p.description), Some(p.priority), p.dueDate, Some(p.category), None,
                        if parent.Some? then Some(parent.value.Id) else None, None, None)
  }

  /**
   * A subtask added through the page is stored as a main task: it shows in the
   * main list, with the submitted title, and no task gains a subtask.
   */
  lemma SubtaskIsStoredAsMainTask(tasks: seq<Task>, p: TaskForm.Payload, parent: Task, now: int)
    ensures var r := TaskStore.Create(tasks, CreateInput(p, Some(parent)), now);
      r.1.title == p.title && IsMainTask(r.1) && r.1 in FilteredTasks(r.0, "all", "") &&
      HasSubtasks(r.0, parent.Id) == HasSubtasks(tasks, parent.Id)
  {
    CreateNeverAddsSubtask(tasks, CreateInput(p, Some(parent)), now, parent.Id);
  }

  /**
   * `handleToggleComplete`: flip the first task with `id` through `update`,
   * which stamps or clears `completedAt`; an unknown id changes nothing.
   */
  function ToggleComplete(tasks: seq<Task>, id: int, now: int): (r: seq<Task>)
    ensures TaskStore.Absent(tasks, id) ==> r == tasks
    ensures !TaskStore.Absent(tasks, id) ==>
      var i := TaskStore.IndexOf(tasks, id).value;
      var c := !tasks[i].completed;
      r == tasks[i := tasks[i].(completed := c, completedAt := if c then Some(now) else None)]
  {
    TaskStore.IndexOfAbsent(tasks, id);
    match TaskStore.GetById(tasks, id)
    case None => tasks
    case Some(t) =>
      TaskStore.Update(tasks, id, TaskStore.EmptyPatch.(completed := Some(!t.completed)), now).0
  }

  /** Toggling twice restores the flag and every field but `completedAt`. */
  lemma ToggleTwice(tasks: seq<Task>, id: int, now1: int, now2: int)
    requires !TaskStore.Absent(tasks, id)
    ensures var i := TaskStore.IndexOf(tasks, id).value;
      var r := ToggleComplete(ToggleComplete(tasks, id, now1), id, now2);
      |r| == |tasks| && r[i].completed == tasks[i].completed &&
      r[i] == tasks[i].(completedAt := r[i].completedAt) &&
      forall j :: 0 <= j < |tasks| && j != i ==> r[j] == tasks[j]
  {
    var i := TaskStore.IndexOf(tasks, id).value;
    var once := ToggleComplete(tasks, id, now1);
    Store.FindIndexIs(once, TaskId, id, i);
  }
}
