/**
 * The board's derived views: which tasks each column shows, when a drop is
 * ignored, and the due-date marks on a card.
 */
module Kanban {
  import opened Wrappers
  import opened Dates
  import opened Records
  import Seqs

  /** `!task.status`: no status, or the empty string. */
  predicate StatusBlank(t: Task) {
    t.status.None? || t.status.value == ""
  }

  /** The test `getTasksByStatus` applies for a column id. */
  predicate InColumn(t: Task, column: string) {
    if column == "not-started" then StatusBlank(t) || t.status == Some("not-started")
    else if column == "in-progress" then t.status == Some("in-progress")
    else if column == "completed" then t.completed || t.status == Some("completed")
    else false
  }

  /** The three columns the board renders. */
  predicate IsBoardColumn(column: string) {
    column == "not-started" || column == "in-progress" || column == "completed"
  }

  /** `getTasksByStatus(column)`: the tasks a column shows, in the order given. */
  function ColumnTasks(tasks: seq<Task>, column: string): (r: seq<Task>)
    ensures Seqs.IsSubsequence(r, tasks)
    ensures column == "not-started" ==>
      forall t :: t in r <==> t in tasks && (t.status.None? || t.status == Some("") || t.status == Some("not-started"))
    ensures column == "in-progress" ==>
      forall t :: t in r <==> t in tasks && t.status == Some("in-progress")
    ensures column == "completed" ==>
      forall t :: t in r <==> t in tasks && (t.completed || t.status == Some("completed"))
    ensures !IsBoardColumn(column) ==> r == []
    ensures forall t :: t in r <==> t in tasks && InColumn(t, column)
  {
    if IsBoardColumn(column) then Seqs.Filter(tasks, (t: Task) => InColumn(t, column)) else []
  }

  /**
   * The columns do not partition the tasks: a completed task whose status is
   * still "in-progress" is shown twice.
   */
  lemma CompletedInProgressShownTwice(t: Task)
    requires t.completed && t.status == Some("in-progress")
    ensures t in ColumnTasks([t], "in-progress") && t in ColumnTasks([t], "completed")
  {
  }

  /**
   * An open task whose status is set to anything other than the three
   * column names appears in no column, on any board.
   */
  lemma UnknownStatusShownNowhere(tasks: seq<Task>, t: Task, column: string)
    requires !t.completed && t.status.Some?
    requires t.status.value != "" && t.status.value != "not-started"
    requires t.status.value != "in-progress" && t.status.value != "completed"
    ensures t !in ColumnTasks(tasks, column)
  {
  }

  /** What a drop leads to. */
  datatype DropOutcome =
    | Ignored
      /** The board asks the service to move the task; see the README on `updateTaskStatus`. */
    | StatusChangeRequested(id: int, status: string)

  /** The guard at the top of `handleDrop`. */
  predicate DropIsNoOp(t: Task, column: string) {
    t.status == Some(column) ||
    (t.completed && column == "completed") ||
    (StatusBlank(t) && column == "not-started")
  }

  /** `handleDrop`: nothing without a dragged task or when the guard holds, else a status change. */
  function HandleDrop(dragged: Option<Task>, column: string): (r: DropOutcome)
    ensures dragged.None? ==> r == Ignored
    ensures r.StatusChangeRequested? ==>
      dragged.Some? && r.id == dragged.value.Id && r.status == column && dragged.value.status != Some(column)
    ensures dragged.Some? && dragged.value.completed && column == "completed" ==> r == Ignored
    ensures dragged.Some? && StatusBlank(dragged.value) && column == "not-started" ==> r == Ignored
  {
    match dragged
    case None => Ignored
    case Some(t) => if DropIsNoOp(t, column) then Ignored else StatusChangeRequested(t.Id, column)
  }

  /** On the board's columns, a drop is ignored exactly when the task already shows in that column. */
  lemma DropIgnoredIffAlreadyInColumn(t: Task, column: string)
    requires IsBoardColumn(column)
    ensures HandleDrop(Some(t), column) == Ignored <==> InColumn(t, column)
  {
  }

  /** The board's `formatDueDate`: nothing, "Today", or the date; it never says "Tomorrow". */
  function FormatDueDate(due: Option<Day>, now: Time): (r: Option<DueLabel>)
    ensures r.None? <==> due.None?
    ensures r == Some(Today) <==> IsDueToday(due, now)
    ensures r.Some? && r != Some(Today) ==> r == Some(OnDate(due.value))
  {
    match due
    case None => None
    case Some(d) => if IsToday(d, now) then Some(Today) else Some(OnDate(d))
  }
}
