/** What a task card derives from its task: badge, due label, warnings and the subtask counter. */
module TaskCard {
  import opened Wrappers
  import opened Dates
  import opened Records
  import Seqs
  import Kanban

  datatype Variant = High | Medium | Low

  datatype Badge = Badge(variant: Variant, icon: string)

  /** `getPriorityBadge`: the badge for a known priority, the medium badge otherwise. */
  function PriorityBadge(priority: string): (r: Badge)
    ensures r.variant == High <==> priority == "high"
    ensures r.variant == Low <==> priority == "low"
    ensures r == Badge(Medium, "Clock") <==> priority != "high" && priority != "low"
  {
    if priority == "high" then Badge(High, "AlertTriangle")
    else if priority == "low" then Badge(Low, "Circle")
    else Badge(Medium, "Clock")
  }

  /** `formatDueDate`: "Today", "Tomorrow", or the date itself. */
  function DueLabelOf(due: Option<Day>, now: Time): (r: Option<DueLabel>)
    ensures r.None? <==> due.None?
    ensures r == Some(Today) <==> IsDueToday(due, now)
    ensures r == Some(Tomorrow) <==> due.Some? && due.value == DayOf(now) + 1
    ensures r.Some? && r.value.OnDate? ==> r.value.day == due.value && due.value != DayOf(now) && due.value != DayOf(now) + 1
  {
    match due
    case None => None
    case Some(d) =>
      if IsToday(d, now) then Some(Today)
      else if IsTomorrow(d, now) then Some(Tomorrow)
      else Some(OnDate(d))
  }

  /** A card is never both "due today" and "overdue". */
  lemma DueTodayNotOverdue(due: Option<Day>, now: Time)
    ensures !(IsDueToday(due, now) && IsOverdue(due, now))
  {
  }

  /** An overdue card's label is always a plain date. */
  lemma OverdueShowsDate(due: Option<Day>, now: Time)
    requires IsOverdue(due, now)
    ensures DueLabelOf(due, now) == Some(OnDate(due.value))
  {
  }

  /** The board and the card label a date alike, except that only the card says "Tomorrow". */
  lemma BoardAndCardLabels(due: Option<Day>, now: Time)
    ensures DueLabelOf(due, now) != Some(Tomorrow) ==> Kanban.FormatDueDate(due, now) == DueLabelOf(due, now)
    ensures DueLabelOf(due, now) == Some(Tomorrow) ==> Kanban.FormatDueDate(due, now) == Some(OnDate(due.value))
  {
  }

  /** `done/total subtasks`, shown only for a non-empty list. */
  datatype Counter = Counter(done: nat, total: nat)

  function SubtaskCounter(subtasks: seq<Task>): (r: Option<Counter>)
    ensures r.None? <==> |subtasks| == 0
    ensures r.Some? ==> r.value.total == |subtasks| && r.value.done <= r.value.total
    ensures r.Some? ==> (r.value.done == r.value.total <==> forall s :: s in subtasks ==> s.completed)
    ensures r.Some? ==> r.value.done == |Seqs.Filter(subtasks, (s: Task) => s.completed)|
  {
    if |subtasks| == 0 then None
    else
      var done := Seqs.Filter(subtasks, (s: Task) => s.completed);
      Seqs.FilterKeepsAllIff(subtasks, (s: Task) => s.completed);
      Some(Counter(|done|, |subtasks|))
  }
}
