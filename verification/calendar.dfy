/** The calendar: which tasks a day shows, their colour and the month grid. */
module Calendar {
  import opened Wrappers
  import opened Dates
  import opened Records
  import Seqs
  import Dashboard

  /** `getTasksForDate`: the tasks due on `day`, in store order. */
  function TasksForDate(tasks: seq<Task>, day: Day): (r: seq<Task>)
    ensures forall t :: t in r <==> t in tasks && t.dueDate == Some(day)
    ensures Seqs.IsSubsequence(r, tasks)
  {
    Seqs.Filter(tasks, (t: Task) => t.dueDate == Some(day))
  }

  /** The indicator colours of `getTaskStatusColor`. */
  datatype Colour = Green500 | Red500 | Red400 | Yellow400 | Blue400

  /**
   * `new Date(task.dueDate)`: the due day's midnight. `None` stands for a
   * `null` date, which JavaScript turns into the epoch; an `undefined` one
   * would give an Invalid Date instead, which is not modelled.
   */
  function DueInstant(t: Task): Time {
    match t.dueDate
    case None => 0
    case Some(d) => Midnight(d)
  }

  /** `getTaskStatusColor`: done, then past due, then by priority. */
  function StatusColour(t: Task, now: Time): (r: Colour)
    ensures r == Green500 <==> t.completed
    ensures r == Red500 <==> !t.completed && IsPast(DueInstant(t), now)
    ensures r == Red400 <==> !t.completed && !IsPast(DueInstant(t), now) && t.priority == "high"
    ensures r == Yellow400 <==> !t.completed && !IsPast(DueInstant(t), now) && t.priority == "medium"
  {
    if t.completed then Green500
    else if IsPast(DueInstant(t), now) then Red500
    else if t.priority == "high" then Red400
    else if t.priority == "medium" then Yellow400
    else Blue400
  }

  /** For a dated task the calendar's red marks exactly what the dashboard counts overdue. */
  lemma RedIffDashboardOverdue(tasks: seq<Task>, day: Day, now: Time)
    ensures forall t :: t in TasksForDate(tasks, day) ==>
      (StatusColour(t, now) == Red500 <==> Dashboard.DashboardOverdue(t, now))
  {
  }

  /**
   * An open task whose due date is `null` is dated at the epoch and so would
   * show as past due. The calendar never colours such a task: only dated
   * tasks reach its cells.
   */
  lemma UndatedOpenTaskIsRed(t: Task, now: Time)
    requires t.dueDate.None? && !t.completed && now > 0
    ensures StatusColour(t, now) == Red500
  {
  }

  /**
   * The days of the month view (`renderMonthView`): every day from the Sunday
   * on or before `first` to the Saturday on or after `last`; with
   * `first == last` it is the week view's seven days.
   */
  method GridDays(first: Day, last: Day) returns (days: seq<Day>)
    ensures |days| == if StartOfWeek(first) <= EndOfWeek(last) then EndOfWeek(last) + 1 - StartOfWeek(first) else 0
    ensures forall i :: 0 <= i < |days| ==> days[i] == StartOfWeek(first) + i
    ensures |days| > 0 ==> days[0] == StartOfWeek(first) && days[|days| - 1] == EndOfWeek(last)
    ensures |days| % 7 == 0
    ensures forall i :: 0 <= i < |days| ==> WeekDay(days[i]) == i % 7
    ensures forall d :: first <= d <= last ==> d in days
  {
    var start := StartOfWeek(first);
    var end := EndOfWeek(last);
    days := [];
    var day := start;
    while day <= end
      invariant start <= day <= if start <= end then end + 1 else start
      invariant |days| == day - start
      invariant forall i :: 0 <= i < |days| ==> days[i] == start + i
    {
      days := days + [day];
      day := day + 1;
    }
    GridWholeWeeks(first, last);
    GridWeekDays(start, days);
    GridCovers(first, last, days);
  }

  /** The grid runs from a Sunday to a Saturday, so it spans whole weeks. */
  lemma GridWholeWeeks(first: Day, last: Day)
    ensures StartOfWeek(first) <= EndOfWeek(last) ==> (EndOfWeek(last) + 1 - StartOfWeek(first)) % 7 == 0
  {
    if StartOfWeek(first) <= EndOfWeek(last) {
      SundaysWeeksApart(StartOfWeek(first), StartOfWeek(last));
    }
  }

  lemma GridWeekDays(start: Day, days: seq<Day>)
    requires WeekDay(start) == 0
    requires forall i :: 0 <= i < |days| ==> days[i] == start + i
    ensures forall i :: 0 <= i < |days| ==> WeekDay(days[i]) == i % 7
  {
    forall i | 0 <= i < |days|
      ensures WeekDay(days[i]) == i % 7
    {
      WeekDayFromSunday(start, i);
    }
  }

  lemma GridCovers(first: Day, last: Day, days: seq<Day>)
    requires |days| == if StartOfWeek(first) <= EndOfWeek(last) then EndOfWeek(last) + 1 - StartOfWeek(first) else 0
    requires forall i :: 0 <= i < |days| ==> days[i] == StartOfWeek(first) + i
    ensures forall d :: first <= d <= last ==> d in days
  {
    forall d | first <= d <= last
      ensures d in days
    {
      assert days[d - StartOfWeek(first)] == d;
    }
  }

  /** The shown week of `GridDays` for one day: seven days, Sunday to Saturday. */
  method WeekOf(d: Day) returns (days: seq<Day>)
    ensures |days| == 7
    ensures forall i :: 0 <= i < 7 ==> days[i] == StartOfWeek(d) + i && WeekDay(days[i]) == i
    ensures d in days
  {
    days := GridDays(d, d);
  }

  /** A day's cell: at most three indicators, and "+n more" for the rest. */
  datatype DayCell = DayCell(shown: seq<Task>, more: Option<nat>)

  /** The indicators a month cell renders for its tasks. */
  function CellFor(dayTasks: seq<Task>): (r: DayCell)
    ensures r.shown <= dayTasks && |r.shown| <= 3
    ensures r.more.Some? <==> |dayTasks| > 3
    ensures |r.shown| + r.more.GetOr(0) == |dayTasks|
    ensures r.more.Some? ==> r.more.value > 0
    ensures |r.shown| == if |dayTasks| < 3 then |dayTasks| else 3
    ensures r.more.Some? ==> r.more.value == |dayTasks| - 3
  {
    DayCell(Seqs.Take(dayTasks, 3), if |dayTasks| > 3 then Some(|dayTasks| - 3) else None)
  }

  /**
   * A cell accounts for every task of its day once: the shown indicators
   * followed by the `more` hidden ones give back the day's list.
   */
  lemma CellAccountsForAll(dayTasks: seq<Task>)
    ensures var c := CellFor(dayTasks);
      c.shown + dayTasks[|c.shown|..] == dayTasks && |dayTasks[|c.shown|..]| == c.more.GetOr(0)
  {
  }
}
