/**
 * Dates as the application uses them. A calendar date (`"yyyy-MM-dd"`) is a
 * day number counted from 1970-01-01; an instant (`new Date()`, an ISO
 * timestamp) is a count of milliseconds from the same origin. A date string
 * parses to midnight at the start of its day. The current instant is always
 * passed in.
 */
module Dates {
  import opened Wrappers

  type Day = int
  type Time = int

  const MsPerDay: int := 86_400_000

  /** The day an instant falls on. */
  function DayOf(t: Time): Day {
    t / MsPerDay
  }

  /** `new Date("yyyy-MM-dd")`: the first instant of day `d`. */
  function Midnight(d: Day): Time {
    d * MsPerDay
  }

  /** `isPast(date)`: the instant lies strictly before `now`. */
  predicate IsPast(t: Time, now: Time) {
    t < now
  }

  /** `isToday(new Date(d))`. */
  predicate IsToday(d: Day, now: Time) {
    d == DayOf(now)
  }

  /** `isTomorrow(new Date(d))`. */
  predicate IsTomorrow(d: Day, now: Time) {
    d == DayOf(now) + 1
  }

  /**
   * Where a day's midnight falls relative to an instant: before it for any
   * earlier day, never for a later one, and for the instant's own day
   * unless the instant is that midnight.
   */
  lemma MidnightOrder(d: Day, now: Time)
    ensures d < DayOf(now) ==> Midnight(d) < now
    ensures Midnight(d) < now ==> d <= DayOf(now)
    ensures d == DayOf(now) ==> (Midnight(d) < now <==> now % MsPerDay != 0)
  {
    var k := DayOf(now);
    assert k * MsPerDay <= now < (k + 1) * MsPerDay;
    if d < k {
      assert d * MsPerDay <= (k - 1) * MsPerDay;
    } else if d > k {
      assert d * MsPerDay >= (k + 1) * MsPerDay;
    }
  }

  /**
   * The card and board's `isOverdue(dueDate)`: false without a due date,
   * otherwise its midnight is past and it is not today. Together that is
   * exactly an earlier day than today.
   */
  function IsOverdue(due: Option<Day>, now: Time): (r: bool)
    ensures r <==> due.Some? && due.value < DayOf(now)
  {
    if due.None? then false
    else
      MidnightOrder(due.value, now);
      IsPast(Midnight(due.value), now) && !IsToday(due.value, now)
  }

  /** `isDueToday(dueDate)`: false without a due date; a date due today is never overdue. */
  function IsDueToday(due: Option<Day>, now: Time): (r: bool)
    ensures r <==> due == Some(DayOf(now))
    ensures r ==> !IsOverdue(due, now)
  {
    due.Some? && IsToday(due.value, now)
  }

  /** How a due date is shown: "Today", "Tomorrow", or the date itself ("MMM d"). */
  datatype DueLabel = Today | Tomorrow | OnDate(day: Day)

  /** Day of the week, 0 for Sunday; 1970-01-01 was a Thursday. */
  function WeekDay(d: Day): (w: int)
    ensures 0 <= w < 7
  {
    (d + 4) % 7
  }

  /** `startOfWeek(d)` with weeks starting on Sunday: the Sunday on or before `d`. */
  function StartOfWeek(d: Day): (r: Day)
    ensures r <= d < r + 7
    ensures WeekDay(r) == 0
  {
    var r := d - WeekDay(d);
    assert (r + 4) == ((d + 4) / 7) * 7;
    r
  }

  /** `endOfWeek(d)`: the Saturday on or after `d`. */
  function EndOfWeek(d: Day): (r: Day)
    ensures d <= r < d + 7
    ensures WeekDay(r) == 6
  {
    StartOfWeek(d) + 6
  }

  /** Two Sundays are a whole number of weeks apart. */
  lemma SundaysWeeksApart(a: Day, b: Day)
    requires WeekDay(a) == 0 && WeekDay(b) == 0 && a <= b
    ensures (b - a) % 7 == 0
  {
    var p := (a + 4) / 7;
    var q := (b + 4) / 7;
    assert a + 4 == 7 * p;
    assert b + 4 == 7 * q;
    assert b - a == 7 * (q - p);
  }

  /** Counting on from a Sunday, the weekday cycles with the offset. */
  lemma WeekDayFromSunday(s: Day, i: nat)
    requires WeekDay(s) == 0
    ensures WeekDay(s + i) == i % 7
  {
    var k := (s + 4) / 7;
    assert s + 4 == 7 * k;
    assert s + i + 4 == 7 * k + i;
  }
}
