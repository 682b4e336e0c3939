/**
  The small piece of calendar logic the tracker does itself: the offset from a
  weekday back to the Monday that starts its week. Dates, time zones and the
  length of a day are left to the caller, who supplies local midnights as
  epoch milliseconds.
 */
module Calendar {

  import opened Common

  /** `Date.getDay()`: 0 is Sunday, 1 is Monday, ..., 6 is Saturday. */
  type Weekday = d: int | 0 <= d < 7

  /** Days back from a weekday to the Monday of its week (Sunday belongs to the week before). */
  function MondayOffset(day: Weekday): (back: int)
    ensures 0 <= back < 7
    ensures (day - back) % 7 == 1
  {
    if day == 0 then 6 else day - 1
  }

  /** The offset is the only one in 0..6 that lands on a Monday. */
  lemma MondayOffsetUnique(day: Weekday, back: int)
    requires 0 <= back < 7
    requires (day - back) % 7 == 1
    ensures back == MondayOffset(day)
  {
  }

  /**
    The browser computes the Monday as `getDate() - day + (day === 0 ? -6 : 1)`;
    the shift it adds back is the same offset with the sign turned round.
   */
  function BrowserWeekShift(day: Weekday): int
  {
    if day == 0 then -6 else 1
  }

  lemma BrowserWeekShiftAgrees(day: Weekday)
    ensures day - BrowserWeekShift(day) == MondayOffset(day)
  {
  }

  datatype Period = Day | Week | Month

  /** The query parameter names of the periods; any other string is no period. */
  function ParsePeriod(s: string): (p: Option<Period>)
    ensures p == Some(Day) <==> s == "day"
    ensures p == Some(Week) <==> s == "week"
    ensures p == Some(Month) <==> s == "month"
  {
    if s == "day" then Some(Day)
    else if s == "week" then Some(Week)
    else if s == "month" then Some(Month)
    else None
  }

  /**
    The local view of "now" that period starts are taken from: today's
    weekday, local midnight a given number of days back, and local midnight
    of the first of the month.
   */
  datatype Today = Today(weekday: Weekday, midnightDaysAgo: nat -> Millis, monthStart: Millis)

  /** Start of the current day, week (from Monday) or month. */
  function PeriodStart(p: Period, today: Today): (start: Millis)
    ensures p == Day ==> start == today.midnightDaysAgo(0)
    ensures p == Week ==> exists back: nat :: back < 7 && (today.weekday - back) % 7 == 1 && start == today.midnightDaysAgo(back)
    ensures p == Month ==> start == today.monthStart
  {
    match p
    case Day => today.midnightDaysAgo(0)
    case Week => today.midnightDaysAgo(MondayOffset(today.weekday))
    case Month => today.monthStart
  }
}
