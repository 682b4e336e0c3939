/**
  Elapsed-time accounting for the active timer: the seconds a timer has run,
  net of the pauses it has already folded in, and the duration recorded when
  it stops. Also the two browser-side stop computations, which differ from the
  server's, for comparison.
 */
module TimerAccounting {

  import opened Common
  import opened Entities

  /**
    Whole seconds from the timer's start to `at`, minus the pause seconds
    accumulated so far: the span with the pauses taken out, rounded down.
   */
  function NetElapsed(t: ActiveTimer, at: Millis): (n: int)
    ensures (n + t.totalPausedDuration) * 1000 <= at - t.startTime < (n + t.totalPausedDuration) * 1000 + 1000
  {
    FloorSeconds(at - t.startTime) - t.totalPausedDuration
  }

  /**
    The duration written into the time entry when the server stops a timer:
    the net elapsed seconds, clamped at zero against clock skew.
   */
  function FinalDuration(t: ActiveTimer, end: Millis): (d: int)
    ensures d >= 0
    ensures d >= NetElapsed(t, end)
    ensures NetElapsed(t, end) >= 0 ==> d == NetElapsed(t, end)
    ensures NetElapsed(t, end) < 0 ==> d == 0
  {
    Max(0, FloorSeconds(end - t.startTime) - t.totalPausedDuration)
  }

  /**
    Seconds added to the pause total on resume: whole seconds since the pause
    began, or none when the pause time is missing (it then defaults to now).
   */
  function PauseSeconds(t: ActiveTimer, now: Millis): (s: int)
    ensures t.pausedAt.Some? ==>
      s * 1000 <= now - t.pausedAt.value < s * 1000 + 1000
    ensures t.pausedAt.None? ==> s == 0
  {
    match t.pausedAt
    case Some(p) => FloorSeconds(now - p)
    case None => FloorSeconds(now - now)
  }

  /** Net elapsed time never decreases as the clock advances. */
  lemma NetElapsedMonotone(t: ActiveTimer, a: Millis, b: Millis)
    requires a <= b
    ensures NetElapsed(t, a) <= NetElapsed(t, b)
  {
  }

  /** Against a whole-second origin, whole seconds of a span are the difference of whole seconds. */
  lemma FloorSecondsFromWholeSecond(x: Millis, w: Millis)
    requires WholeSecond(w)
    ensures FloorSeconds(x - w) == FloorSeconds(x) - w / 1000
  {
  }

  /**
    Pausing at p and resuming at r leaves net elapsed time exactly where it
    was at the pause, when the start and the pause instant are read back in
    whole seconds as the timer table stores them.
   */
  lemma PauseResumeKeepsElapsed(t: ActiveTimer, p: Millis, r: Millis)
    requires WholeSecond(t.startTime)
    ensures
      var paused := t.(isPaused := true, pausedAt := Some(Stored(p)));
      var resumed := paused.(isPaused := false, pausedAt := None,
                             totalPausedDuration := t.totalPausedDuration + PauseSeconds(paused, r));
      NetElapsed(resumed, r) == NetElapsed(t, p)
  {
    FloorSecondsFromWholeSecond(r, t.startTime);
    FloorSecondsFromWholeSecond(p, t.startTime);
    FloorSecondsFromWholeSecond(r, Stored(p));
  }

  /** The stop computation of the main page: pauses subtracted, no clamp. */
  function PageStopDuration(t: ActiveTimer, end: Millis): int
  {
    FloorSeconds(end - t.startTime) - t.totalPausedDuration
  }

  /** The stop computation of the footer bar: pauses ignored. */
  function FooterStopDuration(t: ActiveTimer, end: Millis): int
  {
    FloorSeconds(end - t.startTime)
  }

  /**
    The main page agrees with the server whenever the result is non-negative,
    and records a negative duration otherwise, which the server never does.
   */
  lemma PageStopAgreesUnlessNegative(t: ActiveTimer, end: Millis)
    ensures PageStopDuration(t, end) >= 0 ==> PageStopDuration(t, end) == FinalDuration(t, end)
    ensures PageStopDuration(t, end) < 0 ==> PageStopDuration(t, end) < FinalDuration(t, end)
  {
  }

  /** A concrete case: 10 paused seconds folded in, stopped 5 seconds after the start. */
  lemma PageStopCanBeNegative()
    ensures
      var t := ActiveTimer(TimerId, "p", 0, true, false, None, 10);
      PageStopDuration(t, 5000) == -5 && FinalDuration(t, 5000) == 0
  {
  }

  /**
    The footer counts pauses as work: with a positive pause total it records
    strictly more than the server whenever the server's value is not clamped.
   */
  lemma FooterOvercountsPauses(t: ActiveTimer, end: Millis)
    requires t.totalPausedDuration > 0
    requires NetElapsed(t, end) >= 0
    ensures FooterStopDuration(t, end) == FinalDuration(t, end) + t.totalPausedDuration
    ensures FooterStopDuration(t, end) > FinalDuration(t, end)
  {
  }
}
