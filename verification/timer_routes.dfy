/**
  The server's active-timer endpoints as transitions of the database tables.
  The timer is absent, running (not paused) or paused; each handler answers
  with a status code and the tables it leaves. Inserts are checked against the
  primary key and the project foreign key, which the database enforces; a
  failed insert answers 500.
 */
module TimerRoutes {

  import opened Common
  import opened Entities
  import opened TimerAccounting

  /**
    The time entry that records a timer stopped at `end`: the duration is
    computed from the exact clock, the end time is stored in whole seconds.
   */
  function EntryFromTimer(t: ActiveTimer, entryId: Id, end: Millis): TimeEntry
  {
    TimeEntry(entryId, t.projectId, t.startTime, Some(Stored(end)), FinalDuration(t, end), None)
  }

  /** True when a stopped timer's entry can be inserted (fresh key, existing project). */
  predicate CanRecord(db: Tables, entryId: Id)
    requires db.timer.Some?
  {
    entryId !in db.entries && db.timer.value.projectId in db.projects
  }

  /** A fresh timer as the start handler writes it and reads it back. */
  function FreshTimer(projectId: Id, now: Millis): ActiveTimer
  {
    ActiveTimer(TimerId, projectId, Stored(now), true, false, None, 0)
  }

  /**
    POST /stop: records the timer as a time entry ending now and deletes the timer.
   */
  function Stop(db: Tables, now: Millis, entryId: Id): (r: Step<Tables, TimeEntry>)
    ensures db.timer.None? ==> r == Step(Fail(404), db)
    ensures db.timer.Some? && !CanRecord(db, entryId) ==> r == Step(Fail(500), db)
    ensures db.timer.Some? && CanRecord(db, entryId) ==>
      var t := db.timer.value;
      && r.reply.Ok? && r.reply.status == 200
      && r.reply.value.id == entryId
      && r.reply.value.projectId == t.projectId
      && r.reply.value.startTime == t.startTime
      && r.reply.value.endTime == Some(Stored(now))
      && r.reply.value.description.None?
      && r.reply.value.duration == FinalDuration(t, now)
      && r.state.timer.None?
      && r.state.projects == db.projects
      && r.state.entries == db.entries[entryId := r.reply.value]
      && |r.state.entries| == |db.entries| + 1
  {
    match db.timer
    case None => Step(Fail(404), db)
    case Some(t) =>
      if !CanRecord(db, entryId) then Step(Fail(500), db)
      else
        var e := EntryFromTimer(t, entryId, now);
        Step(Ok(200, e), db.(entries := db.entries[entryId := e], timer := None))
  }

  /**
    POST /start: a running or paused timer is first recorded as an entry and
    deleted, then a fresh timer is inserted. The body's projectId must be a UUID.
    A new projectId that names no project fails the insert after the old timer
    is already gone.
   */
  function Start(db: Tables, projectId: string, now: Millis, entryId: Id): (r: Step<Tables, ActiveTimer>)
    ensures !IsUuid(projectId) ==> r == Step(Fail(400), db)
    ensures IsUuid(projectId) && db.timer.Some? && !CanRecord(db, entryId) ==> r == Step(Fail(500), db)
    ensures IsUuid(projectId) && (db.timer.None? || CanRecord(db, entryId)) ==>
      && r.state.projects == db.projects
      && (db.timer.None? ==> r.state.entries == db.entries)
      && (db.timer.Some? ==> r.state.entries == db.entries[entryId := EntryFromTimer(db.timer.value, entryId, now)])
      && (projectId !in db.projects ==> r.reply == Fail(500) && r.state.timer.None?)
      && (projectId in db.projects ==>
            && r.reply.Ok? && r.reply.status == 201
            && r.state.timer == Some(r.reply.value)
            && r.reply.value.id == TimerId
            && r.reply.value.projectId == projectId
            && r.reply.value.startTime == Stored(now)
            && r.reply.value.isRunning
            && !r.reply.value.isPaused
            && r.reply.value.pausedAt.None?
            && r.reply.value.totalPausedDuration == 0)
  {
    if !IsUuid(projectId) then Step(Fail(400), db)
    else
      // The existing timer, if any, is recorded and deleted first.
      var cleared: Option<Tables> :=
        match db.timer
        case None => Some(db)
        case Some(prev) =>
          if !CanRecord(db, entryId) then None
          else Some(db.(entries := db.entries[entryId := EntryFromTimer(prev, entryId, now)], timer := None));
      match cleared
      case None => Step(Fail(500), db)
      case Some(db1) =>
        if projectId !in db1.projects then Step(Fail(500), db1)
        else
          var t := FreshTimer(projectId, now);
          Step(Ok(201, t), db1.(timer := Some(t)))
  }

  /** POST /pause: marks a running timer paused as of now, in whole seconds. */
  function Pause(db: Tables, now: Millis): (r: Step<Tables, ActiveTimer>)
    ensures db.timer.None? ==> r == Step(Fail(404), db)
    ensures db.timer.Some? && db.timer.value.isPaused ==> r == Step(Fail(400), db)
    ensures db.timer.Some? && !db.timer.value.isPaused ==>
      && r.reply == Ok(200, db.timer.value.(isPaused := true, pausedAt := Some(Stored(now))))
      && r.state == db.(timer := Some(r.reply.value))
  {
    match db.timer
    case None => Step(Fail(404), db)
    case Some(t) =>
      if t.isPaused then Step(Fail(400), db)
      else
        var t' := t.(isPaused := true, pausedAt := Some(Stored(now)));
        Step(Ok(200, t'), db.(timer := Some(t')))
  }

  /** POST /resume: folds the seconds spent paused into the pause total. */
  function Resume(db: Tables, now: Millis): (r: Step<Tables, ActiveTimer>)
    ensures db.timer.None? ==> r == Step(Fail(404), db)
    ensures db.timer.Some? && !db.timer.value.isPaused ==> r == Step(Fail(400), db)
    ensures db.timer.Some? && db.timer.value.isPaused ==>
      var t := db.timer.value;
      && r.reply.Ok? && r.reply.status == 200
      && r.state == db.(timer := Some(r.reply.value))
      && !r.reply.value.isPaused
      && r.reply.value.pausedAt.None?
      && (t.pausedAt.Some? ==>
            var gained := r.reply.value.totalPausedDuration - t.totalPausedDuration;
            gained * 1000 <= now - t.pausedAt.value < gained * 1000 + 1000)
      && (t.pausedAt.None? ==> r.reply.value.totalPausedDuration == t.totalPausedDuration)
      && r.reply.value == t.(isPaused := false, pausedAt := None,
                             totalPausedDuration := r.reply.value.totalPausedDuration)
  {
    match db.timer
    case None => Step(Fail(404), db)
    case Some(t) =>
      if !t.isPaused then Step(Fail(400), db)
      else
        var t' := t.(isPaused := false, pausedAt := None,
                     totalPausedDuration := t.totalPausedDuration + PauseSeconds(t, now));
        Step(Ok(200, t'), db.(timer := Some(t')))
  }

  /** PUT /project: moves the timer to another project, nothing else. */
  function ChangeProject(db: Tables, projectId: string): (r: Step<Tables, ActiveTimer>)
    ensures !IsUuid(projectId) ==> r == Step(Fail(400), db)
    ensures IsUuid(projectId) && db.timer.None? ==> r == Step(Fail(404), db)
    ensures IsUuid(projectId) && db.timer.Some? && projectId !in db.projects ==> r == Step(Fail(500), db)
    ensures IsUuid(projectId) && db.timer.Some? && projectId in db.projects ==>
      && r.reply == Ok(200, db.timer.value.(projectId := projectId))
      && r.state == db.(timer := Some(r.reply.value))
  {
    if !IsUuid(projectId) then Step(Fail(400), db)
    else
      match db.timer
      case None => Step(Fail(404), db)
      case Some(t) =>
        if projectId !in db.projects then Step(Fail(500), db)
        else
          var t' := t.(projectId := projectId);
          Step(Ok(200, t'), db.(timer := Some(t')))
  }

  /** Every timer handler keeps keys and foreign keys intact. */
  lemma TimerRoutesPreserveWellFormed(db: Tables, projectId: string, now: Millis, entryId: Id)
    requires WellFormed(db)
    ensures WellFormed(Start(db, projectId, now, entryId).state)
    ensures WellFormed(Stop(db, now, entryId).state)
    ensures WellFormed(Pause(db, now).state)
    ensures WellFormed(Resume(db, now).state)
    ensures WellFormed(ChangeProject(db, projectId).state)
  {
  }

  /** Every timer handler writes its instants through whole-second columns. */
  lemma TimerRoutesKeepWholeSeconds(db: Tables, projectId: string, now: Millis, entryId: Id)
    requires WholeSeconds(db)
    ensures WholeSeconds(Start(db, projectId, now, entryId).state)
    ensures WholeSeconds(Stop(db, now, entryId).state)
    ensures WholeSeconds(Pause(db, now).state)
    ensures WholeSeconds(Resume(db, now).state)
    ensures WholeSeconds(ChangeProject(db, projectId).state)
  {
  }

  const ScenarioProject: Id := "00000000-0000-4000-8000-000000000001"

  function ScenarioDb(): Tables
  {
    Tables(map[ScenarioProject := Project(ScenarioProject, "A", "#4f46e5", 0, None)], map[], None)
  }

  /**
    Start at 0 s, pause at 100 s, resume at 130 s, stop at 200 s: the entry
    records 170 s of work.
   */
  lemma PauseResumeScenario()
    ensures
      var s1 := Start(ScenarioDb(), ScenarioProject, 0, "e1").state;
      var s2 := Pause(s1, 100_000).state;
      var s3 := Resume(s2, 130_000).state;
      var r := Stop(s3, 200_000, "e1");
      r.reply.Ok? && r.reply.value.duration == 170
  {
    var s1 := Start(ScenarioDb(), ScenarioProject, 0, "e1").state;
    assert s1.timer == Some(FreshTimer(ScenarioProject, 0));
  }

  /**
    Stopping while still paused subtracts only the pauses already folded in:
    start at 0 s, pause at 100 s, stop at 200 s records 200 s.
   */
  lemma DanglingPauseCountsAsWork()
    ensures
      var s1 := Start(ScenarioDb(), ScenarioProject, 0, "e1").state;
      var s2 := Pause(s1, 100_000).state;
      var r := Stop(s2, 200_000, "e1");
      r.reply.Ok? && r.reply.value.duration == 200
  {
    var s1 := Start(ScenarioDb(), ScenarioProject, 0, "e1").state;
    assert s1.timer == Some(FreshTimer(ScenarioProject, 0));
  }

  /**
    The start is stored in whole seconds before the stop is measured against
    it: a timer started at 999 ms and stopped at 1000 ms records one second.
   */
  lemma SubSecondStartRoundsDown()
    ensures
      var s1 := Start(ScenarioDb(), ScenarioProject, 999, "e1").state;
      var r := Stop(s1, 1000, "e1");
      r.reply.Ok? && r.reply.value.duration == 1 && r.reply.value.startTime == 0
  {
    var s1 := Start(ScenarioDb(), ScenarioProject, 999, "e1").state;
    assert s1.timer == Some(FreshTimer(ScenarioProject, 999));
  }
}
