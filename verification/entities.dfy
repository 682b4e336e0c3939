/**
  The records of the time tracker as the relational schema declares them, and
  the three tables (projects, time entries, the singleton active timer) held as
  maps keyed by primary key. The same record shapes serve the browser's local
  database, whose optional fields read as the defaults noted below.
 */
module Entities {

  import opened Common

  /** A project; `plannedHoursPerDay` is nullable. */
  datatype Project = Project(
    id: Id,
    name: string,
    color: string,
    createdAt: Millis,
    plannedHoursPerDay: Option<real>)

  /** A finished stretch of work on a project; `duration` is in seconds. */
  datatype TimeEntry = TimeEntry(
    id: Id,
    projectId: Id,
    startTime: Millis,
    endTime: Option<Millis>,
    duration: int,
    description: Option<string>)

  /**
    The running (or paused) timer. A missing `isPaused` reads as false and a
    missing `totalPausedDuration` (seconds) as 0, which is how every reader
    treats them (`existing.totalPausedDuration || 0`).
   */
  datatype ActiveTimer = ActiveTimer(
    id: Id,
    projectId: Id,
    startTime: Millis,
    isRunning: bool,
    isPaused: bool,
    pausedAt: Option<Millis>,
    totalPausedDuration: int)

  datatype Role = Admin | Standard

  /** A user account; `password` holds the hash of the password. */
  datatype User = User(
    id: Id,
    username: string,
    password: string,
    role: Role,
    createdAt: Millis,
    createdBy: Option<string>)

  /** Column defaults of the schema. */
  const TimerId: Id := "active"
  const DefaultDuration: int := 0
  const DefaultRole: Role := Standard
  const DefaultIsPaused: bool := false
  const DefaultTotalPausedDuration: int := 0

  /** A timer row as an insert that names only projectId and startTime produces it. */
  function DefaultTimerRow(projectId: Id, startTime: Millis): ActiveTimer
  {
    ActiveTimer(TimerId, projectId, startTime, true, DefaultIsPaused, None, DefaultTotalPausedDuration)
  }

  /**
    The browser's `activeTimer.put(row)` as the program reads it back: the row
    is stored under its own id and every reader asks for "active", so the row
    replaces the timer exactly when its id is "active". A row under any other
    id is never read back.
   */
  function PutTimer(timer: Option<ActiveTimer>, row: ActiveTimer): (r: Option<ActiveTimer>)
    ensures r == Some(row) <==> row.id == TimerId || timer == Some(row)
    ensures row.id != TimerId ==> r == timer
    ensures (timer.Some? ==> timer.value.id == TimerId) && r.Some? ==> r.value.id == TimerId
  {
    if row.id == TimerId then Some(row) else timer
  }

  /** Putting the same row twice is putting it once. */
  lemma PutTimerIdempotent(timer: Option<ActiveTimer>, row: ActiveTimer)
    ensures PutTimer(PutTimer(timer, row), row) == PutTimer(timer, row)
  {
  }

  /** The projects, time entries and active timer tables. */
  datatype Tables = Tables(
    projects: map<Id, Project>,
    entries: map<Id, TimeEntry>,
    timer: Option<ActiveTimer>)

  const EmptyTables: Tables := Tables(map[], map[], None)

  /** The primary key of each table's rows. */
  function ProjectKey(p: Project): Id { p.id }
  function EntryKey(e: TimeEntry): Id { e.id }

  /** Every project and every entry is stored under its own primary key. */
  ghost predicate RowsKeyed(t: Tables)
  {
    && (forall id :: id in t.projects ==> t.projects[id].id == id)
    && (forall id :: id in t.entries ==> t.entries[id].id == id)
  }

  /** Every row is stored under its own primary key, and the timer row's key is 'active'. */
  ghost predicate KeysMatch(t: Tables)
  {
    && (forall id :: id in t.projects ==> t.projects[id].id == id)
    && (forall id :: id in t.entries ==> t.entries[id].id == id)
    && (t.timer.Some? ==> t.timer.value.id == TimerId)
  }

  /** The foreign keys time_entries.project_id and active_timer.project_id hold. */
  ghost predicate ForeignKeysHold(t: Tables)
  {
    && (forall id :: id in t.entries ==> t.entries[id].projectId in t.projects)
    && (t.timer.Some? ==> t.timer.value.projectId in t.projects)
  }

  /** The server database invariant: keys match and foreign keys hold. */
  ghost predicate WellFormed(t: Tables)
  {
    KeysMatch(t) && ForeignKeysHold(t)
  }

  /** An instant a timestamp column can hold: a whole number of seconds. */
  predicate WholeSecond(ms: Millis)
  {
    ms % 1000 == 0
  }

  /** Every instant the server tables hold was written through a whole-second timestamp column. */
  ghost predicate WholeSeconds(t: Tables)
  {
    && (forall id :: id in t.projects ==> WholeSecond(t.projects[id].createdAt))
    && (forall id :: id in t.entries ==> WholeSecond(t.entries[id].startTime))
    && (forall id :: id in t.entries && t.entries[id].endTime.Some? ==> WholeSecond(t.entries[id].endTime.value))
    && (t.timer.Some? ==> WholeSecond(t.timer.value.startTime))
    && (t.timer.Some? && t.timer.value.pausedAt.Some? ==> WholeSecond(t.timer.value.pausedAt.value))
  }

  /** The entries of `t` that do not belong to project `pid`. */
  function EntriesNotOf(entries: map<Id, TimeEntry>, pid: Id): (r: map<Id, TimeEntry>)
    ensures r.Keys <= entries.Keys
    ensures forall id :: id in r ==> r[id] == entries[id] && r[id].projectId != pid
    ensures forall id :: id in entries && entries[id].projectId != pid ==> id in r
  {
    map id | id in entries && entries[id].projectId != pid :: entries[id]
  }
}
