/**
  The server's time-entry endpoints: create with normalisation, partial
  update, delete, and the filtered list ordered by start time, latest first.
 */
module EntryRoutes {

  import opened Common
  import opened Entities
  import opened Ordering
  import opened Calendar

  /** The body of a create request after parsing. */
  datatype EntryInput = EntryInput(
    projectId: string,
    startTime: Millis,
    endTime: Option<Millis>,
    duration: int,
    description: Option<string>)

  /** `description || null`: an empty description is stored as null. */
  function NormalizeDescription(d: Option<string>): (r: Option<string>)
    ensures r.None? <==> (d.None? || d == Some(""))
    ensures r.Some? ==> r == d
  {
    match d
    case Some(s) => if s == "" then None else d
    case None => None
  }

  /**
    POST /: the project id must be a UUID and the duration non-negative; the
    insert needs an unused id and an existing project. The reply is the row
    read back, so its instants are in whole seconds.
   */
  function Create(db: Tables, input: EntryInput, newId: Id): (r: Step<Tables, TimeEntry>)
    ensures !IsUuid(input.projectId) || input.duration < 0 ==> r == Step(Fail(400), db)
    ensures IsUuid(input.projectId) && input.duration >= 0 && (newId in db.entries || input.projectId !in db.projects)
      ==> r == Step(Fail(500), db)
    ensures IsUuid(input.projectId) && input.duration >= 0 && newId !in db.entries && input.projectId in db.projects
      ==>
      && r.reply.Ok? && r.reply.status == 201
      && r.state == db.(entries := db.entries[newId := r.reply.value])
      && r.reply.value.id == newId
      && r.reply.value.projectId == input.projectId
      && r.reply.value.startTime == Stored(input.startTime)
      && (input.endTime.None? ==> r.reply.value.endTime.None?)
      && (input.endTime.Some? ==> r.reply.value.endTime == Some(Stored(input.endTime.value)))
      && r.reply.value.duration == input.duration
      && (r.reply.value.description.None? <==> (input.description.None? || input.description == Some("")))
      && (r.reply.value.description.Some? ==> r.reply.value.description == input.description)
  {
    if !IsUuid(input.projectId) || input.duration < 0 then Step(Fail(400), db)
    else if newId in db.entries || input.projectId !in db.projects then Step(Fail(500), db)
    else
      var e := TimeEntry(newId, input.projectId, Stored(input.startTime), StoredOption(input.endTime),
                         input.duration, NormalizeDescription(input.description));
      Step(Ok(201, e), db.(entries := db.entries[newId := e]))
  }

  /** The fields an update may carry; endTime and description may be set to null. */
  datatype EntryUpdate = EntryUpdate(
    projectId: Patch<string>,
    startTime: Patch<Millis>,
    endTime: Patch<Option<Millis>>,
    duration: Patch<int>,
    description: Patch<Option<string>>)

  predicate ValidUpdate(u: EntryUpdate)
  {
    && (u.projectId.Set? ==> IsUuid(u.projectId.value))
    && (u.duration.Set? ==> u.duration.value >= 0)
  }

  /** An update that carries no field, which the database layer refuses to run. */
  predicate NoFields(u: EntryUpdate)
  {
    u.projectId.Keep? && u.startTime.Keep? && u.endTime.Keep? && u.duration.Keep? && u.description.Keep?
  }

  /** A nullable timestamp column as it reads back. */
  function StoredOption(t: Option<Millis>): Option<Millis>
  {
    match t
    case Some(ms) => Some(Stored(ms))
    case None => None
  }

  function ApplyEntryUpdate(e: TimeEntry, u: EntryUpdate): TimeEntry
  {
    e.(projectId := Apply(u.projectId, e.projectId),
       startTime := if u.startTime.Set? then Stored(u.startTime.value) else e.startTime,
       endTime := if u.endTime.Set? then StoredOption(u.endTime.value) else e.endTime,
       duration := Apply(u.duration, e.duration),
       description := Apply(u.description, e.description))
  }

  /**
    PUT /:id: validated first, then the entry must exist and a new project id
    must name a project. Exactly the supplied fields change; instants are
    stored in whole seconds. An update with no field at all is an error of
    the database layer and answers 500.
   */
  function Update(db: Tables, id: Id, u: EntryUpdate): (r: Step<Tables, TimeEntry>)
    ensures !ValidUpdate(u) ==> r == Step(Fail(400), db)
    ensures ValidUpdate(u) && id !in db.entries ==> r == Step(Fail(404), db)
    ensures ValidUpdate(u) && id in db.entries && u.projectId.Set? && u.projectId.value !in db.projects ==>
      r == Step(Fail(500), db)
    ensures id in db.entries && NoFields(u) ==> r == Step(Fail(500), db)
    ensures ValidUpdate(u) && id in db.entries && !NoFields(u) && (u.projectId.Set? ==> u.projectId.value in db.projects) ==>
      var e := db.entries[id];
      && r.reply.Ok? && r.reply.status == 200
      && r.state == db.(entries := db.entries[id := r.reply.value])
      && r.reply.value.id == e.id
      && (u.projectId.Keep? ==> r.reply.value.projectId == e.projectId)
      && (u.projectId.Set? ==> r.reply.value.projectId == u.projectId.value)
      && (u.startTime.Keep? ==> r.reply.value.startTime == e.startTime)
      && (u.startTime.Set? ==> r.reply.value.startTime == Stored(u.startTime.value))
      && (u.endTime.Keep? ==> r.reply.value.endTime == e.endTime)
      && (u.endTime == Set(None) ==> r.reply.value.endTime.None?)
      && (u.endTime.Set? && u.endTime.value.Some? ==> r.reply.value.endTime == Some(Stored(u.endTime.value.value)))
      && (u.duration.Keep? ==> r.reply.value.duration == e.duration)
      && (u.duration.Set? ==> r.reply.value.duration == u.duration.value)
      && (u.description.Keep? ==> r.reply.value.description == e.description)
      && (u.description.Set? ==> r.reply.value.description == u.description.value)
  {
    if !ValidUpdate(u) then Step(Fail(400), db)
    else if id !in db.entries then Step(Fail(404), db)
    else if u.projectId.Set? && u.projectId.value !in db.projects then Step(Fail(500), db)
    else if NoFields(u) then Step(Fail(500), db)
    else
      var e' := ApplyEntryUpdate(db.entries[id], u);
      Step(Ok(200, e'), db.(entries := db.entries[id := e']))
  }

  /**
    Writing back every field an entry already has changes nothing, as long as
    its instants are whole seconds, which every stored entry's are.
   */
  lemma RewriteChangesNothing(db: Tables, id: Id)
    requires id in db.entries && db.entries[id].projectId in db.projects
    requires IsUuid(db.entries[id].projectId) && db.entries[id].duration >= 0
    requires WholeSecond(db.entries[id].startTime)
    requires db.entries[id].endTime.Some? ==> WholeSecond(db.entries[id].endTime.value)
    ensures
      var e := db.entries[id];
      var r := Update(db, id, EntryUpdate(Set(e.projectId), Set(e.startTime), Set(e.endTime), Set(e.duration), Set(e.description)));
      r.reply == Ok(200, e) && r.state == db
  {
    var e := db.entries[id];
    StoredFixesWholeSeconds(e.startTime);
    if e.endTime.Some? {
      StoredFixesWholeSeconds(e.endTime.value);
    }
  }

  /** DELETE /:id: removes that entry and nothing else. */
  function Delete(db: Tables, id: Id): (r: Step<Tables, ()>)
    ensures id !in db.entries ==> r == Step(Fail(404), db)
    ensures id in db.entries ==>
      && r.reply == Ok(204, ())
      && r.state.projects == db.projects
      && r.state.timer == db.timer
      && r.state.entries.Keys == db.entries.Keys - {id}
      && (forall k :: k in r.state.entries ==> r.state.entries[k] == db.entries[k])
  {
    if id !in db.entries then Step(Fail(404), db)
    else Step(Ok(204, ()), db.(entries := db.entries - {id}))
  }

  /** Every time-entry handler keeps keys and foreign keys intact. */
  lemma EntryRoutesPreserveWellFormed(db: Tables, id: Id, input: EntryInput, u: EntryUpdate)
    requires WellFormed(db)
    ensures WellFormed(Create(db, input, id).state)
    ensures WellFormed(Update(db, id, u).state)
    ensures WellFormed(Delete(db, id).state)
  {
  }

  /** Every time-entry handler stores its instants in whole seconds. */
  lemma EntryRoutesKeepWholeSeconds(db: Tables, id: Id, input: EntryInput, u: EntryUpdate)
    requires WholeSeconds(db)
    ensures WholeSeconds(Create(db, input, id).state)
    ensures WholeSeconds(Update(db, id, u).state)
    ensures WholeSeconds(Delete(db, id).state)
  {
  }

  function StartTimeOf(e: TimeEntry): int
  {
    e.startTime
  }

  /** Which rows the list endpoint selects for its query parameters. */
  datatype Selection = ByProject(projectId: string) | Since(start: Millis) | Everything

  /**
    A non-empty projectId query parameter wins over a period; a period other
    than day, week or month is ignored.
   */
  function Select(projectId: Option<string>, period: Option<string>, today: Today): (s: Selection)
    ensures projectId.Some? && projectId.value != "" ==> s == ByProject(projectId.value)
    ensures (projectId.None? || projectId == Some("")) && period.Some? && ParsePeriod(period.value).Some? ==>
      s == Since(PeriodStart(ParsePeriod(period.value).value, today))
    ensures (projectId.None? || projectId == Some("")) && (period.None? || ParsePeriod(period.value).None?) ==>
      s == Everything
  {
    if projectId.Some? && projectId.value != "" then ByProject(projectId.value)
    else if period.Some? && ParsePeriod(period.value).Some? then
      Since(PeriodStart(ParsePeriod(period.value).value, today))
    else Everything
  }

  predicate Selected(sel: Selection, e: TimeEntry)
  {
    match sel
    case ByProject(pid) => e.projectId == pid
    case Since(start) => e.startTime >= start
    case Everything => true
  }

  /** GET /: the selected entries, latest start first. */
  function List(db: Tables, projectId: Option<string>, period: Option<string>, today: Today): (r: seq<TimeEntry>)
    ensures SortedDesc(r, StartTimeOf)
    ensures forall e :: e in r <==> e in db.entries.Values && Selected(Select(projectId, period, today), e)
    ensures RowsKeyed(db) ==>
      forall e :: multiset(r)[e] == if e in db.entries.Values && Selected(Select(projectId, period, today), e) then 1 else 0
  {
    var sel := Select(projectId, period, today);
    var rows := Rows(db.entries);
    var chosen := Filter(rows, e => Selected(sel, e));
    var r := SortDesc(chosen, StartTimeOf);
    assert forall e :: e in r <==> e in db.entries.Values && Selected(sel, e) by {
      forall e ensures e in r <==> e in db.entries.Values && Selected(sel, e) {
        SortDescMember(chosen, StartTimeOf, e);
        FilterMember(rows, e => Selected(sel, e), e);
        RowsMember(db.entries, e);
      }
    }
    assert RowsKeyed(db) ==> forall e :: multiset(r)[e] == if e in db.entries.Values && Selected(sel, e) then 1 else 0 by {
      if RowsKeyed(db) {
        forall e ensures multiset(r)[e] == if e in db.entries.Values && Selected(sel, e) then 1 else 0 {
          FilterCount(rows, e => Selected(sel, e), e);
          RowsOnce(db.entries, EntryKey, e);
        }
      }
    }
    r
  }

  /** With a project filter the period is ignored: only that project's entries come back. */
  lemma ProjectFilterWins(db: Tables, pid: string, period: Option<string>, today: Today)
    requires pid != ""
    ensures forall e :: e in List(db, Some(pid), period, today) <==>
      e in db.entries.Values && e.projectId == pid
  {
  }
}
