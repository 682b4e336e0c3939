/**
  The server's project endpoints: create with defaults, partial update,
  delete with cascade, and the list ordered newest first.
 */
module ProjectRoutes {

  import opened Common
  import opened Entities
  import opened Ordering

  /** The colours a project gets when the request names none. */
  const ServerPalette: seq<string> := [
    "#4f46e5", "#7c3aed", "#db2777", "#dc2626",
    "#ea580c", "#ca8a04", "#16a34a", "#0891b2",
    "#2563eb", "#9333ea", "#c026d3", "#e11d48"]

  /** A palette colour chosen by a random draw, supplied as `draw`. */
  function GenerateColor(draw: nat): (c: string)
    ensures c in ServerPalette
  {
    ServerPalette[draw % |ServerPalette|]
  }

  /** `plannedHoursPerDay || null`: zero and absent both become null. */
  function NormalizePlanned(h: Option<real>): (r: Option<real>)
    ensures r.None? <==> (h.None? || h == Some(0.0))
    ensures r.Some? ==> r == h
  {
    match h
    case Some(x) => if x == 0.0 then None else Some(x)
    case None => None
  }

  /**
    POST /: the name must be non-empty; an absent or empty colour is drawn from
    the palette; the new id must be unused. The reply carries the creation
    instant to the millisecond; the row keeps it in whole seconds.
   */
  function Create(db: Tables, name: string, color: Option<string>, planned: Option<real>,
                  newId: Id, now: Millis, draw: nat): (r: Step<Tables, Project>)
    ensures |name| == 0 ==> r == Step(Fail(400), db)
    ensures |name| > 0 && newId in db.projects ==> r == Step(Fail(500), db)
    ensures |name| > 0 && newId !in db.projects ==>
      && r.reply.Ok? && r.reply.status == 201
      && r.state == db.(projects := db.projects[newId := r.reply.value.(createdAt := Stored(now))])
      && r.reply.value.id == newId
      && r.reply.value.name == name
      && r.reply.value.createdAt == now
      && (color.Some? && color.value != "" ==> r.reply.value.color == color.value)
      && ((color.None? || color == Some("")) ==> r.reply.value.color in ServerPalette)
      && (r.reply.value.plannedHoursPerDay.None? <==> (planned.None? || planned == Some(0.0)))
      && (planned.Some? && planned.value != 0.0 ==> r.reply.value.plannedHoursPerDay == planned)
  {
    if |name| == 0 then Step(Fail(400), db)
    else
      var c := match color
        case Some(s) => if s != "" then s else GenerateColor(draw)
        case None => GenerateColor(draw);
      var p := Project(newId, name, c, now, NormalizePlanned(planned));
      if newId in db.projects then Step(Fail(500), db)
      else Step(Ok(201, p), db.(projects := db.projects[newId := p.(createdAt := Stored(now))]))
  }

  /** The fields a project update may carry; `plannedHoursPerDay` may be set to null. */
  datatype ProjectUpdate = ProjectUpdate(
    name: Patch<string>,
    color: Patch<string>,
    plannedHoursPerDay: Patch<Option<real>>)

  function ApplyProjectUpdate(p: Project, u: ProjectUpdate): Project
  {
    p.(name := Apply(u.name, p.name),
       color := Apply(u.color, p.color),
       plannedHoursPerDay := Apply(u.plannedHoursPerDay, p.plannedHoursPerDay))
  }

  /** An update that carries no field, which the database layer refuses to run. */
  predicate NoFields(u: ProjectUpdate)
  {
    u.name.Keep? && u.color.Keep? && u.plannedHoursPerDay.Keep?
  }

  /**
    PUT /:id: the body is validated first (a supplied name must be non-empty),
    then the project must exist; only the supplied fields change. An update
    with no field at all is an error of the database layer and answers 500.
   */
  function Update(db: Tables, id: Id, u: ProjectUpdate): (r: Step<Tables, Project>)
    ensures u.name == Set("") ==> r == Step(Fail(400), db)
    ensures u.name != Set("") && id !in db.projects ==> r == Step(Fail(404), db)
    ensures id in db.projects && NoFields(u) ==> r == Step(Fail(500), db)
    ensures u.name != Set("") && id in db.projects && !NoFields(u) ==>
      var p := db.projects[id];
      && r.reply.Ok? && r.reply.status == 200
      && r.state == db.(projects := db.projects[id := r.reply.value])
      && r.reply.value.id == p.id
      && r.reply.value.createdAt == p.createdAt
      && (u.name.Keep? ==> r.reply.value.name == p.name)
      && (u.name.Set? ==> r.reply.value.name == u.name.value)
      && (u.color.Keep? ==> r.reply.value.color == p.color)
      && (u.color.Set? ==> r.reply.value.color == u.color.value)
      && (u.plannedHoursPerDay.Keep? ==> r.reply.value.plannedHoursPerDay == p.plannedHoursPerDay)
      && (u.plannedHoursPerDay.Set? ==> r.reply.value.plannedHoursPerDay == u.plannedHoursPerDay.value)
  {
    if u.name == Set("") then Step(Fail(400), db)
    else if id !in db.projects then Step(Fail(404), db)
    else if NoFields(u) then Step(Fail(500), db)
    else
      var p' := ApplyProjectUpdate(db.projects[id], u);
      Step(Ok(200, p'), db.(projects := db.projects[id := p']))
  }

  /**
    DELETE /:id: removes the project's time entries, then the project; the
    foreign-key cascade also removes an active timer on that project.
   */
  function Delete(db: Tables, id: Id): (r: Step<Tables, ()>)
    ensures id !in db.projects ==> r == Step(Fail(404), db)
    ensures id in db.projects ==>
      && r.reply == Ok(204, ())
      && r.state.projects == db.projects - {id}
      && (forall eid :: eid in r.state.entries <==> eid in db.entries && db.entries[eid].projectId != id)
      && (forall eid :: eid in r.state.entries ==> r.state.entries[eid] == db.entries[eid])
      && (db.timer.Some? && db.timer.value.projectId == id ==> r.state.timer.None?)
      && (db.timer.Some? && db.timer.value.projectId != id ==> r.state.timer == db.timer)
      && (db.timer.None? ==> r.state.timer.None?)
  {
    if id !in db.projects then Step(Fail(404), db)
    else
      var timer' := match db.timer
        case Some(t) => if t.projectId == id then None else db.timer
        case None => None;
      Step(Ok(204, ()), Tables(db.projects - {id}, EntriesNotOf(db.entries, id), timer'))
  }

  /** After a delete no time entry and no timer refers to the project. */
  lemma DeleteLeavesNoReference(db: Tables, id: Id)
    requires id in db.projects
    ensures var s := Delete(db, id).state;
      && id !in s.projects
      && (forall eid :: eid in s.entries ==> s.entries[eid].projectId != id)
      && (s.timer.Some? ==> s.timer.value.projectId != id)
  {
  }

  /** Every project handler keeps keys and foreign keys intact. */
  lemma ProjectRoutesPreserveWellFormed(db: Tables, id: Id, name: string, color: Option<string>,
                                        planned: Option<real>, now: Millis, draw: nat, u: ProjectUpdate)
    requires WellFormed(db)
    ensures WellFormed(Create(db, name, color, planned, id, now, draw).state)
    ensures WellFormed(Update(db, id, u).state)
    ensures WellFormed(Delete(db, id).state)
  {
  }

  /** Every project handler stores its instants in whole seconds. */
  lemma ProjectRoutesKeepWholeSeconds(db: Tables, id: Id, name: string, color: Option<string>,
                                      planned: Option<real>, now: Millis, draw: nat, u: ProjectUpdate)
    requires WholeSeconds(db)
    ensures WholeSeconds(Create(db, name, color, planned, id, now, draw).state)
    ensures WholeSeconds(Update(db, id, u).state)
    ensures WholeSeconds(Delete(db, id).state)
  {
  }

  function CreatedAtOf(p: Project): int
  {
    p.createdAt
  }

  /** GET /: every project, newest first. */
  function List(db: Tables): (r: seq<Project>)
    ensures SortedDesc(r, CreatedAtOf)
    ensures |r| == |db.projects|
    ensures forall p :: p in r <==> p in db.projects.Values
  {
    var rows := Rows(db.projects);
    var r := SortDesc(rows, CreatedAtOf);
    assert forall p :: p in r <==> p in rows by {
      forall p ensures p in r <==> p in rows {
        assert p in r <==> p in multiset(r);
        assert p in rows <==> p in multiset(rows);
      }
    }
    assert |r| == |rows| by {
      assert |multiset(r)| == |multiset(rows)|;
    }
    r
  }
}
