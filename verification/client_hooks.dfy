/**
  The browser hooks that write the local database directly: the active-timer
  hook (start, stop, change project, the running flag) and the projects hook
  (add with a round-robin colour, partial update, delete with its entries).
  The local database has no foreign keys: nothing cascades unless the hook
  does it.
 */
module ClientHooks {

  import opened Common
  import opened Entities
  import opened TimeTracking
  import TimerRoutes

  /** `startTimer`: puts a fresh running timer, replacing whatever timer was there. */
  function StartTimer(t: Tables, projectId: Id, now: Millis): (r: Tables)
    ensures r.timer.Some? && r.timer.value.id == TimerId
    ensures r.timer.value.projectId == projectId && r.timer.value.startTime == now
    ensures r.timer.value.isRunning && !r.timer.value.isPaused
    ensures r.timer.value.pausedAt.None? && r.timer.value.totalPausedDuration == 0
    ensures r.projects == t.projects && r.entries == t.entries
  {
    t.(timer := Some(DefaultTimerRow(projectId, now)))
  }

  /**
    Starting over a running timer in the browser loses the running time: no
    entry is recorded, where the server's start records one.
   */
  lemma ClientStartDropsRunningTime(t: Tables, projectId: Id, now: Millis, entryId: Id)
    requires t.timer.Some?
    requires IsUuid(projectId) && projectId in t.projects
    requires entryId !in t.entries && t.timer.value.projectId in t.projects
    ensures StartTimer(t, projectId, now).entries == t.entries
    ensures TimerRoutes.Start(t, projectId, now, entryId).state.entries ==
      t.entries[entryId := TimerRoutes.EntryFromTimer(t.timer.value, entryId, now)]
    ensures TimerRoutes.Start(t, projectId, now, entryId).state.timer ==
      Some(StartTimer(t, projectId, now).timer.value.(startTime := Stored(now)))
  {
  }

  /** `stopTimer`: deletes the timer row; nothing is recorded. */
  function StopTimer(t: Tables): (r: Tables)
    ensures r.timer.None?
    ensures r.projects == t.projects && r.entries == t.entries
  {
    t.(timer := None)
  }

  lemma StopTimerIdempotent(t: Tables)
    ensures StopTimer(StopTimer(t)) == StopTimer(t)
  {
  }

  /** `updateTimerProject`: without a timer nothing happens; otherwise only the project changes. */
  function UpdateTimerProject(t: Tables, projectId: Id): (r: Tables)
    ensures t.timer.None? ==> r == t
    ensures t.timer.Some? ==> r.timer == Some(t.timer.value.(projectId := projectId))
    ensures r.projects == t.projects && r.entries == t.entries
  {
    match t.timer
    case None => t
    case Some(timer) => t.(timer := Some(timer.(projectId := projectId)))
  }

  /** `isRunning`: false without a timer. */
  function IsRunning(t: Tables): (b: bool)
    ensures b ==> t.timer.Some?
    ensures t.timer.Some? ==> (b <==> t.timer.value.isRunning)
  {
    t.timer.Some? && t.timer.value.isRunning
  }

  /** The hooks' timer operations agree on the running flag. */
  lemma TimerHooksRunning(t: Tables, projectId: Id, now: Millis)
    ensures IsRunning(StartTimer(t, projectId, now))
    ensures !IsRunning(StopTimer(t))
    ensures IsRunning(UpdateTimerProject(t, projectId)) == IsRunning(t)
  {
  }

  /** The palette slot a new project takes when `count` projects exist. */
  function ColorFor(count: nat): (c: string)
    ensures c in ProjectColors
  {
    ProjectColors[count % |ProjectColors|]
  }

  /**
    `addProject`: a project with the given name and planned hours, the next
    palette colour by the current count, and the caller's id and time. An id
    already in use makes the add throw and changes nothing.
   */
  function AddProject(t: Tables, name: string, planned: Option<real>, id: Id, now: Millis): (r: (Option<Project>, Tables))
    ensures id in t.projects ==> r == (None, t)
    ensures id !in t.projects ==> r.0.Some? && r.1 == t.(projects := t.projects[id := r.0.value])
    ensures r.0.Some? ==> r.0.value == Project(id, name, ColorFor(|t.projects|), now, planned)
    ensures r.0.Some? ==> |r.1.projects| == |t.projects| + 1
  {
    if id in t.projects then (None, t)
    else
      var p := Project(id, name, ColorFor(|t.projects|), now, planned);
      (Some(p), t.(projects := t.projects[id := p]))
  }

  /** Two projects added in a row get different colours, and the ninth gets the first one's again. */
  lemma AddProjectRoundRobin(count: nat)
    ensures ColorFor(count) != ColorFor(count + 1)
    ensures ColorFor(count) == ColorFor(count + |ProjectColors|)
  {
    var i := count % 8;
    assert (count + 8) % 8 == i;
    assert (count + 1) % 8 == if i == 7 then 0 else i + 1;
    PaletteDistinct();
  }

  /** No colour appears twice in the palette. */
  lemma PaletteDistinct()
    ensures forall a, b :: 0 <= a < b < |ProjectColors| ==> ProjectColors[a] != ProjectColors[b]
  {
    forall a, b | 0 <= a < b < |ProjectColors| ensures ProjectColors[a] != ProjectColors[b] {
      assert ProjectColors[a][1] != ProjectColors[b][1] || ProjectColors[a][2] != ProjectColors[b][2];
    }
  }

  /** The fields `updateProject` callers may pass; an explicit `undefined` clears the planned hours. */
  datatype ProjectPatch = ProjectPatch(
    name: Patch<string>,
    color: Patch<string>,
    createdAt: Patch<Millis>,
    plannedHoursPerDay: Patch<Option<real>>)

  /** `updateProject`: a missing id is silently ignored; otherwise only the supplied fields change. */
  function UpdateProject(t: Tables, id: Id, u: ProjectPatch): (r: Tables)
    ensures id !in t.projects ==> r == t
    ensures r.entries == t.entries && r.timer == t.timer
    ensures r.projects.Keys == t.projects.Keys
    ensures forall k :: k in t.projects && k != id ==> r.projects[k] == t.projects[k]
    ensures id in t.projects ==>
      var p, q := t.projects[id], r.projects[id];
      && q.id == p.id
      && q.name == Apply(u.name, p.name)
      && q.color == Apply(u.color, p.color)
      && q.createdAt == Apply(u.createdAt, p.createdAt)
      && q.plannedHoursPerDay == Apply(u.plannedHoursPerDay, p.plannedHoursPerDay)
  {
    if id !in t.projects then t
    else
      var p := t.projects[id];
      var q := p.(name := Apply(u.name, p.name), color := Apply(u.color, p.color),
                  createdAt := Apply(u.createdAt, p.createdAt),
                  plannedHoursPerDay := Apply(u.plannedHoursPerDay, p.plannedHoursPerDay));
      t.(projects := t.projects[id := q])
  }

  /** An update that supplies nothing changes nothing, and updating twice with the same fields is updating once. */
  lemma UpdateProjectIdempotent(t: Tables, id: Id, u: ProjectPatch)
    ensures UpdateProject(t, id, ProjectPatch(Keep, Keep, Keep, Keep)) == t
    ensures UpdateProject(UpdateProject(t, id, u), id, u) == UpdateProject(t, id, u)
  {
    if id in t.projects {
      assert t.projects[id := t.projects[id]] == t.projects;
    }
  }

  /** `deleteProject`: every entry of the project, then the project. The timer is left alone. */
  function DeleteProject(t: Tables, id: Id): (r: Tables)
    ensures r.projects == t.projects - {id}
    ensures forall e :: e in r.entries <==> e in t.entries && t.entries[e].projectId != id
    ensures forall e :: e in r.entries ==> r.entries[e] == t.entries[e]
    ensures r.timer == t.timer
  {
    Tables(t.projects - {id}, EntriesNotOf(t.entries, id), t.timer)
  }

  /**
    Deleting the project the running timer is on leaves a timer that names a
    project which no longer exists; the server's cascade removes it instead.
   */
  lemma DeleteProjectLeavesDanglingTimer(t: Tables, id: Id)
    requires t.timer.Some? && t.timer.value.projectId == id
    ensures DeleteProject(t, id).timer.Some?
    ensures DeleteProject(t, id).timer.value.projectId !in DeleteProject(t, id).projects
    ensures !ForeignKeysHold(DeleteProject(t, id))
  {
  }
}
