/**
  The browser database's own housekeeping: the one-time migration of the
  legacy local-storage lists into the database, the JSON import with
  upsert-or-add, the local-storage backup ("JSON store") and its restore, and
  the auto-save switch. Parsed local-storage items are passed in already
  decoded; an item that is absent is None.
 */
module LocalDb {

  import opened Common
  import opened Entities
  import opened Ordering
  import opened Dexie

  /** The sample project created when there is nothing to migrate. */
  function SampleProject(now: Millis): Project
  {
    Project("1", "CITL", "#3b82f6", now, None)
  }

  /**
    `migrateFromLocalStorage`: acts only on a database with no project and
    no entry. The saved projects (or, when there are none saved, the sample
    project) are added, then the saved entries. A refused `bulkAdd` ends the
    migration where it stands.
   */
  function Migrate(db: Tables, savedProjects: Option<seq<Project>>, savedEntries: Option<seq<TimeEntry>>, now: Millis): (r: Tables)
    ensures |db.projects| > 0 || |db.entries| > 0 ==> r == db
    ensures r.timer == db.timer
    ensures |db.projects| == 0 && |db.entries| == 0 && savedProjects.None? ==>
      r.projects == map["1" := SampleProject(now)]
    ensures |db.projects| == 0 && |db.entries| == 0 && savedProjects.Some? ==>
      r.projects == BulkAdd(db.projects, savedProjects.value, ProjectKey).0
    ensures savedEntries.None? ==> r.entries == db.entries
    ensures |db.projects| == 0 && |db.entries| == 0 && savedProjects.None? && savedEntries.Some? ==>
      r.entries == BulkAdd(db.entries, savedEntries.value, EntryKey).0
    ensures |db.projects| == 0 && |db.entries| == 0 && savedProjects.Some? && savedEntries.Some? ==>
      var (_, pFailed) := BulkAdd(db.projects, savedProjects.value, ProjectKey);
      && (pFailed ==> r.entries == db.entries)
      && (!pFailed ==> r.entries == BulkAdd(db.entries, savedEntries.value, EntryKey).0)
  {
    if |db.projects| > 0 || |db.entries| > 0 then db
    else
      var rows := if savedProjects.Some? then savedProjects.value else [SampleProject(now)];
      var (p, pFailed) := BulkAdd(db.projects, rows, ProjectKey);
      if pFailed || savedEntries.None? then db.(projects := p)
      else db.(projects := p, entries := BulkAdd(db.entries, savedEntries.value, EntryKey).0)
  }

  /** Running the migration again, at any later time, changes nothing more. */
  lemma MigrateIdempotent(db: Tables, savedProjects: Option<seq<Project>>, savedEntries: Option<seq<TimeEntry>>, now: Millis, later: Millis)
    ensures Migrate(Migrate(db, savedProjects, savedEntries, now), savedProjects, savedEntries, later) ==
      Migrate(db, savedProjects, savedEntries, now)
  {
    // A migration that leaves both tables empty had only empty lists to add.
    if savedProjects.Some? { BulkAddToEmpty(savedProjects.value, ProjectKey); }
    if savedEntries.Some? { BulkAddToEmpty(savedEntries.value, EntryKey); }
    if |db.projects| == 0 && |db.entries| == 0 {
      assert db.projects == map[] && db.entries == map[];
    }
  }

  /** Adding rows to an empty table leaves it empty only when there were no rows. */
  lemma BulkAddToEmpty<V>(rows: seq<V>, id: V -> Id)
    ensures |BulkAdd(map[], rows, id).0| == 0 ==> rows == []
  {
    if rows != [] {
      assert Mentions(rows, id, id(rows[0]));
      assert id(rows[0]) in BulkAdd(map[], rows, id).0;
    }
  }

  /** A JSON file as parsed by the import; a missing `projects` or `timeEntries` array is None. */
  datatype DataFile = DataFile(projects: Option<seq<Project>>, timeEntries: Option<seq<TimeEntry>>)

  datatype Outcome = Done(projectCount: nat, entryCount: nat) | Rejected | Failed

  /**
    `importDataFromJSON`: an unreadable file fails and one without both arrays
    is rejected, each touching nothing. Into a non-empty database the rows are
    upserted; into an empty one they are added, and a refused `bulkAdd` fails
    the import where it stands. The timer is not touched.
   */
  function ImportDataFromJson(db: Tables, file: Option<DataFile>): (r: (Outcome, Tables))
    ensures file.None? ==> r == (Failed, db)
    ensures file.Some? && (file.value.projects.None? || file.value.timeEntries.None?) ==> r == (Rejected, db)
    ensures r.1.timer == db.timer
    ensures r.0.Done? ==> r.0 == Done(|file.value.projects.value|, |file.value.timeEntries.value|)
    ensures (|db.projects| > 0 || |db.entries| > 0) && file.Some? && file.value.projects.Some? && file.value.timeEntries.Some? ==>
      r == (Done(|file.value.projects.value|, |file.value.timeEntries.value|),
            db.(projects := BulkPut(db.projects, file.value.projects.value, ProjectKey),
                entries := BulkPut(db.entries, file.value.timeEntries.value, EntryKey)))
    ensures |db.projects| == 0 && |db.entries| == 0 && file.Some? && file.value.projects.Some? && file.value.timeEntries.Some? ==>
      var (p, pFailed) := BulkAdd(db.projects, file.value.projects.value, ProjectKey);
      var (e, eFailed) := BulkAdd(db.entries, file.value.timeEntries.value, EntryKey);
      && (r.0.Done? <==> !pFailed && !eFailed)
      && (!r.0.Done? ==> r.0 == Failed)
      && r.1.projects == p
      && (pFailed ==> r.1.entries == db.entries)
      && (!pFailed ==> r.1.entries == e)
  {
    if file.None? then (Failed, db)
    else
      var f := file.value;
      if f.projects.None? || f.timeEntries.None? then (Rejected, db)
      else
        var ps, es := f.projects.value, f.timeEntries.value;
        var done := Done(|ps|, |es|);
        if |db.projects| > 0 || |db.entries| > 0 then
          (done, db.(projects := BulkPut(db.projects, ps, ProjectKey), entries := BulkPut(db.entries, es, EntryKey)))
        else
          var (p, pFailed) := BulkAdd(db.projects, ps, ProjectKey);
          if pFailed then (Failed, db.(projects := p))
          else
            var (e, eFailed) := BulkAdd(db.entries, es, EntryKey);
            (if eFailed then Failed else done, db.(projects := p, entries := e))
  }

  /**
    Into a non-empty database an import is an upsert: each incoming project
    (the last one with its id) wins, and projects the file does not mention
    are kept as they were.
   */
  lemma ImportIsUpsert(db: Tables, ps: seq<Project>, es: seq<TimeEntry>)
    requires |db.projects| > 0 || |db.entries| > 0
    ensures var r := ImportDataFromJson(db, Some(DataFile(Some(ps), Some(es)))).1;
      && (forall i :: 0 <= i < |ps| && LastWithId(ps, ProjectKey, i) ==> r.projects[ps[i].id] == ps[i])
      && (forall k :: k in db.projects && !Mentions(ps, ProjectKey, k) ==> r.projects[k] == db.projects[k])
      && (forall k :: k in r.projects <==> k in db.projects || Mentions(ps, ProjectKey, k))
  {
  }

  /** The local-storage backup: version "1.0", the rows, the timer. */
  datatype JsonStore = JsonStore(version: string, projects: seq<Project>, timeEntries: seq<TimeEntry>, activeTimer: Option<ActiveTimer>)

  /** The backup as read back; a missing array is None. */
  datatype StoredBackup = StoredBackup(projects: Option<seq<Project>>, timeEntries: Option<seq<TimeEntry>>, activeTimer: Option<ActiveTimer>)

  function Backup(db: Tables): (s: JsonStore)
    ensures s.version == "1.0"
    ensures |s.projects| == |db.projects| && |s.timeEntries| == |db.entries|
    ensures forall p :: p in s.projects <==> p in db.projects.Values
    ensures forall e :: e in s.timeEntries <==> e in db.entries.Values
    ensures s.activeTimer == db.timer
  {
    var ps, es := Rows(db.projects), Rows(db.entries);
    assert forall p :: p in ps <==> p in db.projects.Values by {
      forall p ensures p in ps <==> p in db.projects.Values {
        RowsMember(db.projects, p);
      }
    }
    assert forall e :: e in es <==> e in db.entries.Values by {
      forall e ensures e in es <==> e in db.entries.Values {
        RowsMember(db.entries, e);
      }
    }
    JsonStore("1.0", ps, es, db.timer)
  }

  /** `saveToJsonStore`: the backup is written unless the write fails; the answer says which. */
  function SaveToJsonStore(db: Tables, stored: Option<StoredBackup>, writeOk: bool): (r: (bool, Option<StoredBackup>))
    ensures r.0 == writeOk
    ensures !writeOk ==> r.1 == stored
    ensures writeOk ==> r.1 == Some(StoredBackup(Some(Backup(db).projects), Some(Backup(db).timeEntries), db.timer))
  {
    if !writeOk then (false, stored)
    else
      var b := Backup(db);
      (true, Some(StoredBackup(Some(b.projects), Some(b.timeEntries), b.activeTimer)))
  }

  /**
    `loadFromJsonStore`: nothing stored fails, and so does a backup missing
    an array, each touching nothing. Otherwise the rows are upserted and a
    stored timer is put whatever the start times, replacing the local one
    when its id is "active".
   */
  function LoadFromJsonStore(db: Tables, stored: Option<StoredBackup>): (r: (Outcome, Tables))
    ensures stored.None? ==> r == (Rejected, db)
    ensures stored.Some? && (stored.value.projects.None? || stored.value.timeEntries.None?) ==> r == (Failed, db)
    ensures r.0.Done? ==>
      r.1.timer == if stored.value.activeTimer.Some? && stored.value.activeTimer.value.id == TimerId then stored.value.activeTimer else db.timer
    ensures r.0.Done? ==> (r.1.projects == BulkPut(db.projects, stored.value.projects.value, ProjectKey)
      && r.1.entries == BulkPut(db.entries, stored.value.timeEntries.value, EntryKey))
    ensures stored.Some? && stored.value.projects.Some? && stored.value.timeEntries.Some? ==> r.0.Done?
  {
    match stored
    case None => (Rejected, db)
    case Some(s) =>
      if s.projects.None? || s.timeEntries.None? then (Failed, db)
      else
        var ps, es := s.projects.value, s.timeEntries.value;
        var timer := if s.activeTimer.Some? then PutTimer(db.timer, s.activeTimer.value) else db.timer;
        (Done(|ps|, |es|), Tables(BulkPut(db.projects, ps, ProjectKey), BulkPut(db.entries, es, EntryKey), timer))
  }

  /** Upserting a table's own rows, as Rows lists them, changes nothing. */
  lemma PutOwnRows<V>(m: map<Id, V>, id: V -> Id)
    requires forall k :: k in m ==> id(m[k]) == k
    ensures BulkPut(m, Rows(m), id) == m
  {
    var rows := Rows(m);
    forall i | 0 <= i < |rows| ensures id(rows[i]) in m && m[id(rows[i])] == rows[i] {
      var k :| k in m && rows[i] == m[k];
    }
    BulkPutOwnRows(m, rows, id);
  }

  /** Restoring a backup just taken gives back the same database. */
  lemma BackupRoundTrip(db: Tables, stored: Option<StoredBackup>)
    requires RowsKeyed(db)
    ensures LoadFromJsonStore(db, SaveToJsonStore(db, stored, true).1) == (Done(|db.projects|, |db.entries|), db)
  {
    PutOwnRows(db.projects, ProjectKey);
    PutOwnRows(db.entries, EntryKey);
  }

  /** Upserting a table's own rows into an empty table reproduces the table. */
  lemma PutRowsIntoEmpty<V>(m: map<Id, V>, id: V -> Id)
    requires forall k :: k in m ==> id(m[k]) == k
    ensures BulkPut(map[], Rows(m), id) == m
  {
    var rows := Rows(m);
    RowsDistinctKeys(m, id);
    forall i | 0 <= i < |rows| ensures id(rows[i]) in m && m[id(rows[i])] == rows[i] {
      RowsMember(m, rows[i]);
    }
    forall k | k in m ensures Mentions(rows, id, k) {
    }
    BulkAddDistinctRows(m, rows, id);
    BulkAddAgreesWithBulkPut(map[], rows, id);
  }

  /** A backup restored into an empty database gives back the database it was taken from. */
  lemma BackupIntoEmpty(db: Tables, stored: Option<StoredBackup>)
    requires KeysMatch(db)
    ensures LoadFromJsonStore(Tables(map[], map[], None), SaveToJsonStore(db, stored, true).1) ==
      (Done(|db.projects|, |db.entries|), db)
  {
    PutRowsIntoEmpty(db.projects, ProjectKey);
    PutRowsIntoEmpty(db.entries, EntryKey);
  }

  /**
    A restored backup's timer wins even over a newer local timer, unlike a
    sync load, as long as its id is "active"; under another id the local
    timer stays what the program reads.
   */
  lemma RestoreOverwritesNewerTimer(db: Tables, s: StoredBackup)
    requires s.projects.Some? && s.timeEntries.Some?
    requires s.activeTimer.Some? && db.timer.Some? && db.timer.value.startTime > s.activeTimer.value.startTime
    ensures s.activeTimer.value.id == TimerId ==> LoadFromJsonStore(db, Some(s)).1.timer == s.activeTimer
    ensures s.activeTimer.value.id != TimerId ==> LoadFromJsonStore(db, Some(s)).1.timer == db.timer
  {
  }

  /** `startAutoSave`/`stopAutoSave`: whether the five-minute backup interval is set. */
  function StartAutoSave(active: bool): (r: bool)
    ensures r
  {
    true
  }

  function StopAutoSave(active: bool): (r: bool)
    ensures !r
  {
    false
  }

  /** Starting twice sets one interval: the second start changes nothing. */
  lemma StartAutoSaveIdempotent(active: bool)
    ensures StartAutoSave(StartAutoSave(active)) == StartAutoSave(active)
  {
  }
}
