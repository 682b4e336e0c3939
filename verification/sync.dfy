/**
  The browser-side sync engine. A snapshot of the local database (projects,
  time entries, the active timer) is sealed with a checksum and kept in a
  local store and in three JSON files; loading picks the file snapshot when
  one exists, checks its checksum, and merges it into the local database by
  last-write-wins. Serialisation is abstracted as a `Json` bundle of
  functions from values to UTF-16 code units, and every storage write that
  can fail is an explicit flag.
 */
module Sync {

  import opened Common
  import opened Entities
  import opened Ordering
  import opened Checksum
  import opened Dexie
  import opened Merge

  const SyncVersion: string := "2.0"

  /** The part of a sync record the checksum covers, in the order its fields are serialised. */
  datatype Snapshot = Snapshot(
    version: string,
    projects: seq<Project>,
    timeEntries: seq<TimeEntry>,
    activeTimer: Option<ActiveTimer>)

  /** A sync record: a snapshot, when it was taken, and its checksum. */
  datatype SyncData = SyncData(body: Snapshot, timestamp: Millis, checksum: string)

  /** The three JSON files as the loader parses them; a `version` of "" stands for a missing one. */
  datatype ProjectsFile = ProjectsFile(version: string, timestamp: Millis, projects: seq<Project>, checksum: string)
  datatype EntriesFile = EntriesFile(version: string, timestamp: Millis, timeEntries: seq<TimeEntry>, checksum: string)
  datatype TimerFile = TimerFile(version: string, timestamp: Millis, activeTimer: Option<ActiveTimer>, checksum: string)

  /** Each file is present (readable and parsed) or not. */
  datatype Files = Files(projects: Option<ProjectsFile>, entries: Option<EntriesFile>, timer: Option<TimerFile>)

  const NoFiles: Files := Files(None, None, None)

  /** `JSON.stringify` followed by `charCodeAt`, for each kind of value the engine checksums. */
  datatype Json = Json(
    snapshot: Snapshot -> seq<CodeUnit>,
    projects: seq<Project> -> seq<CodeUnit>,
    entries: seq<TimeEntry> -> seq<CodeUnit>,
    timer: Option<ActiveTimer> -> seq<CodeUnit>)

  /** What the engine sees of the browser: the local database, the sync record in local storage, and the files. */
  datatype Browser = Browser(db: Tables, store: Option<SyncData>, files: Files)

  function ProjectAge(p: Project): int { p.createdAt }
  function EntryAge(e: TimeEntry): int { e.startTime }

  /** `getCurrentData`: every local row and the timer, under the current version. */
  function CurrentData(db: Tables): (s: Snapshot)
    ensures s.version == SyncVersion
    ensures |s.projects| == |db.projects| && forall p :: p in s.projects <==> p in db.projects.Values
    ensures |s.timeEntries| == |db.entries| && forall e :: e in s.timeEntries <==> e in db.entries.Values
    ensures s.activeTimer == db.timer
  {
    assert forall p :: p in Rows(db.projects) <==> p in db.projects.Values by {
      forall p { RowsMember(db.projects, p); }
    }
    assert forall e :: e in Rows(db.entries) <==> e in db.entries.Values by {
      forall e { RowsMember(db.entries, e); }
    }
    Snapshot(SyncVersion, Rows(db.projects), Rows(db.entries), db.timer)
  }

  /** `generateChecksum` over a snapshot. */
  function Seal(body: Snapshot, json: Json): (c: string)
    ensures c != ""
  {
    ChecksumOf(json.snapshot(body))
  }

  /** A record whose checksum matches its snapshot. */
  predicate Intact(d: SyncData, json: Json)
  {
    d.checksum == Seal(d.body, json)
  }

  /** Which of the three file writes went through (to the server or to the local-storage fallback). */
  datatype FileWrites = FileWrites(projects: bool, entries: bool, timer: bool)

  const AllWrites: FileWrites := FileWrites(true, true, true)

  /**
    `saveToJsonFiles`: each written file carries the snapshot's version, the
    save time, its part of the snapshot and a checksum of that part; a file
    whose write did not go through keeps its old content.
   */
  function SaveToJsonFiles(files: Files, data: Snapshot, now: Millis, json: Json, w: FileWrites): (r: Files)
    ensures w.projects ==> (r.projects.Some? && r.projects.value.projects == data.projects
      && r.projects.value.version == data.version && r.projects.value.timestamp == now)
    ensures w.entries ==> (r.entries.Some? && r.entries.value.timeEntries == data.timeEntries
      && r.entries.value.version == data.version && r.entries.value.timestamp == now)
    ensures w.timer ==> r.timer.Some? && r.timer.value.activeTimer == data.activeTimer
    ensures !w.projects ==> r.projects == files.projects
    ensures !w.entries ==> r.entries == files.entries
    ensures !w.timer ==> r.timer == files.timer
  {
    var p := ProjectsFile(data.version, now, data.projects, ChecksumOf(json.projects(data.projects)));
    var e := EntriesFile(data.version, now, data.timeEntries, ChecksumOf(json.entries(data.timeEntries)));
    var t := TimerFile(data.version, now, data.activeTimer, ChecksumOf(json.timer(data.activeTimer)));
    Files(
      if w.projects then Some(p) else files.projects,
      if w.entries then Some(e) else files.entries,
      if w.timer then Some(t) else files.timer)
  }

  /** Which local-storage writes of a save go through: the sync record, and the status record. */
  datatype SaveIo = SaveIo(storeWrite: bool, files: FileWrites, statusWrite: bool)

  /**
    `saveSyncData`: seal the current snapshot into local storage, write the
    files, write the status. The answer is true exactly when both
    local-storage writes went through: the file writes never decide it.
   */
  function SaveSyncData(b: Browser, now: Millis, json: Json, io: SaveIo): (r: (bool, Browser))
    ensures r.1.db == b.db
    ensures r.0 <==> io.storeWrite && io.statusWrite
    ensures !io.storeWrite ==> r.1 == b
    ensures io.storeWrite ==> (r.1.store.Some? && r.1.store.value.body == CurrentData(b.db)
      && r.1.store.value.timestamp == now && Intact(r.1.store.value, json))
  {
    if !io.storeWrite then (false, b)
    else
      var data := CurrentData(b.db);
      var stored := SyncData(data, now, Seal(data, json));
      (io.statusWrite, Browser(b.db, Some(stored), SaveToJsonFiles(b.files, data, now, json, io.files)))
  }

  /** Whatever the file writes did, a save answers the same and leaves the same sync record. */
  lemma SaveIgnoresFileWrites(b: Browser, now: Millis, json: Json, io: SaveIo, w: FileWrites)
    ensures SaveSyncData(b, now, json, io).0 == SaveSyncData(b, now, json, io.(files := w)).0
    ensures SaveSyncData(b, now, json, io).1.store == SaveSyncData(b, now, json, io.(files := w)).1.store
  {
  }

  /** A projects file's timestamp, 0 when the file is missing (`timestamp || 0`). */
  function ProjectsStamp(p: Option<ProjectsFile>): int
  {
    if p.Some? then p.value.timestamp else 0
  }

  /** An entries file's timestamp, 0 when the file is missing. */
  function EntriesStamp(e: Option<EntriesFile>): int
  {
    if e.Some? then e.value.timestamp else 0
  }

  /**
    `loadFromJsonFiles`: nothing when neither the projects file nor the
    entries file is there; otherwise a record assembled from the parts that
    are, with an empty checksum.
   */
  function LoadFromJsonFiles(f: Files): (r: Option<SyncData>)
    ensures r.None? <==> f.projects.None? && f.entries.None?
    ensures r.Some? ==> r.value.checksum == ""
    ensures r.Some? ==> r.value.body.version != ""
    ensures r.Some? && f.projects.Some? && f.projects.value.version != "" ==> r.value.body.version == f.projects.value.version
    ensures r.Some? && (f.projects.None? || f.projects.value.version == "") ==> r.value.body.version == SyncVersion
    ensures r.Some? ==> r.value.timestamp >= ProjectsStamp(f.projects) && r.value.timestamp >= EntriesStamp(f.entries)
    ensures r.Some? ==> r.value.timestamp == ProjectsStamp(f.projects) || r.value.timestamp == EntriesStamp(f.entries)
    ensures r.Some? && f.projects.Some? ==> (r.value.body.projects == f.projects.value.projects
      && r.value.timestamp >= f.projects.value.timestamp)
    ensures r.Some? && f.entries.Some? ==> (r.value.body.timeEntries == f.entries.value.timeEntries
      && r.value.timestamp >= f.entries.value.timestamp)
    ensures r.Some? && f.projects.None? ==> r.value.body.projects == []
    ensures r.Some? && f.entries.None? ==> r.value.body.timeEntries == []
    ensures r.Some? ==> r.value.body.activeTimer == if f.timer.Some? then f.timer.value.activeTimer else None
  {
    if f.projects.None? && f.entries.None? then None
    else
      var version := if f.projects.Some? && f.projects.value.version != "" then f.projects.value.version else SyncVersion;
      var projects := if f.projects.Some? then f.projects.value.projects else [];
      var entries := if f.entries.Some? then f.entries.value.timeEntries else [];
      var timer := if f.timer.Some? then f.timer.value.activeTimer else None;
      Some(SyncData(Snapshot(version, projects, entries, timer), Max(ProjectsStamp(f.projects), EntriesStamp(f.entries)), ""))
  }

  /** Files written by a full save read back as the saved snapshot, apart from the checksum. */
  lemma FilesRoundTrip(files: Files, data: Snapshot, now: Millis, json: Json)
    requires data.version != ""
    ensures LoadFromJsonFiles(SaveToJsonFiles(files, data, now, json, AllWrites)) == Some(SyncData(data, now, ""))
  {
  }

  datatype LoadOutcome = NoData | Corrupted | Synced(projectCount: nat, entryCount: nat) | LoadFailed

  /**
    The timer restore: the incoming timer is put only over no timer or an
    older one, and the put replaces the timer only when the incoming row's
    id is "active".
   */
  function RestoreTimer(local: Option<ActiveTimer>, incoming: Option<ActiveTimer>): (r: Option<ActiveTimer>)
    ensures r == local || r == incoming
    ensures incoming.None? ==> r == local
    ensures incoming.Some? && incoming.value.id != TimerId ==> r == local
    ensures r.Some? <==> local.Some? || (incoming.Some? && incoming.value.id == TimerId)
    ensures local.Some? ==> r.value.startTime >= local.value.startTime
    ensures r == incoming <==>
      (incoming.Some? && incoming.value.id == TimerId && (local.None? || incoming.value.startTime > local.value.startTime))
      || incoming == local
  {
    if incoming.Some? && (local.None? || incoming.value.startTime > local.value.startTime) then PutTimer(local, incoming.value)
    else local
  }

  /** Restoring the same timer twice is restoring it once. */
  lemma RestoreTimerIdempotent(local: Option<ActiveTimer>, incoming: Option<ActiveTimer>)
    ensures RestoreTimer(RestoreTimer(local, incoming), incoming) == RestoreTimer(local, incoming)
  {
  }

  /** Both local tables are empty. */
  predicate LocalEmpty(db: Tables)
  {
    |db.projects| == 0 && |db.entries| == 0
  }

  /** The merged tables when local data exists, before they are written back. */
  function MergedProjects(db: Tables, body: Snapshot): map<Id, Project>
  {
    MergeRows(db.projects, body.projects, ProjectKey, ProjectAge)
  }

  function MergedEntries(db: Tables, body: Snapshot): map<Id, TimeEntry>
  {
    MergeRows(db.entries, body.timeEntries, EntryKey, EntryAge)
  }

  /**
    The gate and merge of `loadSyncData`, once a record has been chosen: a
    checksum mismatch rejects the record and touches nothing; otherwise local
    data is merged by last-write-wins and written back (clear, then
    `bulkAdd`), or, with an empty database, the record's rows are added
    directly. A refused `bulkAdd` aborts the rest of the load.
   */
  function LoadRecord(db: Tables, data: SyncData, json: Json): (r: (LoadOutcome, Tables))
    ensures r.0 != NoData
    ensures r.0 == Corrupted <==> !Intact(data, json)
    ensures r.0 == Corrupted ==> r.1 == db
    ensures r.0.Synced? ==> r.0 == Synced(|data.body.projects|, |data.body.timeEntries|)
    ensures r.0.Synced? ==> r.1.timer == RestoreTimer(db.timer, data.body.activeTimer)
    ensures r.0 == LoadFailed ==> r.1.timer == db.timer
    ensures r.0.Synced? && !LocalEmpty(db) ==> (r.1.projects == BulkAdd(map[], Rows(MergedProjects(db, data.body)), ProjectKey).0
      && r.1.entries == BulkAdd(map[], Rows(MergedEntries(db, data.body)), EntryKey).0)
    ensures r.0.Synced? && LocalEmpty(db) ==> (r.1.projects == BulkAdd(db.projects, data.body.projects, ProjectKey).0
      && r.1.entries == BulkAdd(db.entries, data.body.timeEntries, EntryKey).0)
    ensures Intact(data, json) && LocalEmpty(db) ==>
      var (p, pFailed) := BulkAdd(db.projects, data.body.projects, ProjectKey);
      var (e, eFailed) := BulkAdd(db.entries, data.body.timeEntries, EntryKey);
      && (r.0.Synced? <==> !pFailed && !eFailed)
      && (pFailed ==> r == (LoadFailed, db.(projects := p)))
      && (!pFailed && eFailed ==> r == (LoadFailed, db.(projects := p, entries := e)))
    ensures Intact(data, json) && !LocalEmpty(db) ==>
      var (p, pFailed) := BulkAdd(map[], Rows(MergedProjects(db, data.body)), ProjectKey);
      var (e, eFailed) := BulkAdd(map[], Rows(MergedEntries(db, data.body)), EntryKey);
      && (r.0.Synced? <==> !pFailed && !eFailed)
      && (pFailed ==> r == (LoadFailed, db.(projects := p)))
      && (!pFailed && eFailed ==> r == (LoadFailed, db.(projects := p, entries := e)))
  {
    if !Intact(data, json) then (Corrupted, db)
    else
      var body := data.body;
      var done := Synced(|body.projects|, |body.timeEntries|);
      var (p, pFailed) :=
        if LocalEmpty(db) then BulkAdd(db.projects, body.projects, ProjectKey)
        else BulkAdd(map[], Rows(MergedProjects(db, body)), ProjectKey);
      if pFailed then (LoadFailed, db.(projects := p))
      else
        var (e, eFailed) :=
          if LocalEmpty(db) then BulkAdd(db.entries, body.timeEntries, EntryKey)
          else BulkAdd(map[], Rows(MergedEntries(db, body)), EntryKey);
        if eFailed then (LoadFailed, db.(projects := p, entries := e))
        else (done, Tables(p, e, RestoreTimer(db.timer, body.activeTimer)))
  }

  /** Writing a table keyed by its rows' ids back into an emptied table reproduces it, without a refusal. */
  lemma RebuildExact<V>(m: map<Id, V>, id: V -> Id)
    requires KeyedById(m, id)
    ensures BulkAdd(map[], Rows(m), id) == (m, false)
  {
    var rows := Rows(m);
    RowsDistinctKeys(m, id);
    forall i | 0 <= i < |rows| ensures id(rows[i]) in m && m[id(rows[i])] == rows[i] {
      RowsMember(m, rows[i]);
    }
    forall k | k in m ensures Mentions(rows, id, k) {
    }
    BulkAddDistinctRows(m, rows, id);
  }

  /** With local data, a load writes back exactly the merged tables. */
  lemma LoadWritesMerge(db: Tables, data: SyncData, json: Json)
    requires RowsKeyed(db)
    requires !LocalEmpty(db)
    requires Intact(data, json)
    ensures LoadRecord(db, data, json).0.Synced?
    ensures LoadRecord(db, data, json).1 ==
      Tables(MergedProjects(db, data.body), MergedEntries(db, data.body), RestoreTimer(db.timer, data.body.activeTimer))
  {
    MergeKeepsKeys(db.projects, data.body.projects, ProjectKey, ProjectAge);
    MergeKeepsKeys(db.entries, data.body.timeEntries, EntryKey, EntryAge);
    RebuildExact(MergedProjects(db, data.body), ProjectKey);
    RebuildExact(MergedEntries(db, data.body), EntryKey);
  }

  /** Loading the same record twice leaves the database as loading it once. */
  lemma LoadIdempotent(db: Tables, data: SyncData, json: Json)
    requires RowsKeyed(db)
    requires !LocalEmpty(db)
    requires Intact(data, json)
    ensures LoadRecord(LoadRecord(db, data, json).1, data, json) == LoadRecord(db, data, json)
  {
    var body := data.body;
    LoadWritesMerge(db, data, json);
    var db1 := LoadRecord(db, data, json).1;
    MergeKeepsKeys(db.projects, body.projects, ProjectKey, ProjectAge);
    MergeKeepsKeys(db.entries, body.timeEntries, EntryKey, EntryAge);
    assert !LocalEmpty(db1) by {
      if |db.projects| > 0 {
        var k :| k in db.projects;
        assert k in db1.projects;
      } else {
        var k :| k in db.entries;
        assert k in db1.entries;
      }
    }
    LoadWritesMerge(db1, data, json);
    MergeIdempotent(db.projects, body.projects, ProjectKey, ProjectAge);
    MergeIdempotent(db.entries, body.timeEntries, EntryKey, EntryAge);
    RestoreTimerIdempotent(db.timer, body.activeTimer);
  }

  /** Every row of a table keyed by id is its own newest version. */
  lemma OwnRowsNothingNewer<V>(m: map<Id, V>, id: V -> Id, key: V -> int)
    requires KeyedById(m, id)
    ensures MergeRows(m, Rows(m), id, key) == m
  {
    var rows := Rows(m);
    forall i | 0 <= i < |rows| ensures id(rows[i]) in m && key(m[id(rows[i])]) >= key(rows[i]) {
      var k :| k in m && rows[i] == m[k];
    }
    MergeNothingNewer(m, rows, id, key);
  }

  /** Loading a record of the database's own current contents changes nothing. */
  lemma LoadOwnSnapshot(db: Tables, now: Millis, json: Json)
    requires RowsKeyed(db)
    ensures var data := CurrentData(db);
      LoadRecord(db, SyncData(data, now, Seal(data, json)), json) == (Synced(|db.projects|, |db.entries|), db)
  {
    var data := CurrentData(db);
    var d := SyncData(data, now, Seal(data, json));
    if LocalEmpty(db) {
      assert db.projects == map[] && db.entries == map[];
      assert Rows(db.projects) == [] && Rows(db.entries) == [];
    } else {
      OwnRowsNothingNewer(db.projects, ProjectKey, ProjectAge);
      OwnRowsNothingNewer(db.entries, EntryKey, EntryAge);
      LoadWritesMerge(db, d, json);
    }
  }

  /** The record `loadSyncData` checks: the file snapshot whenever there is one, else the stored record. */
  function LoadSource(b: Browser): (r: Option<SyncData>)
    ensures b.files.projects.Some? || b.files.entries.Some? ==> r == LoadFromJsonFiles(b.files)
    ensures b.files.projects.None? && b.files.entries.None? ==> r == b.store
  {
    var fromFiles := LoadFromJsonFiles(b.files);
    if fromFiles.Some? then fromFiles else b.store
  }

  /** `loadSyncData` as written. */
  function LoadSyncData(b: Browser, json: Json): (r: (LoadOutcome, Tables))
    ensures r.0 == NoData <==> LoadSource(b).None?
    ensures r.0 == NoData || r.0 == Corrupted ==> r.1 == b.db
  {
    match LoadSource(b)
    case None => (NoData, b.db)
    case Some(d) => LoadRecord(b.db, d, json)
  }

  /**
    Whenever the projects file or the entries file is present, the load
    reports corrupted data: the assembled record's checksum is empty and a
    computed checksum never is. The stored record is never consulted.
   */
  lemma FileSnapshotAlwaysRejected(b: Browser, json: Json)
    requires b.files.projects.Some? || b.files.entries.Some?
    ensures LoadSyncData(b, json) == (Corrupted, b.db)
  {
    var d := LoadFromJsonFiles(b.files).value;
    assert Seal(d.body, json) != d.checksum;
  }

  /**
    A save whose projects file write goes through leaves an intact record in
    local storage, and yet the next load rejects the data as corrupted.
   */
  lemma SaveThenLoadRejected(b: Browser, now: Millis, json: Json, io: SaveIo)
    requires io.storeWrite && io.files.projects
    ensures var b' := SaveSyncData(b, now, json, io).1;
      b'.store.Some? && Intact(b'.store.value, json) && LoadSyncData(b', json) == (Corrupted, b.db)
  {
    FileSnapshotAlwaysRejected(SaveSyncData(b, now, json, io).1, json);
  }

  /** With no file present, a save followed by a load brings back the same database. */
  lemma SaveThenLoadFromStore(b: Browser, now: Millis, json: Json, io: SaveIo)
    requires RowsKeyed(b.db)
    requires b.files.projects.None? && b.files.entries.None?
    requires io.storeWrite && !io.files.projects && !io.files.entries
    ensures LoadSyncData(SaveSyncData(b, now, json, io).1, json) == (Synced(|b.db.projects|, |b.db.entries|), b.db)
  {
    LoadOwnSnapshot(b.db, now, json);
  }

  /** The record the loader evidently meant to check: the file snapshot with its checksum recomputed. */
  function LoadSourceCorrected(b: Browser, json: Json): (r: Option<SyncData>)
    ensures r.None? <==> LoadSource(b).None?
    ensures r.Some? ==> Intact(r.value, json) || r == b.store
  {
    match LoadFromJsonFiles(b.files)
    case Some(d) => Some(d.(checksum := Seal(d.body, json)))
    case None => b.store
  }

  /** `loadSyncData` with the file snapshot's checksum recomputed. */
  function LoadSyncDataCorrected(b: Browser, json: Json): (r: (LoadOutcome, Tables))
    ensures r.0 == NoData <==> LoadSource(b).None?
    ensures b.files.projects.Some? || b.files.entries.Some? ==> r.0 != Corrupted
  {
    match LoadSourceCorrected(b, json)
    case None => (NoData, b.db)
    case Some(d) => LoadRecord(b.db, d, json)
  }

  /** With the correction, a full save followed by a load brings back the same database from the files. */
  lemma SaveThenLoadCorrected(b: Browser, now: Millis, json: Json, io: SaveIo)
    requires RowsKeyed(b.db)
    requires io.storeWrite && io.files == AllWrites
    ensures LoadSyncDataCorrected(SaveSyncData(b, now, json, io).1, json) == (Synced(|b.db.projects|, |b.db.entries|), b.db)
  {
    var data := CurrentData(b.db);
    FilesRoundTrip(b.files, data, now, json);
    LoadOwnSnapshot(b.db, now, json);
  }

  /** An import file as parsed; a missing `projects` or `timeEntries` array is None. */
  datatype ImportFile = ImportFile(
    version: string,
    projects: Option<seq<Project>>,
    timeEntries: Option<seq<TimeEntry>>,
    activeTimer: Option<ActiveTimer>,
    checksum: string)

  datatype ImportOutcome = Invalid | Imported(projectCount: nat, entryCount: nat) | ImportFailed

  /**
    `importFromFile`: a file that does not parse fails and one without both
    arrays is refused, each touching nothing. The checksum is computed but a
    mismatch only warns. Into a non-empty database the rows are upserted; into
    an empty one they are added, and a refused `bulkAdd` aborts. The file's
    timer is put whatever the local timer is (it replaces the local one when
    its id is "active"), and the result is saved to
    the sync store, whose own answer is ignored.
   */
  function ImportFromFile(b: Browser, file: Option<ImportFile>, now: Millis, json: Json, io: SaveIo): (r: (ImportOutcome, Browser))
    ensures file.None? ==> r == (ImportFailed, b)
    ensures file.Some? && (file.value.projects.None? || file.value.timeEntries.None?) ==> r == (Invalid, b)
    ensures r.0 == ImportFailed ==> r.1.db.timer == b.db.timer && r.1.store == b.store
    ensures r.0.Imported? ==> r.0 == Imported(|file.value.projects.value|, |file.value.timeEntries.value|)
    ensures r.0.Imported? ==>
      r.1.db.timer == if file.value.activeTimer.Some? && file.value.activeTimer.value.id == TimerId then file.value.activeTimer else b.db.timer
    ensures r.0.Imported? && !LocalEmpty(b.db) ==>
      r.1.db.projects == BulkPut(b.db.projects, file.value.projects.value, ProjectKey)
      && r.1.db.entries == BulkPut(b.db.entries, file.value.timeEntries.value, EntryKey)
    ensures !LocalEmpty(b.db) && file.Some? && file.value.projects.Some? && file.value.timeEntries.Some? ==> r.0.Imported?
    ensures LocalEmpty(b.db) && file.Some? && file.value.projects.Some? && file.value.timeEntries.Some? ==>
      var (p, pFailed) := BulkAdd(b.db.projects, file.value.projects.value, ProjectKey);
      var (e, eFailed) := BulkAdd(b.db.entries, file.value.timeEntries.value, EntryKey);
      && (r.0.Imported? <==> !pFailed && !eFailed)
      && (pFailed ==> r == (ImportFailed, b.(db := b.db.(projects := p))))
      && (!pFailed && eFailed ==> r == (ImportFailed, b.(db := b.db.(projects := p, entries := e))))
      && (r.0.Imported? ==> r.1.db.projects == p && r.1.db.entries == e)
    ensures r.0.Imported? ==> r.1 == SaveSyncData(b.(db := r.1.db), now, json, io).1
  {
    if file.None? then (ImportFailed, b)
    else
      var f := file.value;
      if f.projects.None? || f.timeEntries.None? then (Invalid, b)
      else
        var ps := f.projects.value;
        var es := f.timeEntries.value;
        var db := b.db;
        var (p, pFailed) :=
          if LocalEmpty(db) then BulkAdd(db.projects, ps, ProjectKey) else (BulkPut(db.projects, ps, ProjectKey), false);
        if pFailed then (ImportFailed, b.(db := db.(projects := p)))
        else
          var (e, eFailed) :=
            if LocalEmpty(db) then BulkAdd(db.entries, es, EntryKey) else (BulkPut(db.entries, es, EntryKey), false);
          if eFailed then (ImportFailed, b.(db := db.(projects := p, entries := e)))
          else
            var timer := if f.activeTimer.Some? then PutTimer(db.timer, f.activeTimer.value) else db.timer;
            var saved := SaveSyncData(b.(db := Tables(p, e, timer)), now, json, io).1;
            (Imported(|ps|, |es|), saved)
  }

  /** The checksum field of an import file makes no difference to the import. */
  lemma ImportIgnoresChecksum(b: Browser, f: ImportFile, c: string, now: Millis, json: Json, io: SaveIo)
    ensures ImportFromFile(b, Some(f), now, json, io) == ImportFromFile(b, Some(f.(checksum := c)), now, json, io)
  {
  }

  /**
    Into a non-empty database, an imported row wins over the local row with
    its id whatever their timestamps (unlike a load), and local rows the file
    does not mention are kept.
   */
  lemma ImportOverwrites(b: Browser, f: ImportFile, now: Millis, json: Json, io: SaveIo, i: int)
    requires !LocalEmpty(b.db)
    requires f.projects.Some? && f.timeEntries.Some?
    requires 0 <= i < |f.projects.value| && LastWithId(f.projects.value, ProjectKey, i)
    ensures ImportFromFile(b, Some(f), now, json, io).1.db.projects[f.projects.value[i].id] == f.projects.value[i]
    ensures forall k :: k in b.db.projects && !Mentions(f.projects.value, ProjectKey, k) ==>
      ImportFromFile(b, Some(f), now, json, io).1.db.projects[k] == b.db.projects[k]
  {
  }

  /** The auto-sync state: whether the intervals are running, and the last hash seen by change detection. */
  datatype AutoSync = AutoSync(active: bool, lastHash: Option<string>)

  const AutoSyncOff: AutoSync := AutoSync(false, None)

  /** `startAutoSync`: a no-op while active; the last hash survives a stop and a restart. */
  function StartAutoSync(s: AutoSync): (r: AutoSync)
    ensures r.active
    ensures r.lastHash == s.lastHash
    ensures s.active ==> r == s
  {
    if s.active then s else s.(active := true)
  }

  /** `stopAutoSync`: clears the intervals and nothing else. */
  function StopAutoSync(s: AutoSync): (r: AutoSync)
    ensures !r.active
    ensures r.lastHash == s.lastHash
  {
    s.(active := false)
  }

  lemma StartStopIdempotent(s: AutoSync)
    ensures StartAutoSync(StartAutoSync(s)) == StartAutoSync(s)
    ensures StopAutoSync(StopAutoSync(s)) == StopAutoSync(s)
  {
  }

  /** The change rule: save exactly when a (non-empty) previous hash exists and differs; always remember the new hash. */
  function ChangeRule(last: Option<string>, current: string): (r: (bool, Option<string>))
    ensures r.1 == Some(current)
    ensures last.None? ==> !r.0
    ensures last == Some(current) ==> !r.0
    ensures last.Some? && last.value != "" && last.value != current ==> r.0
  {
    (last.Some? && last.value != "" && current != last.value, Some(current))
  }

  /** One tick of change detection: hash the current data, save if it changed. */
  function DetectChanges(s: AutoSync, b: Browser, now: Millis, json: Json, io: SaveIo): (r: (AutoSync, Browser))
    ensures r.0.active == s.active
    ensures r.0.lastHash == Some(Seal(CurrentData(b.db), json))
    ensures r.1.db == b.db
    ensures s.lastHash.None? ==> r.1 == b
    ensures s.lastHash.Some? && s.lastHash.value != "" && s.lastHash.value != Seal(CurrentData(b.db), json) ==>
      r.1 == SaveSyncData(b, now, json, io).1
  {
    var current := Seal(CurrentData(b.db), json);
    var rule := ChangeRule(s.lastHash, current);
    (s.(lastHash := rule.1), if rule.0 then SaveSyncData(b, now, json, io).1 else b)
  }

  /** The first tick only records the hash, and a second tick over the same data saves nothing. */
  lemma SteadyDataNeverSaves(s: AutoSync, b: Browser, now: Millis, now': Millis, json: Json, io: SaveIo, io': SaveIo)
    ensures var (s1, b1) := DetectChanges(s, b, now, json, io);
      DetectChanges(s1, b1, now', json, io') == (s1, b1)
  {
  }
}
