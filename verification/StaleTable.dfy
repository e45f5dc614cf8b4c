/** A synchronous table that is used beside an async writer, or behind one without being re-opened:
    what the next commit of either does, and exactly when that is safe. */
module StaleTable {
  import opened Common
  import opened Columns
  import opened Store
  import opened Versions
  import opened VersionManager
  import opened ManifestStore
  import opened Fragments
  import opened Batches
  import opened TableState
  import opened Table
  import opened TableInvariant
  import opened AsyncWriter
  import opened AsyncInvariant
  import opened TableRuns
  import M = MiniBlock

  // ---------- One insert, whatever the counters ----------

  lemma NewestOf(files: Files, v: int)
    requires v in VersionsOf(files) && forall w <- VersionsOf(files) :: w <= v
    ensures Newest(VersionsOf(files)) == v
  {
    assert Newest(VersionsOf(files)) in VersionsOf(files);
  }

  /** Versions stay what they are, except that v comes into being or changes. */
  lemma OneMoreVersion(before: Files, after: Files, paths: set<Path>, v: int, m: Manifest)
    requires ChangedOnly(before, after, paths + {ManifestPath(v)}) && ReadManifest(after, v) == Some(m)
    requires forall p <- paths :: p.DataPath?
    ensures VersionsOf(after) == VersionsOf(before) + {v}
    ensures forall w <- VersionsOf(before) :: w != v ==> ReadManifest(after, w) == ReadManifest(before, w)
  {
    forall w ensures w in VersionsOf(after) <==> w in VersionsOf(before) + {v} {
      if w != v {
        assert ManifestPath(w) !in paths + {ManifestPath(v)};
      }
    }
    forall w | w in VersionsOf(before) && w != v ensures ReadManifest(after, w) == ReadManifest(before, w) {
      assert ManifestPath(w) !in paths + {ManifestPath(v)};
    }
  }

  lemma LatestOnDisk(files: Files, e: M.Encoder, log: seq<LogEntry>, nextVersion: int, nextFragmentId: int)
    requires DiskInv(files, e, log, nextVersion, nextFragmentId)
    ensures VersionsOf(files) != {}
    ensures LatestManifest(files).Some? && LatestManifest(files) == ReadManifest(files, Newest(VersionsOf(files)))
  {
    hide FragmentsGrow, FragmentsAreLog;
  }

  /** The newest manifest after a committed insert of any table, stale or not: its own, unless a
      newer version is on disk. So the insert adds its fragment to the table and drops nothing
      exactly if its version is not below the newest and its cached fragments are the newest. */
  lemma InsertOutcomeExact(
    e: M.Encoder, files: Files, log: seq<LogEntry>, v: int, f: int, mem: Memory,
    batch: RecordBatch, g: Fragment, after: Files, mem': Memory)
    requires DiskInv(files, e, log, v, f)
    requires InsertEffect(e, files, mem, batch, InsertOutcome.Committed(g), after, mem')
    ensures VersionsOf(files) != {} && LatestManifest(files).Some? && LatestManifest(after).Some?
    ensures CachedLatest(mem.cache).Some?
    ensures LatestManifest(after).value ==
            if mem.nextVersion >= Newest(VersionsOf(files)) then InsertManifest(mem, CachedLatest(mem.cache).value, g)
            else LatestManifest(files).value
    ensures LatestManifest(after).value.schema ==
            if mem.nextVersion >= Newest(VersionsOf(files)) then mem.schema else LatestManifest(files).value.schema
    ensures LatestManifest(after).value.fragments == LatestManifest(files).value.fragments + [g] <==>
            mem.nextVersion >= Newest(VersionsOf(files)) &&
            CachedLatest(mem.cache).value.fragments == LatestManifest(files).value.fragments
  {
    hide IsFragmentOf, ColumnsStored, ChangedOnly, DiskInv, AfterPublish;
    LatestOnDisk(files, e, log, v, f);
    var m := InsertManifest(mem, CachedLatest(mem.cache).value, g);
    OneMoreVersion(files, after, PathsOf(mem.nextFragmentId, batch.columns.Keys), mem.nextVersion, m);
    var newest := Newest(VersionsOf(files));
    NewestOf(after, if mem.nextVersion >= newest then mem.nextVersion else newest);
    var current, cached := LatestManifest(files).value.fragments, CachedLatest(mem.cache).value.fragments;
    if cached + [g] == current + [g] {
      assert cached == (cached + [g])[..|cached|] == (current + [g])[..|current|] == current;
    }
  }

  // ---------- What a commit overwrites ----------

  /** Some manifest on disk refers to this file. */
  ghost predicate Referred(files: Files, p: Path) {
    exists v :: v in VersionsOf(files) && ReadManifest(files, v).Some? && Refers(ReadManifest(files, v).value, p)
  }

  /** Of the files that the columns of a batch are written to under this fragment ID, those that a
      manifest refers to already hold just that. */
  ghost predicate NothingReplaced(files: Files, e: M.Encoder, s: Schema, id: int, columns: map<int, Column>) {
    forall c <- columns.Keys :: Referred(files, DataPath(id, c)) ==>
      && StoredForm(e, s, c, columns[c]).Success? && DataPath(id, c) in files
      && files[DataPath(id, c)] == DataContent(StoredForm(e, s, c, columns[c]).value.bytes)
  }

  /** Writing a fragment and a manifest leaves every snapshot as it is exactly if the version was
      not on disk, or held that manifest, and no referred data file gets other contents. */
  lemma CommitFreezesExactly(
    e: M.Encoder, files: Files, log: seq<LogEntry>, v: int, f: int, after: Files,
    s: Schema, id: int, columns: map<int, Column>, m: Manifest)
    requires DiskInv(files, e, log, v, f)
    requires ChangedOnly(files, after, PathsOf(id, columns.Keys) + {ManifestPath(m.version)})
    requires ColumnsStored(after, e, s, id, columns) && ReadManifest(after, m.version) == Some(m)
    ensures Frozen(files, after) <==>
            (m.version in VersionsOf(files) ==> ReadManifest(files, m.version) == Some(m)) &&
            NothingReplaced(files, e, s, id, columns)
  {
    hide StoredForm, FragmentsAreLog, FragmentsGrow;
    var paths := PathsOf(id, columns.Keys) + {ManifestPath(m.version)};
    if Frozen(files, after) {
      forall c | c in columns.Keys && Referred(files, DataPath(id, c))
        ensures DataPath(id, c) in files
        ensures files[DataPath(id, c)] == DataContent(StoredForm(e, s, c, columns[c]).value.bytes)
      {
        var w :| w in VersionsOf(files) && ReadManifest(files, w).Some? &&
          Refers(ReadManifest(files, w).value, DataPath(id, c));
      }
    }
    if (m.version in VersionsOf(files) ==> ReadManifest(files, m.version) == Some(m)) &&
       NothingReplaced(files, e, s, id, columns) {
      forall w | w in VersionsOf(files) && ReadManifest(files, w).Some?
        ensures ReadManifest(after, w) == ReadManifest(files, w)
        ensures forall p :: Refers(ReadManifest(files, w).value, p) ==> p in files && p in after && after[p] == files[p]
      {
        if w != m.version {
          assert ManifestPath(w) !in paths;
        }
        forall p | Refers(ReadManifest(files, w).value, p) ensures p in files && p in after && after[p] == files[p] {
          ReferredPaths(files, e, log, v, f, w, p);
          assert Referred(files, p);
          if p in PathsOf(id, columns.Keys) {
            assert p == DataPath(id, p.columnId) && p.columnId in columns.Keys;
          } else {
            assert p !in paths;
          }
        }
      }
    }
  }

  /** No fragment of the newest manifest has this ID. */
  ghost predicate UnusedId(files: Files, id: int) {
    LatestManifest(files).Some? && forall f <- LatestManifest(files).value.fragments :: f.id != id
  }

  /** Under an unused fragment ID nothing is replaced. */
  lemma UnusedReplacesNothing(
    files: Files, e: M.Encoder, log: seq<LogEntry>, v: int, f: int, s: Schema, id: int, columns: map<int, Column>)
    requires DiskInv(files, e, log, v, f) && UnusedId(files, id)
    ensures NothingReplaced(files, e, s, id, columns)
  {
    hide ColumnsStored, StoredForm, IsMaxRows;
    forall c | c in columns.Keys ensures !Referred(files, DataPath(id, c)) {
      if Referred(files, DataPath(id, c)) {
        var w :| w in VersionsOf(files) && ReadManifest(files, w).Some? &&
          Refers(ReadManifest(files, w).value, DataPath(id, c));
        UnusedIsUnreferred(files, e, log, v, f, id, w, DataPath(id, c));
      }
    }
  }

  lemma UnusedIsUnreferred(
    files: Files, e: M.Encoder, log: seq<LogEntry>, v: int, f: int, id: int, version: int, p: Path)
    requires DiskInv(files, e, log, v, f) && UnusedId(files, id)
    requires version in VersionsOf(files) && Refers(ReadManifest(files, version).value, p)
    ensures p.DataPath? && p.fragmentId != id
  {
    hide ColumnsStored, StoredForm, IsMaxRows;
    var m, latest := ReadManifest(files, version).value, ReadManifest(files, Newest(VersionsOf(files))).value;
    var i, j :| 0 <= i < |m.fragments| && 0 <= j < |m.fragments[i].dataFiles| && m.fragments[i].dataFiles[j].path == p;
    assert m.fragments <= latest.fragments;
    assert m.fragments[i] == latest.fragments[i];
    StoredFile(files, e, log[i].schema, latest.fragments[i], log[i].batch, j);
  }

  /** Under an unused fragment ID, a committed insert leaves every snapshot as it is exactly if
      its version was not on disk. */
  lemma InsertFreezesExactly(
    e: M.Encoder, files: Files, log: seq<LogEntry>, v: int, f: int, mem: Memory,
    batch: RecordBatch, g: Fragment, after: Files, mem': Memory)
    requires DiskInv(files, e, log, v, f) && UnusedId(files, mem.nextFragmentId)
    requires InsertEffect(e, files, mem, batch, InsertOutcome.Committed(g), after, mem')
    ensures Frozen(files, after) <==> mem.nextVersion !in VersionsOf(files)
  {
    hide IsFragmentOf, ColumnsStored, AfterPublish, ChangedOnly, Frozen, NothingReplaced, DiskInv;
    var m := InsertManifest(mem, CachedLatest(mem.cache).value, g);
    CommitFreezesExactly(e, files, log, v, f, after, mem.schema, mem.nextFragmentId, batch.columns, m);
    UnusedReplacesNothing(files, e, log, v, f, mem.schema, mem.nextFragmentId, batch.columns);
    if mem.nextVersion in VersionsOf(files) {
      HasNewFragment(files, e, log, v, f, mem.nextVersion, m, g);
    }
  }

  lemma HasNewFragment(
    files: Files, e: M.Encoder, log: seq<LogEntry>, v: int, f: int, version: int, m: Manifest, g: Fragment)
    requires DiskInv(files, e, log, v, f) && UnusedId(files, g.id) && version in VersionsOf(files)
    requires m.fragments != [] && m.fragments[|m.fragments| - 1] == g
    ensures ReadManifest(files, version) != Some(m)
  {
    hide FragmentsAreLog;
    var was, latest := ReadManifest(files, version).value, LatestManifest(files).value;
    assert was.fragments <= latest.fragments;
    assert g !in was.fragments;
  }

  // ---------- Runs ----------

  /** What a table in memory knows, however far the disk has gone on: its latest version is still
      there, its counters lie above that, and every later version has more fragments. */
  ghost predicate Behind(files: Files, mem: Memory) {
    && CachedLatest(mem.cache).Some?
    && ReadManifest(files, mem.cache.latest) == CachedLatest(mem.cache)
    && mem.nextVersion > mem.cache.latest
    && (forall f <- CachedLatest(mem.cache).value.fragments :: f.id < mem.nextFragmentId)
    && forall v <- VersionsOf(files) :: v > mem.cache.latest ==>
         ReadManifest(files, v).Some? &&
         |ReadManifest(files, v).value.fragments| > |CachedLatest(mem.cache).value.fragments|
  }

  lemma SyncIsBehind(e: M.Encoder, files: Files, log: seq<LogEntry>, mem: Memory)
    requires SyncInv(files, e, log, mem)
    ensures Behind(files, mem)
  {
    hide FragmentsGrow, IsFragmentOf, ColumnsStored;
    CachedLatestIsNewest(files, e, log, mem);
    NextVersionPositive(files, e, log, mem.nextVersion, mem.nextFragmentId);
  }

  /** A flush commits more fragments than any version before it. */
  lemma FlushIsBehind(
    e: M.Encoder, before: Files, log: seq<LogEntry>, w: WriterMem, o: FlushOutcome, after: Files, w': WriterMem,
    mem: Memory)
    requires DiskInv(before, e, log, w.nextVersion, w.fragmentId) && Behind(before, mem)
    requires FlushEffect(e, before, w, o, after, w')
    ensures Behind(after, mem)
  {
    hide IsFragmentOf, ColumnsStored, ChangedOnly, FragmentsAreLog;
    if o.Flushed? {
      var data := PathsOf(w.fragmentId, w.current.value.columns.Keys);
      OneMoreVersion(before, after, data, w.nextVersion, o.manifest);
      assert mem.cache.latest in VersionsOf(before);
      var latest := ReadManifest(before, Newest(VersionsOf(before))).value;
      assert CachedLatest(mem.cache).value.fragments <= latest.fragments;
      forall v | v in VersionsOf(after) && v > mem.cache.latest
        ensures ReadManifest(after, v).Some? &&
                |ReadManifest(after, v).value.fragments| > |CachedLatest(mem.cache).value.fragments|
      {
        if v != w.nextVersion {
          assert v in VersionsOf(before);
        }
      }
    } else if !o.NothingToFlush? {
      SameManifests(before, after, PathsOf(w.fragmentId, w.current.value.columns.Keys));
    }
  }

  lemma AsyncIsBehind(e: M.Encoder, s: System, a: Event, s': System)
    requires Inv(e, s) && Next(e, s, Async(a), s') && Behind(s.files, s.mem)
    ensures Behind(s'.files, s'.mem)
  {
    hide DiskInv, CacheInv, WriterInv, FlushEffect, OneShape, Accumulates, Accumulated, Behind;
    var w := s.writer.value;
    match a {
      case Take(o, after, mem) =>
        if LargeEnough(AfterTake(w).mem) {
          FlushIsBehind(e, s.files, s.log, AfterTake(w).mem, o, after, mem, s.mem);
        }
      case DrainDone(o, after, mem) => FlushIsBehind(e, s.files, s.log, w.mem, o, after, mem, s.mem);
      case Timer(o, after, mem) => FlushIsBehind(e, s.files, s.log, w.mem, o, after, mem, s.mem);
      case _ =>
    }
  }

  lemma {:induction false} RunIsBehind(
    e: M.Encoder, initial: Files, states: seq<System>, events: seq<SystemEvent>, i: nat)
    requires IsRun(e, initial, states, events) && i < |states|
    ensures Behind(states[i].files, states[i].mem)
  {
    hide SyncInv, DiskInv, CacheInv, WriterInv, Behind, CreateEffect, InsertCall, AddColumnCall, DropColumnCall,
      OpenEffect, Started, Enabled, FilesAfter, LogAfter, WriterAfter;
    RunKeepsInv(e, initial, states, events, i);
    if states[i].writer.None? {
      SyncIsBehind(e, states[i].files, states[i].log, states[i].mem);
    } else {
      assert i > 0;
      RunIsBehind(e, initial, states, events, i - 1);
      RunKeepsInv(e, initial, states, events, i - 1);
      assert Next(e, states[i - 1], events[i - 1], states[i - 1 + 1]);
      if events[i - 1].Async? {
        AsyncIsBehind(e, states[i - 1], events[i - 1].ev, states[i]);
      }
    }
  }

  /** A commit that adds its fragment, drops none and changes no snapshot. */
  ghost predicate SafeAppend(before: Files, after: Files, g: Fragment) {
    && LatestManifest(before).Some? && LatestManifest(after).Some?
    && LatestManifest(after).value.fragments == LatestManifest(before).value.fragments + [g]
    && Frozen(before, after)
  }

  lemma UpToDateIsSafe(
    e: M.Encoder, files: Files, log: seq<LogEntry>, v: int, f: int, mem: Memory,
    batch: RecordBatch, g: Fragment, after: Files, mem': Memory)
    requires DiskInv(files, e, log, v, f) && Behind(files, mem) && mem.cache.latest == Newest(VersionsOf(files))
    requires InsertEffect(e, files, mem, batch, InsertOutcome.Committed(g), after, mem')
    ensures SafeAppend(files, after, g)
  {
    hide DiskInv, InsertEffect, Frozen;
    LatestOnDisk(files, e, log, v, f);
    InsertOutcomeExact(e, files, log, v, f, mem, batch, g, after, mem');
    InsertFreezesExactly(e, files, log, v, f, mem, batch, g, after, mem');
  }

  /** In any state of any run, behind an async writer or not: an insert that commits now is safe, as
      a single step, exactly if the table's cached latest version is the newest on disk. */
  lemma InsertSafeExactly(
    e: M.Encoder, initial: Files, states: seq<System>, events: seq<SystemEvent>, i: nat,
    batch: RecordBatch, g: Fragment, after: Files, mem': Memory)
    requires IsRun(e, initial, states, events) && i < |states|
    requires InsertEffect(e, states[i].files, states[i].mem, batch, InsertOutcome.Committed(g), after, mem')
    ensures VersionsOf(states[i].files) != {}
    ensures SafeAppend(states[i].files, after, g) <==>
            states[i].mem.cache.latest == Newest(VersionsOf(states[i].files))
  {
    hide DiskInv, InsertEffect, Frozen, IsRun;
    var s := states[i];
    RunKeepsInv(e, initial, states, events, i);
    RunIsBehind(e, initial, states, events, i);
    var v, f := DiskOf(e, s);
    LatestOnDisk(s.files, e, s.log, v, f);
    if s.mem.cache.latest == Newest(VersionsOf(s.files)) {
      UpToDateIsSafe(e, s.files, s.log, v, f, s.mem, batch, g, after, mem');
    } else {
      InsertOutcomeExact(e, s.files, s.log, v, f, s.mem, batch, g, after, mem');
      assert s.mem.cache.latest in VersionsOf(s.files);
    }
  }

  // ---------- A flush, whatever came before it ----------

  /** The newest manifest after a committed flush: its own, unless a newer version is on disk. It
      has the schema that the writer was started with, whatever the table changed since. The flush
      is safe exactly if its version is above the newest and no referred file gets other contents. */
  lemma FlushSafeExactly(
    e: M.Encoder, files: Files, log: seq<LogEntry>, v: int, f: int, w: WriterMem,
    g: Fragment, m: Manifest, after: Files, w': WriterMem)
    requires DiskInv(files, e, log, v, f) && FlushEffect(e, files, w, Flushed(g, m), after, w')
    ensures w.current.Some? && VersionsOf(files) != {} && LatestManifest(files).Some?
    ensures LatestManifest(after) ==
            if w.nextVersion >= Newest(VersionsOf(files)) then Some(m) else LatestManifest(files)
    ensures m.schema == w.schema && m.version == w.nextVersion
    ensures SafeAppend(files, after, g) <==>
            w.nextVersion > Newest(VersionsOf(files)) &&
            NothingReplaced(files, e, w.schema, w.fragmentId, w.current.value.columns)
  {
    hide IsFragmentOf, ColumnsStored, ChangedOnly, DiskInv, NothingReplaced, Frozen;
    LatestOnDisk(files, e, log, v, f);
    var newest := Newest(VersionsOf(files));
    var columns := w.current.value.columns;
    OneMoreVersion(files, after, PathsOf(w.fragmentId, columns.Keys), w.nextVersion, m);
    NewestOf(after, if w.nextVersion >= newest then w.nextVersion else newest);
    CommitFreezesExactly(e, files, log, v, f, after, w.schema, w.fragmentId, columns, m);
    assert |m.fragments| == |LatestManifest(files).value.fragments| + 1;
  }

  // ---------- A schema change, whatever came before it ----------

  /** The manifest a schema change commits. */
  function ChangeManifest(mem: Memory, schema: Schema, latest: Manifest): Manifest {
    Manifest(mem.nextVersion, schema, latest.fragments, latest.maxFragmentId)
  }

  /** A commit of a schema that becomes the newest version, over all fragments, and changes no
      snapshot. */
  ghost predicate SafeChange(before: Files, after: Files, m: Manifest) {
    && LatestManifest(before).Some? && LatestManifest(after) == Some(m)
    && m.fragments == LatestManifest(before).value.fragments
    && Frozen(before, after)
  }

  lemma ChangeSafeExactly(
    e: M.Encoder, files: Files, log: seq<LogEntry>, v: int, f: int, mem: Memory,
    schema: Schema, after: Files, mem': Memory)
    requires DiskInv(files, e, log, v, f) && SchemaEffect(files, mem, schema, Changed, after, mem')
    ensures VersionsOf(files) != {} && LatestManifest(files).Some? && CachedLatest(mem.cache).Some?
    ensures var m := ChangeManifest(mem, schema, CachedLatest(mem.cache).value);
      SafeChange(files, after, m) <==>
        (mem.nextVersion > Newest(VersionsOf(files)) || LatestManifest(files) == Some(m)) &&
        m.fragments == LatestManifest(files).value.fragments
  {
    hide FragmentsAreLog, FragmentsGrow, AfterPublish, Frozen, NothingReplaced;
    LatestOnDisk(files, e, log, v, f);
    var newest := Newest(VersionsOf(files));
    var m := ChangeManifest(mem, schema, CachedLatest(mem.cache).value);
    ManifestOnly(files, after, e, m);
    OneMoreVersion(files, after, PathsOf(0, {}), m.version, m);
    NewestOf(after, if m.version >= newest then m.version else newest);
    CommitFreezesExactly(e, files, log, v, f, after, schema, 0, map[], m);
  }

  lemma ManifestOnly(files: Files, after: Files, e: M.Encoder, m: Manifest)
    requires after == files[ManifestPath(m.version) := ManifestContent(m)]
    ensures ChangedOnly(files, after, PathsOf(0, {}) + {ManifestPath(m.version)})
    ensures ReadManifest(after, m.version) == Some(m)
    ensures ColumnsStored(after, e, m.schema, 0, map[]) && NothingReplaced(files, e, m.schema, 0, map[])
  {
  }

  /** In any state of any run, behind an async writer or not: a schema change that commits now is
      safe, as a single step, exactly if the cached latest version is the newest on disk. */
  lemma ChangeSafeInRun(
    e: M.Encoder, initial: Files, states: seq<System>, events: seq<SystemEvent>, i: nat,
    schema: Schema, after: Files, mem': Memory)
    requires IsRun(e, initial, states, events) && i < |states|
    requires SchemaEffect(states[i].files, states[i].mem, schema, Changed, after, mem')
    ensures VersionsOf(states[i].files) != {} && CachedLatest(states[i].mem.cache).Some?
    ensures var m := ChangeManifest(states[i].mem, schema, CachedLatest(states[i].mem.cache).value);
      SafeChange(states[i].files, after, m) <==> states[i].mem.cache.latest == Newest(VersionsOf(states[i].files))
  {
    hide DiskInv, SchemaEffect, SafeChange, IsRun;
    var s := states[i];
    RunKeepsInv(e, initial, states, events, i);
    RunIsBehind(e, initial, states, events, i);
    var v, f := DiskOf(e, s);
    LatestOnDisk(s.files, e, s.log, v, f);
    ChangeSafeExactly(e, s.files, s.log, v, f, s.mem, schema, after, mem');
    assert s.mem.cache.latest in VersionsOf(s.files);
    LatestVersion(s.files, e, s.log, v, f);
  }

  lemma LatestVersion(files: Files, e: M.Encoder, log: seq<LogEntry>, v: int, f: int)
    requires DiskInv(files, e, log, v, f)
    ensures VersionsOf(files) != {} && LatestManifest(files).Some?
    ensures LatestManifest(files).value.version == Newest(VersionsOf(files))
  {
    hide FragmentsGrow, FragmentsAreLog;
  }

  // ---------- Table and writer side by side ----------

  /** A running writer's next version is the one after the newest on disk. */
  ghost predicate WriterIsNext(s: System) {
    s.writer.Some? ==> VersionsOf(s.files) != {} && s.writer.value.mem.nextVersion == Newest(VersionsOf(s.files)) + 1
  }

  lemma FlushIsNext(
    e: M.Encoder, before: Files, log: seq<LogEntry>, w: WriterMem, o: FlushOutcome, after: Files, w': WriterMem)
    requires DiskInv(before, e, log, w.nextVersion, w.fragmentId) && FlushEffect(e, before, w, o, after, w')
    requires VersionsOf(before) != {} && w.nextVersion == Newest(VersionsOf(before)) + 1
    ensures VersionsOf(after) != {} && w'.nextVersion == Newest(VersionsOf(after)) + 1
  {
    hide IsFragmentOf, ColumnsStored, ChangedOnly, DiskInv, NextManifest;
    if o.Flushed? {
      OneMoreVersion(before, after, PathsOf(w.fragmentId, w.current.value.columns.Keys), w.nextVersion, o.manifest);
      NewestOf(after, w.nextVersion);
    } else if !o.NothingToFlush? {
      SameManifests(before, after, PathsOf(w.fragmentId, w.current.value.columns.Keys));
    }
  }

  lemma AsyncIsNext(e: M.Encoder, s: System, a: Event, s': System)
    requires Inv(e, s) && Next(e, s, Async(a), s') && WriterIsNext(s)
    ensures WriterIsNext(s')
  {
    hide DiskInv, CacheInv, WriterInv, FlushEffect, OneShape, Accumulates, Accumulated;
    var w := s.writer.value;
    match a {
      case Take(o, after, mem) =>
        if LargeEnough(AfterTake(w).mem) {
          FlushIsNext(e, s.files, s.log, AfterTake(w).mem, o, after, mem);
        }
      case DrainDone(o, after, mem) => FlushIsNext(e, s.files, s.log, w.mem, o, after, mem);
      case Timer(o, after, mem) => FlushIsNext(e, s.files, s.log, w.mem, o, after, mem);
      case _ =>
    }
  }

  lemma {:induction false} RunIsNext(
    e: M.Encoder, initial: Files, states: seq<System>, events: seq<SystemEvent>, i: nat)
    requires IsRun(e, initial, states, events) && i < |states|
    ensures WriterIsNext(states[i])
  {
    hide SyncInv, CacheInv, WriterInv, CreateEffect, InsertCall, AddColumnCall, DropColumnCall, OpenEffect, Enabled,
      FilesAfter, LogAfter, WriterAfter, FragmentsAreLog, FragmentsGrow;
    if i > 0 {
      RunIsNext(e, initial, states, events, i - 1);
      RunKeepsInv(e, initial, states, events, i - 1);
      assert Next(e, states[i - 1], events[i - 1], states[i - 1 + 1]);
      if events[i - 1].Async? {
        AsyncIsNext(e, states[i - 1], events[i - 1].ev, states[i]);
      } else if events[i - 1].StartWriter? {
        var v, f := DiskOf(e, states[i - 1]);
      }
    }
  }

  /** After any commit of the table that became the newest version, the running writer's next
      committed flush is not safe: it rewrites that version, or stays below it and its fragment is
      in no newest manifest. */
  lemma FlushBelowNewest(
    e: M.Encoder, files: Files, log: seq<LogEntry>, v: int, f: int, w: WriterMem,
    g: Fragment, m: Manifest, after: Files, w': WriterMem)
    requires DiskInv(files, e, log, v, f) && FlushEffect(e, files, w, Flushed(g, m), after, w')
    requires VersionsOf(files) != {} && w.nextVersion <= Newest(VersionsOf(files))
    ensures !SafeAppend(files, after, g) && LatestManifest(files).Some?
    ensures if w.nextVersion == Newest(VersionsOf(files)) then !Frozen(files, after)
            else LatestManifest(after) == LatestManifest(files)
  {
    hide DiskInv, ColumnsStored, IsFragmentOf, ChangedOnly, Frozen, NothingReplaced;
    FlushSafeExactly(e, files, log, v, f, w, g, m, after, w');
    LatestOnDisk(files, e, log, v, f);
    assert |m.fragments| == |LatestManifest(files).value.fragments| + 1;
    CommitFreezesExactly(e, files, log, v, f, after, w.schema, w.fragmentId, w.current.value.columns, m);
  }

  lemma UpToDateIsSync(e: M.Encoder, files: Files, log: seq<LogEntry>, v: int, f: int, mem: Memory)
    requires DiskInv(files, e, log, v, f) && CacheInv(files, mem.cache) && Behind(files, mem)
    requires mem.cache.latest == Newest(VersionsOf(files))
    ensures SyncInv(files, e, log, mem)
  {
    hide FragmentsGrow, IsFragmentOf, ColumnsStored;
    var latest := ReadManifest(files, Newest(VersionsOf(files))).value;
    assert forall i :: 0 <= i < |latest.fragments| ==> latest.fragments[i] in latest.fragments;
  }

  /** While a writer runs, no insert through the table is safe together with the writer's next
      flush: if both commit, one of them drops a fragment or rewrites a version. */
  lemma NoInsertBesideWriter(
    e: M.Encoder, initial: Files, states: seq<System>, events: seq<SystemEvent>, i: nat,
    batch: RecordBatch, g: Fragment, after: Files, mem': Memory,
    w: WriterMem, f: Fragment, m: Manifest, later: Files, w': WriterMem)
    requires IsRun(e, initial, states, events) && i < |states| && states[i].writer.Some?
    requires InsertEffect(e, states[i].files, states[i].mem, batch, InsertOutcome.Committed(g), after, mem')
    requires w.nextVersion == states[i].writer.value.mem.nextVersion
    requires FlushEffect(e, after, w, Flushed(f, m), later, w')
    ensures !(SafeAppend(states[i].files, after, g) && SafeAppend(after, later, f))
  {
    hide DiskInv, CacheInv, InsertEffect, FlushEffect, SafeAppend, IsRun, WriterInv, Behind;
    var s := states[i];
    if SafeAppend(s.files, after, g) {
      InsertSafeExactly(e, initial, states, events, i, batch, g, after, mem');
      RunKeepsInv(e, initial, states, events, i);
      RunIsBehind(e, initial, states, events, i);
      RunIsNext(e, initial, states, events, i);
      var v, fid := DiskOf(e, s);
      UpToDateIsSync(e, s.files, s.log, v, fid, s.mem);
      InsertKeeps(e, s.files, s.log, s.mem, batch, InsertOutcome.Committed(g), after, mem');
      InsertOutcomeExact(e, s.files, s.log, v, fid, s.mem, batch, g, after, mem');
      NextVersionPositive(s.files, e, s.log, s.mem.nextVersion, s.mem.nextFragmentId);
      var entries := LogAfterInsert(s.log, s.mem, batch, InsertOutcome.Committed(g));
      LatestVersion(after, e, entries, mem'.nextVersion, mem'.nextFragmentId);
      FlushBelowNewest(e, after, entries, mem'.nextVersion, mem'.nextFragmentId, w, f, m, later, w');
    }
  }

  /** The same for AddColumn and DropColumn. */
  lemma NoSchemaChangeBesideWriter(
    e: M.Encoder, initial: Files, states: seq<System>, events: seq<SystemEvent>, i: nat,
    schema: Schema, after: Files, mem': Memory, w: WriterMem, f: Fragment, m: Manifest, later: Files, w': WriterMem)
    requires IsRun(e, initial, states, events) && i < |states| && states[i].writer.Some?
    requires SchemaEffect(states[i].files, states[i].mem, schema, Changed, after, mem')
    requires w.nextVersion == states[i].writer.value.mem.nextVersion
    requires FlushEffect(e, after, w, Flushed(f, m), later, w')
    ensures CachedLatest(states[i].mem.cache).Some?
    ensures var c := ChangeManifest(states[i].mem, schema, CachedLatest(states[i].mem.cache).value);
      !(SafeChange(states[i].files, after, c) && SafeAppend(after, later, f))
  {
    hide DiskInv, CacheInv, SchemaEffect, FlushEffect, SafeAppend, IsRun, WriterInv, Behind, Frozen;
    var s := states[i];
    ChangeSafeInRun(e, initial, states, events, i, schema, after, mem');
    var c := ChangeManifest(s.mem, schema, CachedLatest(s.mem.cache).value);
    if SafeChange(s.files, after, c) {
      RunKeepsInv(e, initial, states, events, i);
      RunIsBehind(e, initial, states, events, i);
      RunIsNext(e, initial, states, events, i);
      var v, fid := DiskOf(e, s);
      UpToDateIsSync(e, s.files, s.log, v, fid, s.mem);
      SchemaChangeKeeps(e, s.files, s.log, s.mem, schema, Changed, after, mem');
      NextVersionPositive(s.files, e, s.log, s.mem.nextVersion, s.mem.nextFragmentId);
      LatestVersion(after, e, s.log, mem'.nextVersion, mem'.nextFragmentId);
      FlushBelowNewest(e, after, s.log, mem'.nextVersion, mem'.nextFragmentId, w, f, m, later, w');
    }
  }
}
