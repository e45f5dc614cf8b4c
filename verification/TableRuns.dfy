/** Whole runs of a table: synchronous operations, restarts, and phases of an async writer,
    with writes failing anywhere. */
module TableRuns {
  import opened Common
  import opened Sequences
  import opened Columns
  import opened Store
  import opened Versions
  import opened ManifestStore
  import opened Fragments
  import opened Batches
  import opened TableState
  import opened Table
  import opened TableInvariant
  import opened AsyncWriter
  import opened AsyncInvariant
  import M = MiniBlock

  /** The disk, the batches committed so far, the table in memory, and its writer if one runs. */
  datatype System = System(files: Files, log: seq<LogEntry>, mem: Memory, writer: Option<Writer>)

  datatype SystemEvent =
    | InsertBatches(batches: seq<RecordBatch>, io: InsertOutcome, after: Files, mem: Memory)
    | AddField(field: Field, so: SchemaOutcome, after: Files, mem: Memory)
    | DropField(name: string, so: SchemaOutcome, after: Files, mem: Memory)
    | Reopen(mem: Memory)          // whatever was running is gone
    | StartWriter(w: Writer)
    | Async(ev: Event)

  /** One event; synchronous writes happen only while no async writer runs. */
  ghost predicate Next(e: M.Encoder, s: System, ev: SystemEvent, s': System) {
    match ev
    case InsertBatches(batches, o, after, mem) =>
      && s.writer.None? && InsertCall(e, s.files, s.mem, batches, o, after, mem)
      && s' == System(after, if o.Committed? && MergeSucceeds(batches)
                             then s.log + [LogEntry(s.mem.schema, Merged(batches))] else s.log, mem, None)
    case AddField(f, o, after, mem) =>
      s.writer.None? && AddColumnCall(s.files, s.mem, f, o, after, mem) && s' == System(after, s.log, mem, None)
    case DropField(name, o, after, mem) =>
      s.writer.None? && DropColumnCall(s.files, s.mem, name, o, after, mem) && s' == System(after, s.log, mem, None)
    case Reopen(mem) => OpenEffect(s.files, mem) && s' == System(s.files, s.log, mem, None)
    case StartWriter(w) => s.writer.None? && Started(w, s.files, s.log) && s' == s.(writer := Some(w))
    case Async(a) =>
      && s.writer.Some? && Enabled(e, s.files, s.writer.value, a)
      && s' == System(FilesAfter(s.files, a), LogAfter(s.log, s.writer.value, a), s.mem,
                      Some(WriterAfter(s.writer.value, a)))
  }

  ghost predicate Inv(e: M.Encoder, s: System) {
    match s.writer
    case None => SyncInv(s.files, e, s.log, s.mem)
    case Some(w) =>
      && DiskInv(s.files, e, s.log, w.mem.nextVersion, w.mem.fragmentId)
      && CacheInv(s.files, s.mem.cache)
      && WriterInv(w, s.log)
  }

  // ---------- Flushes on disk ----------

  lemma NewestOnDisk(files: Files, e: M.Encoder, log: seq<LogEntry>, w: WriterMem, f: Fragment, m: Manifest)
    requires DiskInv(files, e, log, w.nextVersion, w.fragmentId) && NextManifest(files, w, f) == Some(m)
    ensures VersionsOf(files) != {} && w.nextVersion >= 0
    ensures ReadManifest(files, Newest(VersionsOf(files))).Some?
    ensures m.fragments == ReadManifest(files, Newest(VersionsOf(files))).value.fragments + [f]
    ensures m.maxFragmentId >= f.id && m.version == w.nextVersion
  {
    hide FragmentsGrow, FragmentsAreLog;
    assert Newest(VersionsOf(files)) in VersionsOf(files);
  }

  /** A flush, whatever fails inside it, keeps the disk invariant and freezes what was there. */
  lemma FlushKeepsDisk(
    e: M.Encoder, before: Files, log: seq<LogEntry>, w: Writer, o: FlushOutcome, after: Files, mem: WriterMem)
    requires DiskInv(before, e, log, w.mem.nextVersion, w.mem.fragmentId)
    requires FlushEffect(e, before, w.mem, o, after, mem)
    ensures DiskInv(after, e, LogAfterFlush(w, log, o), mem.nextVersion, mem.fragmentId)
    ensures Frozen(before, after)
  {
    hide IsFragmentOf, ColumnsStored, ChangedOnly, FragmentsGrow, FragmentsAreLog, VersionsReadable, Frozen, DiskInv,
      NextManifest, ReadManifest;
    if o.NothingToFlush? {
      FrozenReflexive(before, e, log, w.mem.nextVersion, w.mem.fragmentId);
    } else if o.Flushed? {
      var batch := w.mem.current.value;
      NewestOnDisk(before, e, log, w.mem, o.fragment, o.manifest);
      ReadIsContent(after, w.mem.nextVersion, o.manifest);
      FragmentCommitKeepsDisk(before, after, e, log, w.mem.nextVersion, w.mem.fragmentId,
                              LogEntry(w.mem.schema, batch), o.fragment, o.manifest);
    } else {
      DataWriteKeepsDisk(before, after, e, log, w.mem.nextVersion, w.mem.fragmentId, w.mem.current.value.columns.Keys);
      CountersMayGrow(after, e, log, w.mem.nextVersion, w.mem.fragmentId, mem.nextVersion, mem.fragmentId);
    }
  }

  /** What a flush that failed leaves to the next one: the same version, under the same fragment ID if
      the data could not be written, and under the next one otherwise. */
  lemma FlushRetry(
    e: M.Encoder, before: Files, w: WriterMem, o: FlushOutcome, between: Files, w': WriterMem,
    f: Fragment, m: Manifest, after: Files, w'': WriterMem)
    requires FlushEffect(e, before, w, o, between, w') && !FlushOk(o)
    requires FlushEffect(e, between, w', Flushed(f, m), after, w'')
    ensures w'.current == w.current && w'.queue == w.queue && m.version == w.nextVersion
    ensures f.id == if o.FragmentFailed? then w.fragmentId else w.fragmentId + 1
    ensures w''.nextVersion == w.nextVersion + 1 && w''.fragmentId == f.id + 1 && w''.current == None
  {
    hide IsFragmentOf, ColumnsStored, ChangedOnly;
  }

  lemma ReadIsContent(files: Files, v: int, m: Manifest)
    requires ReadManifest(files, v) == Some(m)
    ensures ManifestPath(v) in files && files[ManifestPath(v)] == ManifestContent(m)
  {
  }

  // ---------- One event ----------

  lemma AsyncKeeps(e: M.Encoder, s: System, a: Event, s': System)
    requires Inv(e, s) && Next(e, s, Async(a), s')
    ensures Inv(e, s') && Frozen(s.files, s'.files)
  {
    hide DiskInv, CacheInv, WriterInv, FlushEffect, Frozen, OneShape, Accumulates, Accumulated;
    var w := s.writer.value;
    EventKeepsWriter(e, s.files, w, s.log, a);
    match a {
      case Take(o, after, mem) =>
        if LargeEnough(AfterTake(w).mem) {
          FlushKeepsDisk(e, s.files, s.log, AfterTake(w), o, after, mem);
        } else {
          FrozenReflexive(s.files, e, s.log, w.mem.nextVersion, w.mem.fragmentId);
        }
      case DrainDone(o, after, mem) => FlushKeepsDisk(e, s.files, s.log, w, o, after, mem);
      case Timer(o, after, mem) => FlushKeepsDisk(e, s.files, s.log, w, o, after, mem);
      case _ => FrozenReflexive(s.files, e, s.log, w.mem.nextVersion, w.mem.fragmentId);
    }
    CacheStays(s.files, s'.files, s.mem.cache);
  }

  /** A writer that starts on a valid table picks up unused numbers. */
  lemma StartKeepsDisk(e: M.Encoder, s: System, w: Writer)
    requires Inv(e, s) && s.writer.None? && Started(w, s.files, s.log)
    ensures DiskInv(s.files, e, s.log, w.mem.nextVersion, w.mem.fragmentId)
  {
    hide FragmentsGrow, IsFragmentOf, ColumnsStored;
    var latest := ReadManifest(s.files, Newest(VersionsOf(s.files))).value;
    assert latest.maxFragmentId + 1 == w.mem.fragmentId;
  }

  lemma DiskOf(e: M.Encoder, s: System) returns (v: int, f: int)
    requires Inv(e, s)
    ensures DiskInv(s.files, e, s.log, v, f) && CacheInv(s.files, s.mem.cache)
  {
    if s.writer.Some? {
      v, f := s.writer.value.mem.nextVersion, s.writer.value.mem.fragmentId;
    } else {
      v, f := s.mem.nextVersion, s.mem.nextFragmentId;
    }
  }

  /** Every event keeps the invariant and every snapshot on disk. */
  lemma EventKeeps(e: M.Encoder, s: System, ev: SystemEvent, s': System)
    requires Inv(e, s) && Next(e, s, ev, s')
    ensures Inv(e, s') && Frozen(s.files, s'.files)
  {
    hide DiskInv, CacheInv, WriterInv, InsertEffect, SchemaEffect, OpenEffect, Frozen, MergeSucceeds, Merged, Enabled,
      FilesAfter, LogAfter;
    var v, f := DiskOf(e, s);
    match ev {
      case InsertBatches(batches, o, after, mem) =>
        if MergeSucceeds(batches) {
          InsertKeeps(e, s.files, s.log, s.mem, Merged(batches), o, after, mem);
        } else {
          FrozenReflexive(s.files, e, s.log, v, f);
        }
      case AddField(field, o, after, mem) =>
        SchemaChangeKeeps(e, s.files, s.log, s.mem, WithField(s.mem.schema, field), o, after, mem);
      case DropField(name, o, after, mem) =>
        SchemaChangeKeeps(e, s.files, s.log, s.mem, WithoutField(s.mem.schema, name), o, after, mem);
      case Reopen(mem) =>
        OpenKeeps(e, s.files, s.log, v, f, mem);
        FrozenReflexive(s.files, e, s.log, v, f);
      case StartWriter(w) =>
        StartKeepsDisk(e, s, w);
        StartKeeps(w, s.files, s.log);
        FrozenReflexive(s.files, e, s.log, v, f);
      case Async(a) => AsyncKeeps(e, s, a, s');
    }
  }

  // ---------- Runs ----------

  /** A run from a freshly created table. */
  ghost predicate IsRun(e: M.Encoder, initial: Files, states: seq<System>, events: seq<SystemEvent>) {
    && |states| == |events| + 1
    && VersionsOf(initial) == {}
    && CreateEffect(initial, states[0].mem.schema, states[0].files, states[0].mem)
    && states[0].log == [] && states[0].writer.None?
    && forall i :: 0 <= i < |events| ==> Next(e, states[i], events[i], states[i + 1])
  }

  lemma {:induction false} RunKeepsInv(
    e: M.Encoder, initial: Files, states: seq<System>, events: seq<SystemEvent>, i: nat)
    requires IsRun(e, initial, states, events) && i < |states|
    ensures Inv(e, states[i])
  {
    hide Inv, Next, CreateEffect, SyncInv;
    if i == 0 {
      CreateKeeps(e, initial, states[0].mem.schema, states[0].files, states[0].mem);
      CreatedInv(e, states[0]);
    } else {
      RunKeepsInv(e, initial, states, events, i - 1);
      EventKeeps(e, states[i - 1], events[i - 1], states[i]);
    }
  }

  lemma CreatedInv(e: M.Encoder, s: System)
    requires s.writer.None? && s.log == [] && SyncInv(s.files, e, [], s.mem)
    ensures Inv(e, s)
  {
  }

  /** Snapshot isolation over whole runs: no manifest on disk, and no data file it refers to,
      ever changes again. */
  lemma {:induction false} SnapshotIsolation(
    e: M.Encoder, initial: Files, states: seq<System>, events: seq<SystemEvent>, i: nat, j: nat)
    requires IsRun(e, initial, states, events) && i <= j < |states|
    ensures Frozen(states[i].files, states[j].files)
    decreases j
  {
    hide Inv, Next, CreateEffect, Frozen;
    RunKeepsInv(e, initial, states, events, i);
    if i == j {
      var v, f := DiskOf(e, states[i]);
      FrozenReflexive(states[i].files, e, states[i].log, v, f);
    } else {
      SnapshotIsolation(e, initial, states, events, i, j - 1);
      RunKeepsInv(e, initial, states, events, j - 1);
      EventKeeps(e, states[j - 1], events[j - 1], states[j]);
      FrozenTransitive(states[i].files, states[j - 1].files, states[j].files);
    }
  }

  /** In every state of every run, also behind an async writer, reading the latest manifest or
      any version through the cache gives what is on disk. */
  lemma LatestManifestIsNewest(
    e: M.Encoder, initial: Files, states: seq<System>, events: seq<SystemEvent>, i: nat, version: int)
    requires IsRun(e, initial, states, events) && i < |states|
    ensures var s := states[i];
      && LatestManifest(s.files).Some?
      && LatestThroughCache(s.files, s.mem.cache) == LatestManifest(s.files)
      && CheckoutThroughCache(s.files, s.mem.cache, version) == ReadManifest(s.files, version)
  {
    hide FragmentsGrow, FragmentsAreLog, WriterInv;
    RunKeepsInv(e, initial, states, events, i);
    var v, f := DiskOf(e, states[i]);
    CacheRefinesDisk(states[i].files, states[i].mem.cache, version);
  }

  /** Committed batches stay committed, in place. */
  lemma {:induction false} LogGrows(
    e: M.Encoder, initial: Files, states: seq<System>, events: seq<SystemEvent>, i: nat, j: nat)
    requires IsRun(e, initial, states, events) && i <= j < |states|
    ensures states[i].log <= states[j].log
    decreases j
  {
    hide Inv, CreateEffect, InsertCall, AddColumnCall, DropColumnCall, OpenEffect, Started, Enabled;
    if i < j {
      LogGrows(e, initial, states, events, i, j - 1);
      assert Next(e, states[j - 1], events[j - 1], states[j - 1 + 1]);
    }
  }

  // ---------- Reading back ----------

  function BatchesOf(entries: seq<LogEntry>): (r: seq<RecordBatch>)
    ensures |r| == |entries|
  {
    seq(|entries|, i requires 0 <= i < |entries| => entries[i].batch)
  }

  /** All values of a column, read fragment by fragment; None if some fragment cannot be read. */
  ghost function ReadAll(
    files: Files, e: M.Encoder, s: Schema, fragments: seq<Fragment>, c: int): Option<seq<Element>> {
    if fragments == [] then Some([])
    else
      match ReadAll(files, e, s, fragments[..|fragments| - 1], c)
      case None => None
      case Some(front) =>
        match ReadColumn(files, e, s, fragments[|fragments| - 1], c)
        case Value(data) => Some(front + Values(data))
        case _ => None
  }

  lemma {:induction false} ReadAllIsConcatenation(
    files: Files, e: M.Encoder, s: Schema, fragments: seq<Fragment>, log: seq<LogEntry>, c: int)
    requires |fragments| <= |log|
    requires forall i :: 0 <= i < |fragments| ==>
      c in log[i].batch.columns && ReadColumn(files, e, s, fragments[i], c) == M.Value(log[i].batch.columns[c])
    ensures ReadAll(files, e, s, fragments, c) == Some(ValuesOf(BatchesOf(log[..|fragments|]), c))
  {
    hide ReadColumn, Values;
    if fragments != [] {
      var n := |fragments| - 1;
      ReadAllIsConcatenation(files, e, s, fragments[..n], log, c);
      var batches := BatchesOf(log[..n + 1]);
      assert batches[..n] == BatchesOf(log[..n]);
    } else {
      assert BatchesOf(log[..0]) == [];
    }
  }

  /** In every state of every run, for every version on disk: reading a column that was kept
      throughout, fragment by fragment, gives the concatenation of the batches committed up to
      that version. */
  lemma ReadingGivesCommittedBatches(
    e: M.Encoder, initial: Files, states: seq<System>, events: seq<SystemEvent>, i: nat,
    version: int, m: Manifest, reader: Schema, c: int, t: DataType)
    requires IsRun(e, initial, states, events) && i < |states| && M.Lossless(e.compressor)
    requires ReadManifest(states[i].files, version) == Some(m)
    requires forall k :: 0 <= k < |m.fragments| && k < |states[i].log| ==> KeepsColumn(states[i].log[k], e, c, t)
    requires FieldByID(reader, c).Some? && FieldByID(reader, c).value.dataType == t
    ensures |m.fragments| <= |states[i].log|
    ensures ReadAll(states[i].files, e, reader, m.fragments, c)
         == Some(ValuesOf(BatchesOf(states[i].log[..|m.fragments|]), c))
  {
    hide *;
    RunKeepsInv(e, initial, states, events, i);
    var s := states[i];
    var v, f := DiskOf(e, s);
    VersionReadsLog(s.files, e, s.log, v, f, version, m, reader, c, t);
    ReadAllIsConcatenation(s.files, e, reader, m.fragments, s.log, c);
  }

  /** What an insert takes of a column: the values of all batches, in order, if the first batch has
      the column, and nothing otherwise. */
  function Inserted(batches: seq<RecordBatch>, c: int): seq<Element> {
    if batches != [] && c in batches[0].columns then ValuesOf(batches, c) else []
  }

  /** An insert takes all values of a column exactly if the first batch has the column or no batch
      has values for it; in particular if the batches have one shape. */
  lemma InsertedExactly(batches: seq<RecordBatch>, c: int)
    ensures Inserted(batches, c) == ValuesOf(batches, c) <==>
            (batches != [] && c in batches[0].columns) || ValuesOf(batches, c) == []
    ensures OneShape(batches) ==> Inserted(batches, c) == ValuesOf(batches, c)
  {
    hide Values;
    if OneShape(batches) && (batches == [] || c !in batches[0].columns) {
      NoValues(batches, c);
    }
  }

  /** A committed insert adds one fragment to the newest manifest, and to every column what it
      takes of it. Any other outcome leaves the newest manifest as it was. */
  lemma InsertAppendsRows(
    e: M.Encoder, s: System, batches: seq<RecordBatch>, o: InsertOutcome, after: Files, mem: Memory, s': System, c: int)
    requires Inv(e, s) && Next(e, s, InsertBatches(batches, o, after, mem), s')
    ensures LatestManifest(s.files).Some? && LatestManifest(s'.files).Some?
    ensures o.Committed? ==>
      && ValuesOf(BatchesOf(s'.log), c) == ValuesOf(BatchesOf(s.log), c) + Inserted(batches, c)
      && TotalRows(BatchesOf(s'.log)) == TotalRows(BatchesOf(s.log)) + TotalRows(batches)
      && LatestManifest(s'.files).value.fragments == LatestManifest(s.files).value.fragments + [o.fragment]
    ensures !o.Committed? ==> s'.log == s.log && LatestManifest(s'.files) == LatestManifest(s.files)
  {
    hide Values, ValuesOf, Inserted, MergedColumn, InsertEffect, SyncInv, MergeSucceeds, Merged, LatestManifest;
    if MergeSucceeds(batches) {
      InsertOnDisk(e, s.files, s.log, s.mem, Merged(batches), o, after, mem);
    } else {
      NewestManifestExists(e, s);
    }
    if o.Committed? {
      var entry := LogEntry(s.mem.schema, Merged(batches));
      assert BatchesOf(s.log + [entry]) == BatchesOf(s.log) + [Merged(batches)];
      ValuesOfConcat(BatchesOf(s.log), [Merged(batches)], c);
      SingleBatch(Merged(batches), c);
      MergedHolds(batches, c);
    }
  }

  lemma MergedHolds(batches: seq<RecordBatch>, c: int)
    requires MergeSucceeds(batches)
    ensures Inserted(batches, c) == if c in Merged(batches).columns then Values(Merged(batches).columns[c]) else []
    ensures Merged(batches).numRows == TotalRows(batches)
  {
    hide Values, MergedColumn;
    MergedAnyShape(batches);
  }

  lemma NewestManifestExists(e: M.Encoder, s: System)
    requires Inv(e, s)
    ensures LatestManifest(s.files).Some?
  {
    hide FragmentsGrow, FragmentsAreLog, CacheInv, WriterInv;
  }

  // ---------- Column IDs that come back ----------

  /** A column added right after another was added and dropped always gets its ID. */
  lemma DroppedIdComesBack(s: Schema, first: Field, second: Field)
    requires FieldByName(s, first.name).None?
    ensures var added := WithField(s, first);
      var dropped := WithoutField(added, first.name);
      dropped == s && WithField(dropped, second).fields[|s.fields|].id == added.fields[|s.fields|].id
  {
    NoneNamed(s.fields, first.name);
    var added := WithField(s, first).fields;
    assert added[..|added| - 1] == s.fields;
  }

  /** In any schema: the column added after dropping f gets the ID of f exactly if every remaining
      ID is smaller and the one just below is still there (or f had the first ID, 1). */
  lemma IdComesBackExactly(s: Schema, f: Field, next: Field)
    requires f in s.fields
    ensures var added := WithField(WithoutField(s, f.name), next).fields;
      added[|added| - 1].id == f.id <==>
        && f.id >= 1
        && (forall g <- s.fields :: g.name != f.name ==> g.id < f.id)
        && (f.id == 1 || exists g <- s.fields :: g.name != f.name && g.id == f.id - 1)
  {
    hide WithoutNamed, MaxFieldId;
    var rest := WithoutField(s, f.name).fields;
    KeepsOtherNames(s.fields, f.name);
    var top := MaxFieldId(rest);
    if top > 0 {
      var g :| g in rest && g.id == top;
      assert g in s.fields && g.name != f.name;
    }
  }

  lemma {:induction false} KeepsOtherNames(fields: seq<Field>, name: string)
    ensures forall g :: g in WithoutNamed(fields, name) <==> g in fields && g.name != name
  {
    if fields != [] {
      var n := |fields| - 1;
      KeepsOtherNames(fields[..n], name);
      assert fields == fields[..n] + [fields[n]];
    }
  }

  lemma {:induction false} NoneNamed(fields: seq<Field>, name: string)
    requires forall f <- fields :: f.name != name
    ensures WithoutNamed(fields, name) == fields
  {
    if fields != [] {
      NoneNamed(fields[..|fields| - 1], name);
    }
  }

  /** What a column that a schema declares shows of an old fragment: an error if nothing was
      stored there under its ID; else the bytes of the column that was, taken as the new type.
      They show the old data unchanged exactly if the new type has the same Go slice. */
  lemma ReusedIdShowsOldData(
    e: M.Encoder, initial: Files, states: seq<System>, events: seq<SystemEvent>, i: nat,
    version: int, m: Manifest, reader: Schema, c: int, t: DataType, u: DataType, k: nat)
    requires IsRun(e, initial, states, events) && i < |states| && M.Lossless(e.compressor)
    requires ReadManifest(states[i].files, version) == Some(m) && k < |m.fragments|
    requires FieldByID(reader, c).Some? && FieldByID(reader, c).value.dataType == u
    requires k < |states[i].log| && c in states[i].log[k].batch.columns ==> KeepsColumn(states[i].log[k], e, c, t)
    ensures k < |states[i].log|
    ensures var columns := states[i].log[k].batch.columns;
      var read := ReadColumn(states[i].files, e, reader, m.fragments[k], c);
      if c !in columns then read == M.Error
      else
        && M.Serialize(columns[c], t).Success?
        && read == M.Deserialize(M.Serialize(columns[c], t).value, u)
        && (read == M.Value(columns[c]) <==> HasType(columns[c], u))
        && (!Encodable(u) ==> read == M.Error)
  {
    hide M.Lossless, IsRun, Inv, DiskInv, ColumnsStored, FieldByID, ReadManifest, StoredForm, IsMaxRows, M.Serialize,
      M.Deserialize, M.PageFits, M.Encode, HasType;
    RunKeepsInv(e, initial, states, events, i);
    var s := states[i];
    var v, f := DiskOf(e, s);
    VersionIsLogPrefix(s.files, e, s.log, v, f, version, m);
    var entry := s.log[k];
    if c in entry.batch.columns {
      ReadsStoredBytes(s.files, e, entry.schema, entry.batch, m.fragments[k], reader, c, t, u);
      M.RetypedRead(entry.batch.columns[c], t, u);
    } else {
      FindsNoFile(m.fragments[k].dataFiles, c);
    }
  }

  /** A row keeps its RowID in every later version of every later state. */
  lemma RowIdsAreStable(
    e: M.Encoder, initial: Files, states: seq<System>, events: seq<SystemEvent>, i: nat, j: nat,
    v: int, m: Manifest, w: int, later: Manifest, k: nat)
    requires IsRun(e, initial, states, events) && i <= j < |states|
    requires ReadManifest(states[i].files, v) == Some(m) && ReadManifest(states[j].files, w) == Some(later)
    requires forall n :: 0 <= n < |states[j].log| ==> Rectangular(states[j].log[n])
    requires k <= |m.fragments| && k <= |later.fragments|
    ensures k <= |states[i].log| && k <= |states[j].log|
    ensures RowOffset(m.fragments, k) == RowOffset(later.fragments, k) == RowsBefore(states[i].log, k)
  {
    hide Rectangular, IsRun;
    LogGrows(e, initial, states, events, i, j);
    RunKeepsInv(e, initial, states, events, i);
    RunKeepsInv(e, initial, states, events, j);
    var v1, f1 := DiskOf(e, states[i]);
    var v2, f2 := DiskOf(e, states[j]);
    RowIdIsPosition(states[i].files, e, states[i].log, v1, f1, v, m, k);
    RowIdIsPosition(states[j].files, e, states[j].log, v2, f2, w, later, k);
    RowsOfPrefix(states[i].log, states[j].log, k);
  }

  lemma {:induction false} RowsOfPrefix(a: seq<LogEntry>, b: seq<LogEntry>, k: nat)
    requires k <= |a| && a <= b
    ensures RowsBefore(a, k) == RowsBefore(b, k)
  {
    if k > 0 {
      RowsOfPrefix(a, b, k - 1);
    }
  }

  // ---------- The async writer ----------

  /** The values that the committed groups hold are the values of the batches in them. */
  lemma {:induction false} GroupValues(
    schemaRef: int, schema: Schema, groups: seq<seq<RecordBatch>>, entries: seq<LogEntry>, c: int)
    requires GroupsMatch(schemaRef, schema, groups, entries) && OneShape(Flatten(groups))
    ensures ValuesOf(BatchesOf(entries), c) == ValuesOf(Flatten(groups), c)
    ensures TotalRows(BatchesOf(entries)) == TotalRows(Flatten(groups))
  {
    hide Values, SameShape;
    if groups != [] {
      var n := |groups| - 1;
      var front, last := Flatten(groups[..n]), groups[n];
      PartShape(front, last);
      TailShape(front, last);
      GroupValues(schemaRef, schema, groups[..n], entries[..n], c);
      GatherKeepsValues(schemaRef, last);
      GatheredColumn(schemaRef, last, entries[n].batch, c);
      ValuesOfConcat(front, last, c);
      var batches := BatchesOf(entries);
      assert batches[..n] == BatchesOf(entries[..n]);
    }
  }

  lemma TailShape(a: seq<RecordBatch>, b: seq<RecordBatch>)
    requires OneShape(a + b)
    ensures OneShape(b)
  {
    hide SameShape;
    forall i, j | 0 <= i < |b| && 0 <= j < |b| ensures SameShape(b[i], b[j]) {
      assert b[i] == (a + b)[|a| + i] && b[j] == (a + b)[|a| + j];
    }
  }

  /** A gathered batch holds the values of its batches, also for columns that none of them has. */
  lemma GatheredColumn(schemaRef: int, batches: seq<RecordBatch>, g: RecordBatch, c: int)
    requires OneShape(batches) && Gathered(schemaRef, batches) == Some(g)
    ensures ValuesOf(batches, c) == if c in g.columns then Values(g.columns[c]) else []
    ensures g.numRows == TotalRows(batches)
  {
    hide Values;
    GatherKeepsValues(schemaRef, batches);
    if c !in g.columns {
      NoValues(batches, c);
    }
  }

  lemma {:induction false} NoValues(batches: seq<RecordBatch>, c: int)
    requires OneShape(batches) && (batches != [] ==> c !in batches[0].columns)
    ensures ValuesOf(batches, c) == []
  {
    hide SameKind;
    if batches != [] {
      var front, last := batches[..|batches| - 1], batches[|batches| - 1];
      assert SameShape(batches[0], last);
      NoValues(front, c);
    }
  }

  /** Conservation of rows: for every column, the accepted batches hold exactly the values of
      the fragments this writer committed, then of the accumulating batch, then of the queue. */
  lemma RowsAreConserved(w: Writer, log: seq<LogEntry>, c: int)
    requires WriterInv(w, log)
    ensures w.base <= |log|
    ensures var current := if w.mem.current.Some? then [w.mem.current.value] else [];
      && ValuesOf(w.accepted, c) ==
           ValuesOf(BatchesOf(log[w.base..]), c) + ValuesOf(current, c) + ValuesOf(w.mem.queue, c)
      && TotalRows(w.accepted) ==
           TotalRows(BatchesOf(log[w.base..])) + TotalRows(current) + TotalRows(w.mem.queue)
  {
    hide Values, OneShape, GroupsMatch, Gathered;
    var done := Flatten(w.groups);
    PartShape(done + w.pending, w.mem.queue);
    PartShape(done, w.pending);
    TailShape(done, w.pending);
    GroupValues(w.mem.schemaRef, w.mem.schema, w.groups, log[w.base..], c);
    ValuesOfConcat(done + w.pending, w.mem.queue, c);
    ValuesOfConcat(done, w.pending, c);
    if w.pending != [] {
      GatheredColumn(w.mem.schemaRef, w.pending, w.mem.current.value, c);
      SingleBatch(w.mem.current.value, c);
    }
  }

  lemma SingleBatch(b: RecordBatch, c: int)
    ensures ValuesOf([b], c) == if c in b.columns then Values(b.columns[c]) else []
    ensures TotalRows([b]) == b.numRows
  {
    assert [b][..0] == [];
    assert ValuesOf([b][..0], c) == [];
  }

  /** Conservation over every run. */
  lemma AsyncConservation(
    e: M.Encoder, initial: Files, states: seq<System>, events: seq<SystemEvent>, i: nat, c: int)
    requires IsRun(e, initial, states, events) && i < |states| && states[i].writer.Some?
    ensures var s, w := states[i], states[i].writer.value;
      var current := if w.mem.current.Some? then [w.mem.current.value] else [];
      && w.accepted == Flatten(w.groups) + w.pending + w.mem.queue
      && w.base + |w.groups| == |s.log|
      && ValuesOf(w.accepted, c) ==
           ValuesOf(BatchesOf(s.log[w.base..]), c) + ValuesOf(current, c) + ValuesOf(w.mem.queue, c)
      && TotalRows(w.accepted) ==
           TotalRows(BatchesOf(s.log[w.base..])) + TotalRows(current) + TotalRows(w.mem.queue)
  {
    hide DiskInv, CacheInv, IsRun, OneShape, Gathered, CurrentIsPending, ProtocolInv, Barriers, Values;
    RunKeepsInv(e, initial, states, events, i);
    RowsAreConserved(states[i].writer.value, states[i].log, c);
  }

  /** The fragments of the newest manifest read back as the log, from any position on. */
  lemma LatestReadsLog(e: M.Encoder, s: System, from: nat, reader: Schema, c: int, t: DataType)
    requires Inv(e, s) && from <= |s.log| && M.Lossless(e.compressor)
    requires forall k :: from <= k < |s.log| ==> KeepsColumn(s.log[k], e, c, t)
    requires FieldByID(reader, c).Some? && FieldByID(reader, c).value.dataType == t
    ensures LatestManifest(s.files).Some? && |LatestManifest(s.files).value.fragments| == |s.log|
    ensures ReadAll(s.files, e, reader, LatestManifest(s.files).value.fragments[from..], c)
         == Some(ValuesOf(BatchesOf(s.log[from..]), c))
  {
    hide M.Lossless, KeepsColumn, FieldByID, CacheInv, WriterInv, IsFragmentOf, ColumnsStored, ReadColumn,
      FragmentsGrow, ReadAll, Inv;
    var v, f := DiskOf(e, s);
    var fragments := LatestManifest(s.files).value.fragments;
    forall k | from <= k < |s.log|
      ensures c in s.log[k].batch.columns
      ensures ReadColumn(s.files, e, reader, fragments[k], c) == M.Value(s.log[k].batch.columns[c])
    {
      KeptColumnReads(s.files, e, s.log[k], fragments[k], reader, c, t);
    }
    ReadAllIsConcatenation(s.files, e, reader, fragments[from..], s.log[from..], c);
    assert s.log[from..][..|fragments[from..]|] == s.log[from..];
  }

  /** Conservation over every run, on disk: for a column that every fragment of this writer
      keeps, reading those fragments from the newest manifest, then the accumulating batch, then
      the queue gives exactly the values of the accepted batches, in order. */
  lemma AsyncConservationOnDisk(
    e: M.Encoder, initial: Files, states: seq<System>, events: seq<SystemEvent>, i: nat,
    reader: Schema, c: int, t: DataType)
    requires IsRun(e, initial, states, events) && i < |states| && states[i].writer.Some? && M.Lossless(e.compressor)
    requires forall k :: states[i].writer.value.base <= k < |states[i].log| ==> KeepsColumn(states[i].log[k], e, c, t)
    requires FieldByID(reader, c).Some? && FieldByID(reader, c).value.dataType == t
    ensures LatestManifest(states[i].files).Some?
    ensures var s, w := states[i], states[i].writer.value;
      var fragments := LatestManifest(s.files).value.fragments;
      var current := if w.mem.current.Some? then [w.mem.current.value] else [];
      && w.base <= |fragments|
      && var stored := ReadAll(s.files, e, reader, fragments[w.base..], c);
         stored.Some? && ValuesOf(w.accepted, c) == stored.value + ValuesOf(current, c) + ValuesOf(w.mem.queue, c)
  {
    hide IsRun, M.Lossless, KeepsColumn, FieldByID, DiskInv, CacheInv, OneShape, Gathered, CurrentIsPending,
      ProtocolInv, Barriers, Values, ReadAll, GroupsMatch;
    RunKeepsInv(e, initial, states, events, i);
    var w := states[i].writer.value;
    RowsAreConserved(w, states[i].log, c);
    LatestReadsLog(e, states[i], w.base, reader, c, t);
  }

  /** The loop can always go on: a queued batch can be taken, so draining never gets stuck. */
  lemma QueueNeverStuck(e: M.Encoder, initial: Files, states: seq<System>, events: seq<SystemEvent>, i: nat)
    requires IsRun(e, initial, states, events) && i < |states| && states[i].writer.Some?
    requires states[i].writer.value.mem.queue != []
    ensures CanTake(states[i].writer.value.mem)
  {
    hide DiskInv, CacheInv, IsRun, OneShape, Gathered, GroupsAreLog, ProtocolInv, Barriers, Accumulates;
    RunKeepsInv(e, initial, states, events, i);
    QueueCanBeTaken(states[i].writer.value);
  }

  /** Accepted batch k is in the latest manifest: some committed group holds it, and the
      fragment of that group is in the newest manifest with its data on disk. */
  ghost predicate InLatestManifest(e: M.Encoder, s: System, w: Writer, k: nat) {
    exists g: nat, at: nat ::
      && g < |w.groups| && at < |w.groups[g]| && k < |w.accepted|
      && |Flatten(w.groups[..g])| + at == k && w.groups[g][at] == w.accepted[k]
      && LatestManifest(s.files).Some?
      && w.base + g < |LatestManifest(s.files).value.fragments| && w.base + g < |s.log|
      && Gathered(w.mem.schemaRef, w.groups[g]) == Some(s.log[w.base + g].batch)
      && IsFragmentOf(LatestManifest(s.files).value.fragments[w.base + g], e, s.log[w.base + g].schema,
         s.log[w.base + g].batch)
      && ColumnsStored(s.files, e, s.log[w.base + g].schema,
                       LatestManifest(s.files).value.fragments[w.base + g].id, s.log[w.base + g].batch.columns)
  }

  lemma {:induction false} FindGroup(groups: seq<seq<RecordBatch>>, k: nat) returns (g: nat, at: nat)
    requires k < |Flatten(groups)|
    ensures g < |groups| && at < |groups[g]| && |Flatten(groups[..g])| + at == k
    ensures groups[g][at] == Flatten(groups)[k]
  {
    var n := |groups| - 1;
    if k < |Flatten(groups[..n])| {
      g, at := FindGroup(groups[..n], k);
      assert groups[..n][..g] == groups[..g];
    } else {
      g, at := n, k - |Flatten(groups[..n])|;
    }
  }

  lemma CommittedIsInLatest(e: M.Encoder, s: System, w: Writer, k: nat)
    requires Inv(e, s) && s.writer == Some(w) && k < CommittedCount(w)
    ensures InLatestManifest(e, s, w, k)
  {
    hide IsFragmentOf, ColumnsStored, Gathered, OneShape, FragmentsGrow, CacheInv, CurrentIsPending, ProtocolInv,
      Barriers;
    var g, at := FindGroup(w.groups, k);
    assert w.accepted[k] == Flatten(w.groups)[k];
    assert s.log[w.base..][g] == s.log[w.base + g];
    var latest := LatestManifest(s.files).value;
    assert IsFragmentOf(latest.fragments[w.base + g], e, s.log[w.base + g].schema, s.log[w.base + g].batch);
  }

  /** The flush barrier: once Flush has returned nil, every batch with rows whose Write had
      returned nil before Flush was called is in the latest manifest. */
  lemma FlushBarrier(
    e: M.Encoder, initial: Files, states: seq<System>, events: seq<SystemEvent>, i: nat, caller: int, k: nat)
    requires IsRun(e, initial, states, events) && i < |states| && states[i].writer.Some?
    requires var w := states[i].writer.value;
      && caller in w.answers && w.answers[caller]
      && caller in w.flushCalls && k < w.flushCalls[caller] && k < |w.accepted|
      && w.accepted[k].numRows > 0
    ensures InLatestManifest(e, states[i], states[i].writer.value, k)
  {
    hide DiskInv, CacheInv, IsRun, OneShape, GroupsAreLog, CurrentIsPending, Conserved, InLatestManifest, Flatten;
    RunKeepsInv(e, initial, states, events, i);
    var w := states[i].writer.value;
    assert Durable(w, w.flushCalls[caller]);
    CommittedIsInLatest(e, states[i], w, k);
  }

  // ---------- Closing ----------

  /** A batch in a committed group is one of those that CommittedCount counts. */
  lemma {:induction false} GroupInside(groups: seq<seq<RecordBatch>>, g: nat, at: nat)
    requires g < |groups| && at < |groups[g]|
    ensures |Flatten(groups[..g])| + at < |Flatten(groups)|
  {
    assert groups == groups[..g] + groups[g..];
    FlattenConcat(groups[..g], groups[g..]);
    FlattenFront(groups[g..]);
  }

  lemma InLatestIsCommitted(e: M.Encoder, s: System, w: Writer, k: nat)
    requires InLatestManifest(e, s, w, k)
    ensures k < CommittedCount(w)
  {
    hide LatestManifest, Gathered, IsFragmentOf, ColumnsStored, Flatten;
    var g: nat, at: nat :|
      g < |w.groups| && at < |w.groups[g]| && k < |w.accepted|
      && |Flatten(w.groups[..g])| + at == k && w.groups[g][at] == w.accepted[k];
    GroupInside(w.groups, g, at);
  }

  /** Exactly what a close that returned nil keeps: of the batches with rows, those accepted
      before the loop stopped are in the latest manifest, and those accepted later are not. */
  lemma CloseKeepsExactly(
    e: M.Encoder, initial: Files, states: seq<System>, events: seq<SystemEvent>, i: nat, k: nat)
    requires IsRun(e, initial, states, events) && i < |states| && states[i].writer.Some?
    requires var w := states[i].writer.value;
      w.closeOk == Some(true) && k < |w.accepted| && w.accepted[k].numRows > 0
    ensures var w := states[i].writer.value;
      && (InLatestManifest(e, states[i], w, k) <==> k < w.stoppedAt)
      && w.stoppedAt == |w.accepted| - |w.mem.queue|
  {
    hide DiskInv, CacheInv, IsRun, OneShape, GroupsAreLog, CurrentIsPending, InLatestManifest, Flatten;
    RunKeepsInv(e, initial, states, events, i);
    var w := states[i].writer.value;
    if k < w.stoppedAt {
      CommittedIsInLatest(e, states[i], w, k);
    }
    if InLatestManifest(e, states[i], w, k) {
      InLatestIsCommitted(e, states[i], w, k);
    }
  }

  /** Once the loop has stopped it stays stopped, and stoppedAt stays what it is, while clients
      may go on writing. */
  lemma {:induction false} StoppedForGood(
    e: M.Encoder, initial: Files, states: seq<System>, events: seq<SystemEvent>, i: nat, j: nat)
    requires IsRun(e, initial, states, events) && i <= j < |states|
    requires states[i].writer.Some? && states[i].writer.value.pc.Stopped?
    requires forall n :: i <= n < j ==> events[n].Async?
    ensures states[j].writer.Some?
    ensures var w, later := states[i].writer.value, states[j].writer.value;
      later.pc.Stopped? && later.stoppedAt == w.stoppedAt && later.closeOk == w.closeOk && w.accepted <= later.accepted
    decreases j
  {
    hide FlushEffect, OneShape, Accumulates, Accumulated, StartEffect, CreateEffect, InsertCall, AddColumnCall,
      DropColumnCall, OpenEffect, FilesAfter, LogAfter;
    if i < j {
      StoppedForGood(e, initial, states, events, i, j - 1);
      assert Next(e, states[j - 1], events[j - 1], states[j - 1 + 1]);
    }
  }

  /** All writes of the events went through the table, under its lock. */
  ghost predicate ThroughTable(events: seq<SystemEvent>) {
    forall i :: 0 <= i < |events| && events[i].Async? && events[i].ev.Accept? ==> events[i].ev.throughTable
  }

  /** A stopped loop has seen everything that was accepted. */
  ghost predicate NothingUnseen(s: System) {
    s.writer.Some? && s.writer.value.pc.Stopped? ==> s.writer.value.stoppedAt == |s.writer.value.accepted|
  }

  /** The table accepts nothing after its Close took the lock, and its writer closes later. */
  lemma NoRaceStep(e: M.Encoder, s: System, ev: SystemEvent, s': System)
    requires Inv(e, s) && Next(e, s, ev, s') && NothingUnseen(s)
    requires ev.Async? && ev.ev.Accept? ==> ev.ev.throughTable
    ensures NothingUnseen(s')
  {
    hide DiskInv, CacheInv, SyncInv, OneShape, GroupsAreLog, CurrentIsPending, Conserved, Barriers, InsertCall,
      AddColumnCall, DropColumnCall, OpenEffect, FlushEffect, Accumulates, Accumulated, FilesAfter, LogAfter,
      StartEffect, CanTake;
    if ev.Async? {
      assert s'.writer == Some(WriterAfter(s.writer.value, ev.ev));
    }
  }

  lemma {:induction false} LockPreventsRaces(
    e: M.Encoder, initial: Files, states: seq<System>, events: seq<SystemEvent>, i: nat)
    requires IsRun(e, initial, states, events) && ThroughTable(events) && i < |states|
    ensures NothingUnseen(states[i])
  {
    hide Inv, Next, CreateEffect;
    if i > 0 {
      LockPreventsRaces(e, initial, states, events, i - 1);
      RunKeepsInv(e, initial, states, events, i - 1);
      assert Next(e, states[i - 1], events[i - 1], states[i - 1 + 1]);
      NoRaceStep(e, states[i - 1], events[i - 1], states[i]);
    }
  }

  /** The close barrier: once the table's Close has seen nil from its writer, every batch with
      rows that the table accepted is in the latest manifest. */
  lemma CloseBarrier(
    e: M.Encoder, initial: Files, states: seq<System>, events: seq<SystemEvent>, i: nat, k: nat)
    requires IsRun(e, initial, states, events) && ThroughTable(events) && i < |states| && states[i].writer.Some?
    requires var w := states[i].writer.value;
      w.closeOk == Some(true) && k < |w.accepted| && w.accepted[k].numRows > 0
    ensures InLatestManifest(e, states[i], states[i].writer.value, k)
  {
    hide DiskInv, CacheInv, IsRun, OneShape, GroupsAreLog, CurrentIsPending, Conserved, Barriers, InLatestManifest,
      Flatten;
    RunKeepsInv(e, initial, states, events, i);
    LockPreventsRaces(e, initial, states, events, i);
    CloseKeepsExactly(e, initial, states, events, i, k);
  }

  /** Without the table's lock a stopped writer with room still accepts a batch. It returns nil,
      the batch is in no fragment of the latest manifest, and no event takes it out of the queue. */
  lemma RacingWriteIsLost(e: M.Encoder, s: System, batch: RecordBatch, s': System)
    requires Inv(e, s) && s.writer.Some? && s.writer.value.closeOk == Some(true) && batch.numRows > 0
    requires |s.writer.value.mem.queue| < QUEUE_CAPACITY && OneShape(s.writer.value.accepted + [batch])
    requires s' == s.(writer := Some(WriterAfter(s.writer.value, Accept(batch, false))))
    ensures Next(e, s, Async(Accept(batch, false)), s')
    ensures var w, w' := s.writer.value, s'.writer.value;
      && w'.closeOk == Some(true) && w'.accepted == w.accepted + [batch]
      && !InLatestManifest(e, s', w', |w.accepted|)
      && forall ev :: Enabled(e, s'.files, w', ev) ==> !ev.Take? && !ev.Drain? && !ev.DrainDone?
  {
    hide OneShape, Gathered, Accumulates, Accumulated, FlushEffect, GroupsAreLog, CurrentIsPending, DiskInv, CacheInv,
      InLatestManifest, Flatten;
    var w, w' := s.writer.value, s'.writer.value;
    if InLatestManifest(e, s', w', |w.accepted|) {
      InLatestIsCommitted(e, s', w', |w.accepted|);
    }
  }
}
