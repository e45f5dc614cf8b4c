/** One concrete run, up to a stopped async writer: it shows that the guarantees are not empty and
    that each of the limits stated for them can be reached. */
module SampleRun {
  import opened Common
  import opened Columns
  import opened Store
  import opened Versions
  import opened VersionManager
  import opened ManifestStore
  import opened Fragments
  import opened Batches
  import opened TableState
  import opened Table
  import opened AsyncWriter
  import opened AsyncInvariant
  import opened TableRuns
  import opened StaleTable
  import M = MiniBlock

  const ENCODER := M.Encoder(M.NoCompression, 0)
  const SCHEMA := Schema([Field(1, "v", TypeInt32, 0)])
  const BATCH := RecordBatch(0, map[1 := Int32s([7])], 1)
  const FIRST := Manifest(1, SCHEMA, [], 0)

  lemma Stores() returns (form: Stored)
    ensures StoredForm(ENCODER, SCHEMA, 1, Int32s([7])) == Success(form) && form.rows == 1
  {
    hide M.Encode, M.Decode;
    M.UncompressedRoundTripExact(0, Int32s([7]), TypeInt32);
    var field := FieldByID(SCHEMA, 1).value;
    assert field == SCHEMA.fields[0];
    form := StoredForm(ENCODER, SCHEMA, 1, Int32s([7])).value;
  }

  /** The fragment of the batch under an ID, and the files with it and a manifest. */
  function FragmentWith(id: int, form: Stored): Fragment {
    Fragment(id, 1, [DataFileOf(id, 1, form)], 1)
  }

  function Written(files: Files, f: Fragment, form: Stored, m: Manifest): Files {
    files[DataPath(f.id, 1) := DataContent(form.bytes)][ManifestPath(m.version) := ManifestContent(m)]
  }

  lemma WritesFragment(files: Files, id: int, form: Stored, m: Manifest)
    requires StoredForm(ENCODER, SCHEMA, 1, Int32s([7])) == Success(form) && form.rows == 1
    ensures var f := FragmentWith(id, form); var after := Written(files, f, form, m);
      && IsFragmentOf(f, ENCODER, SCHEMA, BATCH) && ColumnsStored(after, ENCODER, SCHEMA, id, BATCH.columns)
      && ChangedOnly(files, after, PathsOf(id, BATCH.columns.Keys) + {ManifestPath(m.version)})
      && ReadManifest(after, m.version) == Some(m)
  {
    hide StoredForm;
    var f := FragmentWith(id, form);
    assert f.dataFiles[0].columnId == 1 && f.dataFiles[0].numRows == 1;
    assert DataPath(id, 1) in PathsOf(id, BATCH.columns.Keys);
  }

  function CreatedFiles(): Files {
    map[ManifestPath(1) := ManifestContent(FIRST)]
  }

  ghost function CreatedMem(): Memory {
    Memory(SCHEMA, 2, 0, AfterPublish(Snapshot(map[], -1), CACHE_LIMIT, FIRST))
  }

  lemma Created()
    ensures CreateEffect(map[], SCHEMA, CreatedFiles(), CreatedMem())
    ensures VersionsOf(map[]) == {} && VersionsOf(CreatedFiles()) == {1} && Newest({1}) == 1
    ensures CachedLatest(CreatedMem().cache) == Some(FIRST) && CreatedMem().cache.latest == 1
  {
    assert Newest({1}) in {1};
  }

  function WriterMemory(queue: seq<RecordBatch>, fragmentId: int, version: int): WriterMem {
    WriterMem(0, SCHEMA, 1, queue, None, fragmentId, version)
  }

  lemma TakesOne()
    ensures CanTake(WriterMemory([BATCH], 1, 2)) && LargeEnough(TakeOne(WriterMemory([BATCH], 1, 2)))
    ensures TakeOne(WriterMemory([BATCH], 1, 2)) == WriterMemory([], 1, 2).(current := Some(BATCH))
  {
    assert Accumulated(Base(WriterMemory([BATCH], 1, 2)), BATCH) == BATCH;
  }

  /** The flush of that batch of one row, which is large enough at once. */
  lemma FlushesOne(files: Files, form: Stored, m: Manifest)
    requires StoredForm(ENCODER, SCHEMA, 1, Int32s([7])) == Success(form) && form.rows == 1
    requires m.version == 2
    requires NextManifest(files, WriterMemory([], 1, 2).(current := Some(BATCH)), FragmentWith(1, form)) == Some(m)
    ensures FlushEffect(ENCODER, files, WriterMemory([], 1, 2).(current := Some(BATCH)),
                        Flushed(FragmentWith(1, form), m),
                        Written(files, FragmentWith(1, form), form, m), WriterMemory([], 2, 3))
  {
    hide StoredForm, IsFragmentOf, ColumnsStored, ChangedOnly, NextManifest;
    WritesFragment(files, 1, form, m);
  }

  lemma FirstFlush(form: Stored)
    requires StoredForm(ENCODER, SCHEMA, 1, Int32s([7])) == Success(form) && form.rows == 1
    ensures var f := FragmentWith(1, form); var m := Manifest(2, SCHEMA, [f], 1);
      FlushEffect(ENCODER, CreatedFiles(), WriterMemory([], 1, 2).(current := Some(BATCH)), Flushed(f, m),
                  Written(CreatedFiles(), f, form, m), WriterMemory([], 2, 3))
  {
    hide FlushEffect, StoredForm;
    Created();
    assert [] + [FragmentWith(1, form)] == [FragmentWith(1, form)];
    FlushesOne(CreatedFiles(), form, Manifest(2, SCHEMA, [FragmentWith(1, form)], 1));
  }

  /** The same batch, inserted through the table as it was created, overwrites that version. */
  lemma StaleInsert(files: Files, form: Stored)
    requires StoredForm(ENCODER, SCHEMA, 1, Int32s([7])) == Success(form) && form.rows == 1
    ensures CachedLatest(CreatedMem().cache).Some?
    ensures var g := FragmentWith(0, form); var m := Manifest(2, SCHEMA, [g], 0);
      InsertEffect(ENCODER, files, CreatedMem(), BATCH, InsertOutcome.Committed(g), Written(files, g, form, m),
                   Published(CreatedMem().(nextFragmentId := 1), m))
  {
    hide StoredForm, IsFragmentOf, ColumnsStored, ChangedOnly, AfterPublish;
    Created();
    var g := FragmentWith(0, form);
    WritesFragment(files, 0, form, Manifest(2, SCHEMA, [g], 0));
    assert [] + [g] == [g];
  }

  /** The events of the run, and the states of its writer. */
  ghost function Events(form: Stored): seq<Event> {
    var f := FragmentWith(1, form);
    var m := Manifest(2, SCHEMA, [f], 1);
    var files := Written(CreatedFiles(), f, form, m);
    [Accept(BATCH, true), Take(Flushed(f, m), files, WriterMemory([], 2, 3)), CloseTable, CloseWriter, CloseArm,
     DrainDone(NothingToFlush, files, WriterMemory([], 2, 3)), Accept(BATCH, false)]
  }

  ghost function Fresh(): Writer {
    Writer(WriterMemory([], 1, 2), Selecting, 0, [], [], [], map[], map[], false, false, None, 0)
  }

  ghost function Flushed1(): Writer {
    Fresh().(mem := WriterMemory([], 2, 3), accepted := [BATCH], groups := [[BATCH]])
  }

  ghost function Stopped1(): Writer {
    Flushed1().(pc := Stopped, tableClosed := true, closeRequested := true, closeOk := Some(true), stoppedAt := 1)
  }

  ghost function Writers(): seq<Writer> {
    [Fresh(), Fresh().(mem := WriterMemory([BATCH], 1, 2), accepted := [BATCH]), Flushed1(),
     Flushed1().(tableClosed := true), Flushed1().(tableClosed := true, closeRequested := true),
     Flushed1().(tableClosed := true, closeRequested := true, pc := Draining(ForClose)), Stopped1(),
     Stopped1().(mem := WriterMemory([BATCH], 2, 3), accepted := [BATCH, BATCH])]
  }

  ghost function FilesAt(form: Stored, i: nat): Files {
    var f := FragmentWith(1, form);
    if i < 2 then CreatedFiles() else Written(CreatedFiles(), f, form, Manifest(2, SCHEMA, [f], 1))
  }

  ghost function LogAt(i: nat): seq<LogEntry> {
    if i < 2 then [] else [LogEntry(SCHEMA, BATCH)]
  }

  /** Event i leads from writer state i to the next. */
  ghost predicate Steps(form: Stored, i: nat)
    requires i < 7
  {
    var w, ev := Writers()[i], Events(form)[i];
    && Enabled(ENCODER, FilesAt(form, i), w, ev)
    && FilesAfter(FilesAt(form, i), ev) == FilesAt(form, i + 1)
    && LogAfter(LogAt(i), w, ev) == LogAt(i + 1)
    && WriterAfter(w, ev) == Writers()[i + 1]
  }

  lemma OneShapeOfBatches()
    ensures OneShape([BATCH]) && OneShape([BATCH, BATCH])
    ensures [] + [BATCH] == [BATCH] && [BATCH] + [BATCH] == [BATCH, BATCH]
  {
  }

  lemma AcceptSteps(form: Stored)
    ensures Steps(form, 0)
  {
    hide StoredForm, FlushEffect, Accumulates, Accumulated, Written, OneShape;
    OneShapeOfBatches();
  }

  lemma RacingSteps(form: Stored)
    ensures Steps(form, 6)
  {
    hide StoredForm, FlushEffect, Accumulates, Accumulated, Written, OneShape;
    OneShapeOfBatches();
  }

  lemma TakeSteps(form: Stored)
    requires StoredForm(ENCODER, SCHEMA, 1, Int32s([7])) == Success(form) && form.rows == 1
    ensures Steps(form, 1)
  {
    hide StoredForm, FlushEffect, Accumulates, Accumulated, Written;
    TakesOne();
    FirstFlush(form);
    var w := Writers()[1];
    assert [] + [BATCH] == [BATCH] && [] + [[BATCH]] == [[BATCH]];
    assert AfterTake(w).pending == [BATCH];
    assert [] + [LogEntry(SCHEMA, BATCH)] == [LogEntry(SCHEMA, BATCH)];
  }

  lemma CloseSteps(form: Stored)
    ensures Steps(form, 2) && Steps(form, 3) && Steps(form, 4)
  {
    hide StoredForm, FlushEffect, Accumulates, Accumulated, Written, OneShape;
  }

  lemma StopSteps(form: Stored)
    ensures Steps(form, 5)
  {
    hide StoredForm, FlushEffect, Accumulates, Accumulated, Written, OneShape;
    NothingFlushed(form);
  }

  lemma NothingFlushed(form: Stored)
    ensures FlushEffect(ENCODER, FilesAt(form, 5), WriterMemory([], 2, 3), NothingToFlush,
                        FilesAt(form, 5), WriterMemory([], 2, 3))
  {
  }

  ghost function StateAt(form: Stored, i: nat): System
    requires i <= 8
  {
    if i == 0 then System(CreatedFiles(), [], CreatedMem(), None)
    else System(FilesAt(form, i - 1), LogAt(i - 1), CreatedMem(), Some(Writers()[i - 1]))
  }

  lemma StartsWriter(form: Stored)
    ensures Next(ENCODER, StateAt(form, 0), StartWriter(Fresh()), StateAt(form, 1))
  {
    Created();
  }

  /** Create, start a writer, accept a batch and flush it, close, and accept another batch that
      did not go through the table. */
  lemma ReachesStop() returns (states: seq<System>, events: seq<SystemEvent>)
    ensures |states| == 9 && IsRun(ENCODER, map[], states, events)
    ensures states[2].files == CreatedFiles() && states[2].mem == CreatedMem()
    ensures states[2].writer.Some? && states[2].writer.value.mem == WriterMemory([BATCH], 1, 2)
    ensures states[3].mem == CreatedMem() && 2 in VersionsOf(states[3].files)
    ensures states[3].mem.cache.latest < Newest(VersionsOf(states[3].files))
    ensures states[7].writer == Some(Stopped1()) && states[8].writer.Some?
    ensures var raced := states[8].writer.value;
      raced.closeOk == Some(true) && raced.accepted == [BATCH, BATCH] && raced.stoppedAt == 1
    ensures ThroughTable(events[..7]) && !ThroughTable(events)
  {
    hide StoredForm, Next, Steps, AfterPublish, Written;
    Created();
    var form := Stores();
    AcceptSteps(form);
    TakeSteps(form);
    CloseSteps(form);
    StopSteps(form);
    RacingSteps(form);
    states := seq(9, i requires 0 <= i < 9 => StateAt(form, i));
    events := [StartWriter(Fresh())] + seq(7, i requires 0 <= i < 7 => Async(Events(form)[i]));
    forall i: nat | i < |events| ensures Next(ENCODER, states[i], events[i], states[i + 1]) {
      if i == 0 {
        StartsWriter(form);
      } else {
        AsyncStep(form, i - 1);
      }
    }
    assert events[7] == Async(Events(form)[6]);
    forall i: nat | i < 7 && events[..7][i].Async? && events[..7][i].ev.Accept? ensures events[..7][i].ev.throughTable {
      assert events[i] == Async(Events(form)[i - 1]);
    }
    SecondVersion(form);
  }

  lemma SecondVersion(form: Stored)
    ensures 2 in VersionsOf(FilesAt(form, 2))
  {
    assert ManifestPath(2) in FilesAt(form, 2);
  }

  lemma AsyncStep(form: Stored, i: nat)
    requires i < 7 && Steps(form, i)
    ensures Next(ENCODER, StateAt(form, i + 1), Async(Events(form)[i]), StateAt(form, i + 2))
  {
    hide Enabled, FilesAfter, LogAfter, WriterAfter, Events, Writers, FilesAt, LogAt, CreatedMem;
  }

  /** Both limits are reached in this run. Behind the flush, an insert through the table as it was
      created commits and is not safe; and of the two accepted batches, the one from before the
      close is kept and the racing one is lost. */
  lemma LimitsAreReached()
    returns (states: seq<System>, events: seq<SystemEvent>, g: Fragment, after: Files, mem: Memory)
    ensures |states| == 9 && IsRun(ENCODER, map[], states, events)
    ensures InsertEffect(ENCODER, states[3].files, states[3].mem, BATCH, InsertOutcome.Committed(g), after, mem)
    ensures !SafeAppend(states[3].files, after, g)
    ensures states[8].writer.Some? && states[8].writer.value.closeOk == Some(true)
    ensures var w := states[8].writer.value;
      && w.accepted == [BATCH, BATCH]
      && InLatestManifest(ENCODER, states[8], w, 0) && !InLatestManifest(ENCODER, states[8], w, 1)
  {
    hide IsRun, InsertEffect, SafeAppend, InLatestManifest, StoredForm, AfterPublish, Written;
    states, events := ReachesStop();
    var form := Stores();
    g := FragmentWith(0, form);
    var m := Manifest(2, SCHEMA, [g], 0);
    after := Written(states[3].files, g, form, m);
    mem := Published(CreatedMem().(nextFragmentId := 1), m);
    StaleInsert(states[3].files, form);
    InsertSafeExactly(ENCODER, map[], states, events, 3, BATCH, g, after, mem);
    CloseKeepsExactly(ENCODER, map[], states, events, 8, 0);
    CloseKeepsExactly(ENCODER, map[], states, events, 8, 1);
  }

  /** The flush over the table's own insert: both commit version 2. */
  lemma SecondFlush(form: Stored)
    requires StoredForm(ENCODER, SCHEMA, 1, Int32s([7])) == Success(form) && form.rows == 1
    ensures var g, f := FragmentWith(0, form), FragmentWith(1, form);
      var m, n := Manifest(2, SCHEMA, [g], 0), Manifest(2, SCHEMA, [g, f], 1);
      var after := Written(CreatedFiles(), g, form, m);
      && FlushEffect(ENCODER, after, WriterMemory([], 1, 2).(current := Some(BATCH)), Flushed(f, n),
                     Written(after, f, form, n), WriterMemory([], 2, 3))
      && !Frozen(after, Written(after, f, form, n))
  {
    hide FlushEffect, StoredForm;
    var g, f := FragmentWith(0, form), FragmentWith(1, form);
    var m, n := Manifest(2, SCHEMA, [g], 0), Manifest(2, SCHEMA, [g, f], 1);
    var after := Written(CreatedFiles(), g, form, m);
    Created();
    OneMoreVersion(CreatedFiles(), after, {DataPath(0, 1)}, 2, m);
    NewestOf(after, 2);
    assert [g] + [f] == [g, f];
    FlushesOne(after, form, n);
    assert ReadManifest(after, 2) == Some(m) && ReadManifest(Written(after, f, form, n), 2) == Some(n);
    assert 2 in VersionsOf(after) && [g] != [g, f];
  }

  /** An insert beside the running writer is safe as a step, and the writer's next flush rewrites
      the version that it committed. */
  lemma FlushRewritesInsert()
    returns (states: seq<System>, events: seq<SystemEvent>, g: Fragment, after: Files, mem: Memory,
             f: Fragment, m: Manifest, later: Files, w: WriterMem)
    ensures |states| == 9 && IsRun(ENCODER, map[], states, events) && states[2].writer.Some?
    ensures InsertEffect(ENCODER, states[2].files, states[2].mem, BATCH, InsertOutcome.Committed(g), after, mem)
    ensures SafeAppend(states[2].files, after, g)
    ensures CanTake(states[2].writer.value.mem)
    ensures FlushEffect(ENCODER, after, TakeOne(states[2].writer.value.mem), Flushed(f, m), later, w)
    ensures !Frozen(after, later)
  {
    hide IsRun, InsertEffect, SafeAppend, FlushEffect, StoredForm, AfterPublish, Written, Frozen,
      Accumulates, Accumulated;
    states, events := ReachesStop();
    var form := Stores();
    g, f := FragmentWith(0, form), FragmentWith(1, form);
    var first := Manifest(2, SCHEMA, [g], 0);
    m, w := Manifest(2, SCHEMA, [g, f], 1), WriterMemory([], 2, 3);
    after := Written(CreatedFiles(), g, form, first);
    later := Written(after, f, form, m);
    mem := Published(CreatedMem().(nextFragmentId := 1), first);
    Created();
    TakesOne();
    StaleInsert(CreatedFiles(), form);
    SecondFlush(form);
    InsertSafeExactly(ENCODER, map[], states, events, 2, BATCH, g, after, mem);
  }
}
