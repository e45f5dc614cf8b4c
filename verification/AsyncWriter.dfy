/** The asynchronous writer: a bounded queue, an accumulating batch, and a background loop
    that flushes the batch as a new fragment in a new version. */
module AsyncWriter {
  import opened Common
  import opened Columns
  import opened Store
  import opened Versions
  import opened ManifestStore
  import opened Fragments
  import opened Batches
  import M = MiniBlock

  const QUEUE_CAPACITY := 256

  /** What a writer holds in memory. */
  datatype WriterMem = WriterMem(
    schemaRef: int,
    schema: Schema,
    maxBatchSize: int,
    queue: seq<RecordBatch>,
    current: Option<RecordBatch>,
    fragmentId: int,
    nextVersion: int)

  /** currentRows: the rows of the accumulating batch. */
  function CurrentRows(w: WriterMem): nat {
    if w.current.None? then 0 else w.current.value.numRows
  }

  datatype FlushOutcome =
    | NothingToFlush
    | FragmentFailed
    | LatestUnreadable(fragment: Fragment)
    | ManifestNotWritten(fragment: Fragment)
    | Flushed(fragment: Fragment, manifest: Manifest)

  /** flush returned nil. */
  predicate FlushOk(o: FlushOutcome) {
    o.NothingToFlush? || o.Flushed?
  }

  // ---------- What the operations do ----------

  /** Counters read from the newest manifest on disk. */
  ghost predicate StartEffect(files: Files, w: WriterMem) {
    if VersionsOf(files) == {} then w.nextVersion == 1 && w.fragmentId == 0
    else
      var latest := Newest(VersionsOf(files));
      && w.nextVersion == latest + 1
      && (ReadManifest(files, latest).Some? ==> w.fragmentId == ReadManifest(files, latest).value.maxFragmentId + 1)
  }

  /** The batch that the next one is merged into. */
  function Base(w: WriterMem): RecordBatch {
    if w.current.Some? then w.current.value else RecordBatch(w.schemaRef, map[], 0)
  }

  ghost predicate CanTake(w: WriterMem) {
    w.queue != [] && Accumulates(Base(w), w.queue[0])
  }

  /** Receiving the first queued batch and merging it. */
  ghost function TakeOne(w: WriterMem): WriterMem
    requires CanTake(w)
  {
    w.(queue := w.queue[1..], current := Some(Accumulated(Base(w), w.queue[0])))
  }

  /** Merging a batch that does not fit stops half way: only some of its columns are merged,
      and its rows are not counted. */
  ghost predicate HalfMerged(w: WriterMem, batch: RecordBatch, current: RecordBatch) {
    exists done: set<int> ::
      && done < batch.columns.Keys
      && var part := RecordBatch(batch.schemaRef, map c | c in done :: batch.columns[c], 0);
         Accumulates(Base(w), part) && current == Accumulated(Base(w), part)
  }

  /** Draining merges the whole queue, one batch after the other. */
  ghost predicate Drains(w: WriterMem)
    decreases |w.queue|
  {
    w.queue == [] || (CanTake(w) && Drains(TakeOne(w)))
  }

  ghost function Drained(w: WriterMem): WriterMem
    requires Drains(w)
    decreases |w.queue|
  {
    if w.queue == [] then w else Drained(TakeOne(w))
  }

  /** A batch that does not fit is taken from the queue and merged half way. */
  ghost predicate StopsHalfWay(w: WriterMem, w': WriterMem) {
    && w.queue != [] && w'.current.Some?
    && HalfMerged(w, w.queue[0], w'.current.value)
    && w' == w.(queue := w.queue[1..], current := w'.current)
  }

  /** drainPending: merges the queue, up to and half way into the first batch that does not fit. */
  ghost predicate DrainEffect(w: WriterMem, w': WriterMem)
    decreases |w.queue|
  {
    if w.queue == [] then w' == w
    else if CanTake(w) then DrainEffect(TakeOne(w), w')
    else StopsHalfWay(w, w')
  }

  /** When everything fits, draining has one outcome. */
  lemma {:induction false} DrainMergesAll(w: WriterMem, w': WriterMem)
    requires Drains(w)
    ensures DrainEffect(w, w') <==> w' == Drained(w)
    decreases |w.queue|
  {
    hide Accumulates, Accumulated;
    if w.queue != [] {
      DrainMergesAll(TakeOne(w), w');
    }
  }

  /** The manifest a flush commits: the newest one on disk with one more fragment. */
  ghost function NextManifest(files: Files, w: WriterMem, f: Fragment): Option<Manifest> {
    if VersionsOf(files) == {} then Some(Manifest(w.nextVersion, w.schema, [f], f.id))
    else
      match ReadManifest(files, Newest(VersionsOf(files)))
      case None => None
      case Some(latest) =>
        Some(Manifest(w.nextVersion, w.schema, latest.fragments + [f], Max(f.id, latest.maxFragmentId)))
  }

  ghost predicate FlushEffect(
    e: M.Encoder, before: Files, w: WriterMem, o: FlushOutcome, after: Files, w': WriterMem)
  {
    if w.current.None? || w.current.value.numRows == 0 then o.NothingToFlush? && after == before && w' == w
    else
      var batch := w.current.value;
      var data := PathsOf(w.fragmentId, batch.columns.Keys);
      var counted := w.(fragmentId := w.fragmentId + 1);
      match o
      case NothingToFlush => false
      case FragmentFailed => ChangedOnly(before, after, data) && w' == w
      case LatestUnreadable(f) =>
        ChangedOnly(before, after, data) && NextManifest(before, w, f).None? && w' == counted
      case ManifestNotWritten(f) =>
        ChangedOnly(before, after, data) && NextManifest(before, w, f).Some? && w' == counted
      case Flushed(f, m) =>
        && ChangedOnly(before, after, data + {ManifestPath(w.nextVersion)})
        && f.id == w.fragmentId && IsFragmentOf(f, e, w.schema, batch)
        && ColumnsStored(after, e, w.schema, f.id, batch.columns)
        && NextManifest(before, w, f) == Some(m) && ReadManifest(after, w.nextVersion) == Some(m)
        && w' == counted.(nextVersion := w.nextVersion + 1, current := None)
  }

  // ---------- The writer ----------

  class AsyncWriter {
    const store: ObjectStore
    const manifestStore: ManifestStore
    const schema: Schema
    const schemaRef: int
    const encoder: M.Encoder
    const maxBatchSize: int
    var batchCh: seq<RecordBatch>
    var currentBatch: Option<RecordBatch>
    var currentRows: nat
    var fragmentID: int
    var nextVersion: int
    var closed: bool
    var done: bool

    ghost predicate Valid()
      reads this
    {
      && manifestStore.store == store
      && |batchCh| <= QUEUE_CAPACITY
      && currentRows == CurrentRows(Mem())
    }

    ghost function Mem(): WriterMem
      reads this
    {
      WriterMem(schemaRef, schema, maxBatchSize, batchCh, currentBatch, fragmentID, nextVersion)
    }

    constructor (store: ObjectStore, manifestStore: ManifestStore, schema: Schema, schemaRef: int,
                 encoder: M.Encoder, maxBatchSize: int)
      requires manifestStore.store == store
      ensures Valid() && this.store == store && !closed && !done
      ensures Mem() == WriterMem(schemaRef, schema, maxBatchSize, [], None, 0, 0)
    {
      this.store, this.manifestStore := store, manifestStore;
      this.schema, this.schemaRef, this.encoder, this.maxBatchSize := schema, schemaRef, encoder, maxBatchSize;
      batchCh, currentBatch, currentRows, fragmentID, nextVersion := [], None, 0, 0, 0;
      closed, done := false, false;
    }

    method Start()
      requires Valid()
      modifies this
      ensures Valid() && StartEffect(store.files, Mem())
      ensures batchCh == old(batchCh) && currentBatch == old(currentBatch) && closed == old(closed) && done == old(done)
    {
      var versions := manifestStore.ListVersions();
      ListsExtremes(versions, VersionsOf(store.files));
      if |versions| == 0 {
        nextVersion, fragmentID := 1, 0;
      } else {
        var latest := versions[|versions| - 1];
        nextVersion := latest + 1;
        var m := manifestStore.Read(latest);
        if m.Some? {
          fragmentID := m.value.maxFragmentId + 1;
        }
      }
    }

    /** Enqueues without blocking. With room and an open, running writer it must accept; a
        closed writer with room may accept or refuse, as select picks any ready case. */
    method Write(batch: RecordBatch) returns (ok: bool)
      requires Valid()
      modifies this`batchCh
      ensures Valid()
      ensures ok ==> |old(batchCh)| < QUEUE_CAPACITY && batchCh == old(batchCh) + [batch]
      ensures !ok ==> batchCh == old(batchCh) && (|batchCh| == QUEUE_CAPACITY || closed || done)
    {
      var room := |batchCh| < QUEUE_CAPACITY;
      var refuse := *;
      if room && !(refuse && (closed || done)) {
        batchCh := batchCh + [batch];
        return true;
      }
      return false;
    }

    /** Merges a batch into the current one, column by column in no particular order. */
    method Accumulate(batch: RecordBatch) returns (ok: bool)
      requires Valid()
      modifies this`currentBatch, this`currentRows
      ensures Valid()
      ensures ok <==> Accumulates(Base(old(Mem())), batch)
      ensures ok ==> Mem() == old(Mem()).(current := Some(Accumulated(Base(old(Mem())), batch)))
      ensures !ok ==> currentRows == old(currentRows) && currentBatch.Some?
                      && HalfMerged(old(Mem()), batch, currentBatch.value)
    {
      hide MergeColumn, SameKind;
      ghost var base := Base(Mem());
      if currentBatch.None? {
        currentBatch := Some(RecordBatch(schemaRef, map[], 0));
        currentRows := 0;
      }
      var columns, left := currentBatch.value.columns, batch.columns.Keys;
      assert columns == base.columns;
      while left != {}
        invariant left <= batch.columns.Keys
        invariant currentBatch.Some? && currentBatch.value == base && currentRows == old(currentRows)
        invariant PartlyMerged(base, batch, batch.columns.Keys - left, columns)
      {
        HasMember(left);
        var c :| c in left;
        var next := WithColumn(columns, c, batch.columns[c]);
        if next.Failure? {
          HalfMergedBatch(old(Mem()), batch, batch.columns.Keys - left, columns, c);
          currentBatch := Some(currentBatch.value.(columns := columns));
          return false;
        }
        MergeOneMore(base, batch, batch.columns.Keys - left, columns, c);
        assert batch.columns.Keys - left + {c} == batch.columns.Keys - (left - {c});
        columns := next.value;
        left := left - {c};
      }
      assert batch.columns.Keys - left == batch.columns.Keys;
      FullyMerged(base, batch, columns);
      currentRows := currentRows + batch.numRows;
      currentBatch := Some(RecordBatch(currentBatch.value.schemaRef, columns, currentRows));
      return true;
    }

    /** The batch arm of the loop: receive, merge, and flush once the batch is large enough. */
    method TakeBatch() returns (ok: bool, ghost flushed: bool, ghost o: FlushOutcome)
      requires Valid() && batchCh != []
      modifies this, store
      ensures Valid()
      ensures ok <==> old(CanTake(Mem()))
      ensures ok ==>
        var taken := TakeOne(old(Mem()));
        && flushed == (maxBatchSize > 0 && CurrentRows(taken) >= maxBatchSize)
        && if flushed then FlushEffect(encoder, old(store.files), taken, o, store.files, Mem())
           else store.files == old(store.files) && Mem() == taken
      ensures !ok ==> store.files == old(store.files) && StopsHalfWay(old(Mem()), Mem())
      ensures closed == old(closed) && done == old(done)
    {
      hide Accumulates, Accumulated, FlushEffect, HalfMerged;
      flushed, o := false, NothingToFlush;
      var batch := batchCh[0];
      batchCh := batchCh[1..];
      ok := Accumulate(batch);
      if !ok {
        HalfMergedAnyQueue(old(Mem()), old(batchCh)[1..], batch, currentBatch.value);
        return;
      }
      if maxBatchSize > 0 && currentRows >= maxBatchSize {
        flushed := true;
        var err;
        err, o := Flush();
      }
    }

    /** Merges everything that waits in the queue. */
    method DrainPending()
      requires Valid()
      modifies this`batchCh, this`currentBatch, this`currentRows
      ensures Valid()
      ensures DrainEffect(old(Mem()), Mem())
    {
      hide Accumulates, Accumulated, HalfMerged;
      while batchCh != []
        invariant Valid()
        invariant forall w' :: DrainEffect(Mem(), w') ==> DrainEffect(old(Mem()), w')
        decreases |batchCh|
      {
        ghost var w := Mem();
        var batch := batchCh[0];
        batchCh := batchCh[1..];
        var ok := Accumulate(batch);
        if !ok {
          HalfMergedAnyQueue(w, w.queue[1..], batch, currentBatch.value);
          assert DrainEffect(w, Mem());
          return;
        }
      }
    }

    /** The flush arm of the loop: drain, flush and answer. */
    method HandleFlush() returns (ok: bool, ghost o: FlushOutcome)
      requires Valid()
      modifies this, store
      ensures Valid() && closed == old(closed) && done == old(done)
      ensures exists drained ::
        DrainEffect(old(Mem()), drained) && FlushEffect(encoder, old(store.files), drained, o, store.files, Mem())
      ensures ok <==> FlushOk(o)
    {
      hide FlushEffect, DrainEffect;
      DrainPending();
      ghost var drained := Mem();
      ok, o := Flush();
      assert DrainEffect(old(Mem()), drained);
    }

    /** The close arm of the loop: drain, flush, keep the error and stop. */
    method HandleClose() returns (closeOk: bool, ghost o: FlushOutcome)
      requires Valid()
      modifies this, store
      ensures Valid() && closed == old(closed) && done
      ensures exists drained ::
        DrainEffect(old(Mem()), drained) && FlushEffect(encoder, old(store.files), drained, o, store.files, Mem())
      ensures closeOk <==> FlushOk(o)
    {
      closeOk, o := HandleFlush();
      done := true;
    }

    /** The timer arm of the loop; its error is dropped. */
    method HandleTimer() returns (ghost o: FlushOutcome)
      requires Valid()
      modifies this, store
      ensures Valid() && closed == old(closed) && done == old(done)
      ensures FlushEffect(encoder, old(store.files), old(Mem()), o, store.files, Mem())
    {
      o := NothingToFlush;
      if currentBatch.Some? && currentRows > 0 {
        var ok;
        ok, o := Flush();
      }
    }

    /** Writes the current batch as a fragment and commits a version with it. */
    method Flush() returns (ok: bool, ghost o: FlushOutcome)
      requires Valid()
      modifies this, store
      ensures Valid() && closed == old(closed) && done == old(done)
      ensures FlushEffect(encoder, old(store.files), old(Mem()), o, store.files, Mem())
      ensures ok <==> FlushOk(o)
    {
      if currentBatch.None? || currentRows == 0 {
        return true, NothingToFlush;
      }
      hide FragmentStored, NextManifest, FlushEffect;
      ghost var before, w := store.files, Mem();
      var batch := currentBatch.value;
      var frag := WriteFragment(batch);
      ghost var stored := store.files;
      if frag.None? {
        FlushForm(before, stored, stored, encoder, w, batch, frag, FragmentFailed);
        return false, FragmentFailed;
      }
      fragmentID := fragmentID + 1;
      ok, o := CommitFragment(frag.value);
      FlushForm(before, stored, store.files, encoder, w, batch, frag, o);
      if ok {
        nextVersion := nextVersion + 1;
        currentBatch, currentRows := None, 0;
      }
    }

    /** Reads the newest manifest and writes the next one. */
    method CommitFragment(frag: Fragment) returns (ok: bool, ghost o: FlushOutcome)
      requires Valid()
      modifies store
      ensures CommitOutcome(old(store.files), Mem(), frag, o, store.files)
      ensures ok <==> o.Flushed?
    {
      var m := Manifest(nextVersion, schema, [frag], frag.id);
      var latest := manifestStore.LatestVersion();
      if latest.Some? {
        var latestM := manifestStore.Read(latest.value);
        if latestM.None? {
          return false, LatestUnreadable(frag);
        }
        m := Manifest(nextVersion, schema, latestM.value.fragments + [frag], Max(frag.id, latestM.value.maxFragmentId));
      }
      var committed := manifestStore.Write(m);
      return committed, (if committed then Flushed(frag, m) else ManifestNotWritten(frag));
    }

    /** The fragment writer's part of a flush. */
    method WriteFragment(batch: RecordBatch) returns (r: Option<Fragment>)
      modifies store
      ensures FragmentStored(old(store.files), store.files, encoder, schema, fragmentID, batch, r)
    {
      hide ColumnsStored, ListsColumns, IsMaxRows, ChangedOnly;
      var fw := new FragmentWriter(store, schema, fragmentID, encoder);
      var written := fw.WriteBatch(batch);
      if written.Failure? {
        return None;
      }
      assert fw.dataFiles[0..] == fw.dataFiles;
      var frag := fw.Finish(batch);
      return Some(frag);
    }
  }

  /** The store after the data files of a batch were written, or some of them. */
  ghost predicate FragmentStored(
    before: Files, after: Files, e: M.Encoder, s: Schema, id: int, batch: RecordBatch, r: Option<Fragment>)
  {
    && ChangedOnly(before, after, PathsOf(id, batch.columns.Keys))
    && (r.Some? ==>
          r.value.id == id && IsFragmentOf(r.value, e, s, batch) && ColumnsStored(after, e, s, id, batch.columns))
  }

  /** The store after the attempt to commit a fragment. */
  ghost predicate CommitOutcome(before: Files, w: WriterMem, frag: Fragment, o: FlushOutcome, after: Files) {
    match o
    case LatestUnreadable(f) => f == frag && NextManifest(before, w, f).None? && after == before
    case ManifestNotWritten(f) => f == frag && NextManifest(before, w, f).Some? && after == before
    case Flushed(f, m) =>
      && f == frag && NextManifest(before, w, f) == Some(m)
      && after == before[ManifestPath(m.version) := ManifestContent(m)]
    case _ => false
  }

  /** The two halves of a flush make up its effect. */
  lemma FlushForm(
    before: Files, stored: Files, after: Files, e: M.Encoder, w: WriterMem, batch: RecordBatch,
    r: Option<Fragment>, o: FlushOutcome)
    requires w.current == Some(batch) && batch.numRows > 0
    requires FragmentStored(before, stored, e, w.schema, w.fragmentId, batch, r)
    requires var counted := w.(fragmentId := w.fragmentId + 1);
      if r.None? then o == FragmentFailed && after == stored else CommitOutcome(stored, counted, r.value, o, after)
    ensures var counted := w.(fragmentId := w.fragmentId + 1);
      FlushEffect(e, before, w, o, after,
        if o.FragmentFailed? then w
        else if o.Flushed? then counted.(nextVersion := w.nextVersion + 1, current := None)
        else counted)
  {
    hide IsFragmentOf, ColumnsStored, ChangedOnly, FragmentStored;
    UnpackStored(before, stored, e, w.schema, w.fragmentId, batch, r);
    if o.Flushed? {
      ManifestAfterFragment(before, stored, e, w.schema, w.fragmentId, batch, o.manifest);
    }
  }

  lemma UnpackStored(
    before: Files, after: Files, e: M.Encoder, s: Schema, id: int, batch: RecordBatch, r: Option<Fragment>)
    requires FragmentStored(before, after, e, s, id, batch, r)
    ensures ChangedOnly(before, after, PathsOf(id, batch.columns.Keys))
    ensures r.Some? ==>
      r.value.id == id && IsFragmentOf(r.value, e, s, batch) && ColumnsStored(after, e, s, id, batch.columns)
    ensures VersionsOf(after) == VersionsOf(before)
    ensures forall v :: ReadManifest(after, v) == ReadManifest(before, v)
  {
    hide IsFragmentOf, ColumnsStored;
    forall v ensures v in VersionsOf(after) <==> v in VersionsOf(before) {
      assert ManifestPath(v) !in PathsOf(id, batch.columns.Keys);
    }
    forall v ensures ReadManifest(after, v) == ReadManifest(before, v) {
      assert ManifestPath(v) !in PathsOf(id, batch.columns.Keys);
    }
  }

  // ---------- Merging column by column ----------

  /** columns is base with some columns of the batch merged into it. */
  ghost predicate PartlyMerged(base: RecordBatch, batch: RecordBatch, merged: set<int>, columns: map<int, Column>) {
    && merged <= batch.columns.Keys
    && columns.Keys == base.columns.Keys + merged
    && forall c <- columns.Keys ::
         if c !in merged then columns[c] == base.columns[c]
         else if c !in base.columns then columns[c] == batch.columns[c]
         else MergeColumn(base.columns[c], batch.columns[c]) == Success(columns[c])
  }

  lemma MergeOneMore(base: RecordBatch, batch: RecordBatch, merged: set<int>, columns: map<int, Column>, c: int)
    requires PartlyMerged(base, batch, merged, columns) && c in batch.columns && c !in merged
    requires WithColumn(columns, c, batch.columns[c]).Success?
    ensures PartlyMerged(base, batch, merged + {c}, WithColumn(columns, c, batch.columns[c]).value)
  {
    hide MergeColumn;
  }

  lemma HalfMergedAnyQueue(w: WriterMem, queue: seq<RecordBatch>, batch: RecordBatch, current: RecordBatch)
    requires HalfMerged(w.(queue := queue), batch, current)
    ensures HalfMerged(w, batch, current)
  {
    assert Base(w.(queue := queue)) == Base(w);
  }

  lemma HalfMergedBatch(w: WriterMem, batch: RecordBatch, merged: set<int>, columns: map<int, Column>, c: int)
    requires PartlyMerged(Base(w), batch, merged, columns) && c in batch.columns && c !in merged
    requires WithColumn(columns, c, batch.columns[c]).Failure?
    ensures HalfMerged(w, batch, Base(w).(columns := columns)) && !Accumulates(Base(w), batch)
  {
    var base := Base(w);
    var part := RecordBatch(batch.schemaRef, map d | d in merged :: batch.columns[d], 0);
    assert Accumulates(base, part);
    FullyMerged(base, part, columns);
    assert merged < batch.columns.Keys;
  }

  lemma FullyMerged(base: RecordBatch, batch: RecordBatch, columns: map<int, Column>)
    requires PartlyMerged(base, batch, batch.columns.Keys, columns)
    ensures Accumulates(base, batch) && columns == Accumulated(base, batch).columns
  {
    hide SameKind;
    forall c | c in batch.columns && c in base.columns ensures SameKind(base.columns[c], batch.columns[c]) {
      assert c in columns;
    }
    var all := Accumulated(base, batch).columns;
    assert all.Keys == columns.Keys;
    forall c | c in columns ensures all[c] == columns[c] {
    }
  }

  lemma ManifestAfterFragment(
    before: Files, stored: Files, e: M.Encoder, s: Schema, fragmentId: int, batch: RecordBatch, m: Manifest)
    requires ChangedOnly(before, stored, PathsOf(fragmentId, batch.columns.Keys))
    requires ColumnsStored(stored, e, s, fragmentId, batch.columns)
    ensures var after := stored[ManifestPath(m.version) := ManifestContent(m)];
      && ChangedOnly(before, after, PathsOf(fragmentId, batch.columns.Keys) + {ManifestPath(m.version)})
      && ColumnsStored(after, e, s, fragmentId, batch.columns)
      && ReadManifest(after, m.version) == Some(m)
  {
    hide StoredForm;
  }
}
