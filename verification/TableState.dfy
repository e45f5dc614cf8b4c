/** What the two writers of a table keep true of the disk: versions only grow, snapshots are
    frozen, and the fragments of every version are the committed batches in order. */
module TableState {
  import opened Common
  import opened Columns
  import opened Store
  import opened Versions
  import opened Fragments
  import opened ManifestStore
  import M = MiniBlock

  /** A batch as it was committed: with the schema its columns were written under. */
  datatype LogEntry = LogEntry(schema: Schema, batch: RecordBatch)

  ghost function LatestManifest(files: Files): Option<Manifest> {
    if VersionsOf(files) == {} then None else ReadManifest(files, Newest(VersionsOf(files)))
  }

  // ---------- Invariant ----------

  ghost predicate VersionsReadable(files: Files, nextVersion: int) {
    && VersionsOf(files) != {}
    && forall v <- VersionsOf(files) ::
         0 <= v < nextVersion && ReadManifest(files, v).Some? && ReadManifest(files, v).value.version == v
  }

  /** Later versions only append fragments. */
  ghost predicate FragmentsGrow(files: Files) {
    forall v, w :: (v in VersionsOf(files) && w in VersionsOf(files) && v <= w &&
                    ReadManifest(files, v).Some? && ReadManifest(files, w).Some?) ==>
      ReadManifest(files, v).value.fragments <= ReadManifest(files, w).value.fragments
  }

  /** The fragments are the log entries, on disk, under IDs already used. */
  ghost predicate FragmentsAreLog(
    files: Files, e: M.Encoder, fragments: seq<Fragment>, maxFragmentId: int, log: seq<LogEntry>, nextFragmentId: int)
  {
    && |fragments| == |log|
    && forall i :: 0 <= i < |fragments| ==>
         && fragments[i].id < nextFragmentId && fragments[i].id <= maxFragmentId
         && IsFragmentOf(fragments[i], e, log[i].schema, log[i].batch)
         && ColumnsStored(files, e, log[i].schema, fragments[i].id, log[i].batch.columns)
  }

  ghost predicate DiskInv(files: Files, e: M.Encoder, log: seq<LogEntry>, nextVersion: int, nextFragmentId: int) {
    && VersionsReadable(files, nextVersion)
    && FragmentsGrow(files)
    && var latest := ReadManifest(files, Newest(VersionsOf(files))).value;
       FragmentsAreLog(files, e, latest.fragments, latest.maxFragmentId, log, nextFragmentId)
  }

  /** The data files a manifest refers to. */
  ghost predicate Refers(m: Manifest, p: Path) {
    exists i, j :: 0 <= i < |m.fragments| && 0 <= j < |m.fragments[i].dataFiles| &&
      m.fragments[i].dataFiles[j].path == p
  }

  /** Every manifest on disk, and every data file it refers to, is still there unchanged. */
  ghost predicate Frozen(before: Files, after: Files) {
    forall v <- VersionsOf(before) :: ReadManifest(before, v).Some? ==>
      && ReadManifest(after, v) == ReadManifest(before, v)
      && forall p :: Refers(ReadManifest(before, v).value, p) ==> p in before && p in after && after[p] == before[p]
  }

  lemma FrozenTransitive(a: Files, b: Files, c: Files)
    requires Frozen(a, b) && Frozen(b, c)
    ensures Frozen(a, c)
  {
    forall v | v in VersionsOf(a) && ReadManifest(a, v).Some?
      ensures ReadManifest(c, v) == ReadManifest(a, v)
      ensures forall p :: Refers(ReadManifest(a, v).value, p) ==> p in a && p in c && c[p] == a[p]
    {
      assert ManifestPath(v) in b;
      assert v in VersionsOf(b);
    }
  }

  // ---------- Consequences ----------

  /** All data files of all versions lie under fragment IDs below the next one. */
  lemma ReferredPaths(
    files: Files, e: M.Encoder, log: seq<LogEntry>, nextVersion: int, nextFragmentId: int, v: int, p: Path)
    requires DiskInv(files, e, log, nextVersion, nextFragmentId) && v in VersionsOf(files)
    requires Refers(ReadManifest(files, v).value, p)
    ensures p.DataPath? && p.fragmentId < nextFragmentId && p in files
  {
    hide ColumnsStored, StoredForm, IsMaxRows;
    var m, latest := ReadManifest(files, v).value, ReadManifest(files, Newest(VersionsOf(files))).value;
    var i, j :| 0 <= i < |m.fragments| && 0 <= j < |m.fragments[i].dataFiles| && m.fragments[i].dataFiles[j].path == p;
    assert m.fragments <= latest.fragments;
    assert m.fragments[i] == latest.fragments[i];
    StoredFile(files, e, log[i].schema, latest.fragments[i], log[i].batch, j);
  }

  lemma StoredFile(files: Files, e: M.Encoder, s: Schema, f: Fragment, batch: RecordBatch, j: nat)
    requires IsFragmentOf(f, e, s, batch) && ColumnsStored(files, e, s, f.id, batch.columns)
    requires j < |f.dataFiles|
    ensures f.dataFiles[j].path == DataPath(f.id, f.dataFiles[j].columnId) && f.dataFiles[j].path in files
  {
    hide StoredForm;
    assert f.dataFiles[j].columnId in batch.columns;
  }

  /** Writing data under unused fragment IDs and manifests under unused versions freezes
      everything that is there. */
  lemma FreshWritesFreeze(
    before: Files, after: Files, e: M.Encoder, log: seq<LogEntry>, nextVersion: int, nextFragmentId: int,
    columns: set<int>, withManifest: bool)
    requires DiskInv(before, e, log, nextVersion, nextFragmentId)
    requires ChangedOnly(before, after,
               PathsOf(nextFragmentId, columns) + if withManifest then {ManifestPath(nextVersion)} else {})
    ensures Frozen(before, after)
  {
    forall v | v in VersionsOf(before)
      ensures ReadManifest(after, v) == ReadManifest(before, v)
      ensures forall p :: Refers(ReadManifest(before, v).value, p) ==>
        p in before && p in after && after[p] == before[p]
    {
      assert ManifestPath(v) !in PathsOf(nextFragmentId, columns) + {ManifestPath(nextVersion)};
      forall p | Refers(ReadManifest(before, v).value, p) ensures p in before && p in after && after[p] == before[p] {
        ReferredPaths(before, e, log, nextVersion, nextFragmentId, v, p);
        assert p !in PathsOf(nextFragmentId, columns) + {ManifestPath(nextVersion)};
      }
    }
  }

  lemma StoredStays(
    before: Files, after: Files, e: M.Encoder, s: Schema, id: int, columns: map<int, Column>, paths: set<Path>)
    requires ColumnsStored(before, e, s, id, columns) && ChangedOnly(before, after, paths)
    requires forall c <- columns.Keys :: DataPath(id, c) !in paths
    ensures ColumnsStored(after, e, s, id, columns)
  {
    hide StoredForm;
  }

  lemma LogStays(
    before: Files, after: Files, e: M.Encoder, fragments: seq<Fragment>, maxFragmentId: int, log: seq<LogEntry>,
    nextFragmentId: int, paths: set<Path>)
    requires FragmentsAreLog(before, e, fragments, maxFragmentId, log, nextFragmentId)
    requires ChangedOnly(before, after, paths)
    requires forall id, c :: id < nextFragmentId ==> DataPath(id, c) !in paths
    ensures FragmentsAreLog(after, e, fragments, maxFragmentId, log, nextFragmentId)
  {
    hide IsFragmentOf, ColumnsStored, ChangedOnly;
    forall i | 0 <= i < |fragments|
      ensures ColumnsStored(after, e, log[i].schema, fragments[i].id, log[i].batch.columns)
    {
      StoredStays(before, after, e, log[i].schema, fragments[i].id, log[i].batch.columns, paths);
    }
  }

  // ---------- Steps on disk ----------

  /** A failed data write, or one whose manifest never came, leaves the invariant alone. */
  lemma DataWriteKeepsDisk(
    before: Files, after: Files, e: M.Encoder, log: seq<LogEntry>, nextVersion: int, nextFragmentId: int,
    columns: set<int>)
    requires DiskInv(before, e, log, nextVersion, nextFragmentId)
    requires ChangedOnly(before, after, PathsOf(nextFragmentId, columns))
    ensures DiskInv(after, e, log, nextVersion, nextFragmentId)
    ensures VersionsOf(after) == VersionsOf(before)
    ensures Frozen(before, after)
  {
    hide IsFragmentOf, ColumnsStored;
    SameManifests(before, after, PathsOf(nextFragmentId, columns));
    var latest := ReadManifest(before, Newest(VersionsOf(before))).value;
    LogStays(before, after, e, latest.fragments, latest.maxFragmentId, log, nextFragmentId,
             PathsOf(nextFragmentId, columns));
    FreshWritesFreeze(before, after, e, log, nextVersion, nextFragmentId, columns, false);
  }

  lemma SameManifests(before: Files, after: Files, paths: set<Path>)
    requires ChangedOnly(before, after, paths) && forall p <- paths :: p.DataPath?
    ensures VersionsOf(after) == VersionsOf(before)
    ensures forall v :: ReadManifest(after, v) == ReadManifest(before, v)
  {
    forall v ensures v in VersionsOf(after) <==> v in VersionsOf(before) {
      assert ManifestPath(v) !in paths;
    }
    forall v ensures ReadManifest(after, v) == ReadManifest(before, v) {
      assert ManifestPath(v) !in paths;
    }
  }

  /** Skipping versions and fragment IDs is always allowed. */
  lemma CountersMayGrow(
    files: Files, e: M.Encoder, log: seq<LogEntry>, v: int, f: int, v': int, f': int)
    requires DiskInv(files, e, log, v, f) && v <= v' && f <= f'
    ensures DiskInv(files, e, log, v', f')
  {
    hide IsFragmentOf, ColumnsStored, FragmentsGrow;
  }

  /** Adding a manifest under a fresh version. */
  lemma NewVersion(before: Files, after: Files, m: Manifest, paths: set<Path>)
    requires VersionsReadable(before, m.version) && FragmentsGrow(before)
    requires ChangedOnly(before, after, paths + {ManifestPath(m.version)}) && forall p <- paths :: p.DataPath?
    requires ManifestPath(m.version) in after && after[ManifestPath(m.version)] == ManifestContent(m)
    requires ReadManifest(before, Newest(VersionsOf(before))).value.fragments <= m.fragments
    ensures VersionsOf(after) == VersionsOf(before) + {m.version} && Newest(VersionsOf(after)) == m.version
    ensures VersionsReadable(after, m.version + 1) && FragmentsGrow(after)
  {
    forall v ensures v in VersionsOf(after) <==> v in VersionsOf(before) + {m.version} {
      assert ManifestPath(v) !in paths;
    }
    forall v | v in VersionsOf(before) ensures ReadManifest(after, v) == ReadManifest(before, v) {
      assert ManifestPath(v) !in paths;
    }
    assert ReadManifest(after, m.version) == Some(m);
    forall v, w | v in VersionsOf(after) && w in VersionsOf(after) && v <= w
      ensures ReadManifest(after, v).value.fragments <= ReadManifest(after, w).value.fragments
    {
      if w == m.version && v != w {
        var last := Newest(VersionsOf(before));
        assert v <= last;
        assert ReadManifest(before, v).value.fragments <= ReadManifest(before, last).value.fragments;
      } else if w != m.version {
        assert v in VersionsOf(before) && w in VersionsOf(before);
      }
    }
  }

  /** Committing a batch as a new fragment in a new version. */
  lemma FragmentCommitKeepsDisk(
    before: Files, after: Files, e: M.Encoder, log: seq<LogEntry>, nextVersion: int, nextFragmentId: int,
    entry: LogEntry, f: Fragment, m: Manifest)
    requires DiskInv(before, e, log, nextVersion, nextFragmentId) && m.version == nextVersion >= 0
    requires f.id == nextFragmentId && IsFragmentOf(f, e, entry.schema, entry.batch)
    requires ColumnsStored(after, e, entry.schema, f.id, entry.batch.columns)
    requires ChangedOnly(before, after, PathsOf(nextFragmentId, entry.batch.columns.Keys) + {ManifestPath(nextVersion)})
    requires ManifestPath(nextVersion) in after && after[ManifestPath(nextVersion)] == ManifestContent(m)
    requires var latest := ReadManifest(before, Newest(VersionsOf(before))).value;
      m.fragments == latest.fragments + [f] && m.maxFragmentId >= f.id
    ensures DiskInv(after, e, log + [entry], nextVersion + 1, nextFragmentId + 1)
    ensures VersionsOf(after) == VersionsOf(before) + {nextVersion} && Newest(VersionsOf(after)) == nextVersion
    ensures Frozen(before, after)
  {
    hide IsFragmentOf, ColumnsStored, FragmentsGrow;
    var latest := ReadManifest(before, Newest(VersionsOf(before))).value;
    var data := PathsOf(nextFragmentId, entry.batch.columns.Keys);
    NewVersion(before, after, m, data);
    LogStays(before, after, e, latest.fragments, latest.maxFragmentId, log, nextFragmentId,
             data + {ManifestPath(nextVersion)});
    FreshWritesFreeze(before, after, e, log, nextVersion, nextFragmentId, entry.batch.columns.Keys, true);
  }

  /** Committing a version with the same fragments. */
  lemma SchemaCommitKeepsDisk(
    before: Files, after: Files, e: M.Encoder, log: seq<LogEntry>, nextVersion: int, nextFragmentId: int, m: Manifest)
    requires DiskInv(before, e, log, nextVersion, nextFragmentId) && m.version == nextVersion >= 0
    requires after == before[ManifestPath(nextVersion) := ManifestContent(m)]
    requires var latest := ReadManifest(before, Newest(VersionsOf(before))).value;
      m.fragments == latest.fragments && m.maxFragmentId == latest.maxFragmentId
    ensures DiskInv(after, e, log, nextVersion + 1, nextFragmentId)
    ensures VersionsOf(after) == VersionsOf(before) + {nextVersion} && Newest(VersionsOf(after)) == nextVersion
    ensures Frozen(before, after)
  {
    hide IsFragmentOf, ColumnsStored, FragmentsGrow;
    NewVersion(before, after, m, {});
    var latest := ReadManifest(before, Newest(VersionsOf(before))).value;
    LogStays(before, after, e, latest.fragments, latest.maxFragmentId, log, nextFragmentId,
             {ManifestPath(nextVersion)});
    assert PathsOf(nextFragmentId, {}) + {ManifestPath(nextVersion)} == {ManifestPath(nextVersion)};
    FreshWritesFreeze(before, after, e, log, nextVersion, nextFragmentId, {}, true);
  }

  // ---------- Reading a version ----------

  /** Column c of the entry was written with type t and can be decoded. */
  ghost predicate KeepsColumn(entry: LogEntry, e: M.Encoder, c: int, t: DataType) {
    && c in entry.batch.columns
    && FieldByID(entry.schema, c).Some? && FieldByID(entry.schema, c).value.dataType == t
    && FitsPage(e, entry.batch.columns[c], t)
  }

  /** m is the manifest of a version whose fragments are the first log entries. */
  lemma VersionIsLogPrefix(
    files: Files, e: M.Encoder, log: seq<LogEntry>, nextVersion: int, nextFragmentId: int, v: int, m: Manifest)
    requires DiskInv(files, e, log, nextVersion, nextFragmentId)
    requires ReadManifest(files, v) == Some(m)
    ensures |m.fragments| <= |log|
    ensures forall i :: 0 <= i < |m.fragments| ==>
      && IsFragmentOf(m.fragments[i], e, log[i].schema, log[i].batch)
      && ColumnsStored(files, e, log[i].schema, m.fragments[i].id, log[i].batch.columns)
  {
    hide IsFragmentOf, ColumnsStored;
    assert v in VersionsOf(files);
    var latest := ReadManifest(files, Newest(VersionsOf(files))).value;
    assert m.fragments <= latest.fragments;
    forall i | 0 <= i < |m.fragments| ensures m.fragments[i] == latest.fragments[i] {
    }
  }

  /** Reading a kept column at any version, fragment by fragment, gives the batches committed
      up to that version, in order. */
  lemma VersionReadsLog(
    files: Files, e: M.Encoder, log: seq<LogEntry>, nextVersion: int, nextFragmentId: int,
    v: int, m: Manifest, reader: Schema, c: int, t: DataType)
    requires DiskInv(files, e, log, nextVersion, nextFragmentId)
    requires ReadManifest(files, v) == Some(m) && M.Lossless(e.compressor)
    requires forall i :: 0 <= i < |m.fragments| && i < |log| ==> KeepsColumn(log[i], e, c, t)
    requires FieldByID(reader, c).Some? && FieldByID(reader, c).value.dataType == t
    ensures |m.fragments| <= |log|
    ensures forall i :: 0 <= i < |m.fragments| ==>
      c in log[i].batch.columns &&
      ReadColumn(files, e, reader, m.fragments[i], c) == M.Value(log[i].batch.columns[c])
  {
    hide *;
    VersionIsLogPrefix(files, e, log, nextVersion, nextFragmentId, v, m);
    forall i | 0 <= i < |m.fragments|
      ensures c in log[i].batch.columns
      ensures ReadColumn(files, e, reader, m.fragments[i], c) == M.Value(log[i].batch.columns[c])
    {
      KeptColumnReads(files, e, log[i], m.fragments[i], reader, c, t);
    }
  }

  lemma KeptColumnReads(
    files: Files, e: M.Encoder, entry: LogEntry, f: Fragment, later: Schema, c: int, t: DataType)
    requires M.Lossless(e.compressor) && KeepsColumn(entry, e, c, t)
    requires IsFragmentOf(f, e, entry.schema, entry.batch)
    requires ColumnsStored(files, e, entry.schema, f.id, entry.batch.columns)
    requires FieldByID(later, c).Some? && FieldByID(later, c).value.dataType == t
    ensures c in entry.batch.columns
    ensures ReadColumn(files, e, later, f, c) == M.Value(entry.batch.columns[c])
  {
    hide M.Lossless, IsFragmentOf, ColumnsStored, FitsPage, ReadColumn, FieldByID;
    ReadsWhatWasWritten(files, e, entry.schema, entry.batch, f, later, c, t);
  }

  /** Every column of the batch holds as many whole rows as the batch says. */
  ghost predicate Rectangular(entry: LogEntry) {
    && entry.batch.columns != map[]
    && forall c <- entry.batch.columns.Keys :: FieldByID(entry.schema, c).Some? ==>
         HoldsRows(entry.batch.columns[c], FieldByID(entry.schema, c).value, entry.batch.numRows)
  }

  /** In particular if it has the values of that many rows: for a vector column the dimension many
      for each, and one otherwise. */
  lemma FullIsRectangular(entry: LogEntry)
    requires entry.batch.columns != map[]
    requires forall c <- entry.batch.columns.Keys :: FieldByID(entry.schema, c).Some? ==>
      var w := Width(FieldByID(entry.schema, c).value);
      w > 0 && Length(entry.batch.columns[c]) == entry.batch.numRows * w
    ensures Rectangular(entry)
  {
  }

  lemma RecordedRows(f: Fragment, e: M.Encoder, entry: LogEntry, i: nat)
    requires IsFragmentOf(f, e, entry.schema, entry.batch) && Rectangular(entry) && i < |f.dataFiles|
    ensures f.dataFiles[i].numRows == entry.batch.numRows
  {
    hide M.Encode, InferNumRows, HoldsRows;
    var c := f.dataFiles[i].columnId;
    var data, field := entry.batch.columns[c], FieldByID(entry.schema, c).value;
    InferredExactly(data, field, f.dataFiles[i].numRows);
    InferredExactly(data, field, entry.batch.numRows);
  }

  /** The rows recorded with the fragment of a batch are those of the batch. */
  lemma RectangularRows(f: Fragment, e: M.Encoder, entry: LogEntry)
    requires IsFragmentOf(f, e, entry.schema, entry.batch) && Rectangular(entry)
    ensures RowsOf(f) == entry.batch.numRows
    ensures forall i :: 0 <= i < |f.dataFiles| ==> f.dataFiles[i].numRows == entry.batch.numRows
  {
    hide StoredForm, HoldsRows;
    forall i | 0 <= i < |f.dataFiles| ensures f.dataFiles[i].numRows == entry.batch.numRows {
      RecordedRows(f, e, entry, i);
    }
    HasMember(entry.batch.columns.Keys);
    var c :| c in entry.batch.columns.Keys;
    var i :| 0 <= i < |f.dataFiles| && f.dataFiles[i].columnId == c;
    if f.numRows != 0 {
      var j :| 0 <= j < |f.dataFiles| && f.dataFiles[j].numRows == f.numRows;
    }
  }

  function RowsBefore(log: seq<LogEntry>, i: nat): nat
    requires i <= |log|
  {
    if i == 0 then 0 else RowsBefore(log, i - 1) + log[i - 1].batch.numRows
  }

  /** A row's RowID is its position among the rows committed before it, in every version that
      has its fragment. */
  lemma {:induction false} RowIdIsPosition(
    files: Files, e: M.Encoder, log: seq<LogEntry>, nextVersion: int, nextFragmentId: int,
    v: int, m: Manifest, i: nat)
    requires DiskInv(files, e, log, nextVersion, nextFragmentId)
    requires ReadManifest(files, v) == Some(m) && i <= |m.fragments|
    requires forall j :: 0 <= j < |log| ==> Rectangular(log[j])
    ensures i <= |log| && RowOffset(m.fragments, i) == RowsBefore(log, i)
    decreases i
  {
    hide IsFragmentOf, ColumnsStored, Rectangular, DiskInv;
    VersionIsLogPrefix(files, e, log, nextVersion, nextFragmentId, v, m);
    if i > 0 {
      RowIdIsPosition(files, e, log, nextVersion, nextFragmentId, v, m, i - 1);
      RectangularRows(m.fragments[i - 1], e, log[i - 1]);
    }
  }
}
