/** The synchronous table: inserts, schema changes, re-opening and reading the latest version. */
module Table {
  import opened Common
  import opened Store
  import opened Versions
  import opened VersionManager
  import opened ManifestStore
  import opened Fragments
  import opened Batches
  import M = MiniBlock

  const CACHE_LIMIT := 10

  /** What a table holds in memory. */
  datatype Memory = Memory(schema: Schema, nextVersion: int, nextFragmentId: int, cache: Snapshot)

  /** How an insert can end. */
  datatype InsertOutcome =
    | Rejected
    | DataFailed
    | NoManifest(fragment: Fragment)
    | ManifestFailed(fragment: Fragment)
    | Committed(fragment: Fragment)

  /** How a schema change can end. */
  datatype SchemaOutcome = Refused | ChangeFailed | Changed

  // ---------- What the operations do ----------

  function CachedLatest(c: Snapshot): Option<Manifest> {
    if c.latest < 0 || c.latest !in c.manifests then None else Some(c.manifests[c.latest])
  }

  /** The manifest an insert commits. */
  function InsertManifest(mem: Memory, latest: Manifest, f: Fragment): Manifest {
    Manifest(mem.nextVersion, mem.schema, latest.fragments + [f], f.id)
  }

  ghost function Published(mem: Memory, m: Manifest): Memory {
    mem.(nextVersion := mem.nextVersion + 1, cache := AfterPublish(mem.cache, CACHE_LIMIT, m))
  }

  /** The data files of f hold the batch, under the next fragment ID. */
  ghost predicate FragmentWritten(files: Files, e: M.Encoder, mem: Memory, batch: RecordBatch, f: Fragment) {
    && f.id == mem.nextFragmentId
    && IsFragmentOf(f, e, mem.schema, batch)
    && ColumnsStored(files, e, mem.schema, f.id, batch.columns)
  }

  ghost predicate InsertEffect(
    e: M.Encoder, before: Files, mem: Memory, batch: RecordBatch, o: InsertOutcome, after: Files, mem': Memory)
  {
    var data := PathsOf(mem.nextFragmentId, batch.columns.Keys);
    var counted := mem.(nextFragmentId := mem.nextFragmentId + 1);
    match o
    case Rejected => after == before && mem' == mem
    case DataFailed => ChangedOnly(before, after, data) && mem' == mem
    case NoManifest(f) =>
      && ChangedOnly(before, after, data) && FragmentWritten(after, e, mem, batch, f)
      && CachedLatest(mem.cache).None? && mem' == counted
    case ManifestFailed(f) =>
      && ChangedOnly(before, after, data) && FragmentWritten(after, e, mem, batch, f)
      && CachedLatest(mem.cache).Some? && mem' == counted.(nextVersion := mem.nextVersion + 1)
    case Committed(f) =>
      && CachedLatest(mem.cache).Some?
      && var m := InsertManifest(mem, CachedLatest(mem.cache).value, f);
         && ChangedOnly(before, after, data + {ManifestPath(m.version)})
         && FragmentWritten(after, e, mem, batch, f)
         && ReadManifest(after, m.version) == Some(m)
         && mem' == Published(counted, m)
  }

  /** An insert of several batches writes one merged batch, or is rejected. */
  ghost predicate InsertCall(
    e: M.Encoder, before: Files, mem: Memory, batches: seq<RecordBatch>, o: InsertOutcome, after: Files, mem': Memory)
  {
    if MergeSucceeds(batches)
    then !o.Rejected? && InsertEffect(e, before, mem, Merged(batches), o, after, mem')
    else o == Rejected && after == before && mem' == mem
  }

  /** The largest field ID, but at least 0. */
  function MaxFieldId(fields: seq<Field>): (m: int)
    ensures m >= 0 && forall f <- fields :: f.id <= m
    ensures m == 0 || exists f <- fields :: f.id == m
  {
    if fields == [] then 0
    else
      assert fields == fields[..|fields| - 1] + [fields[|fields| - 1]];
      Max(MaxFieldId(fields[..|fields| - 1]), fields[|fields| - 1].id)
  }

  function WithField(s: Schema, f: Field): Schema {
    Schema(s.fields + [f.(id := MaxFieldId(s.fields) + 1)])
  }

  function WithoutNamed(fields: seq<Field>, name: string): seq<Field> {
    if fields == [] then []
    else
      var last := fields[|fields| - 1];
      WithoutNamed(fields[..|fields| - 1], name) + if last.name == name then [] else [last]
  }

  function WithoutField(s: Schema, name: string): Schema {
    Schema(WithoutNamed(s.fields, name))
  }

  /** Committing a new schema over the fragments of the cached latest version. */
  ghost predicate SchemaEffect(
    before: Files, mem: Memory, schema: Schema, o: SchemaOutcome, after: Files, mem': Memory)
  {
    match o
    case Refused => after == before && mem' == mem
    case ChangeFailed =>
      CachedLatest(mem.cache).Some? && after == before && mem' == mem.(nextVersion := mem.nextVersion + 1)
    case Changed =>
      && CachedLatest(mem.cache).Some?
      && var latest := CachedLatest(mem.cache).value;
         var m := Manifest(mem.nextVersion, schema, latest.fragments, latest.maxFragmentId);
         && after == before[ManifestPath(m.version) := ManifestContent(m)]
         && mem' == Published(mem.(schema := schema), m)
  }

  /** AddColumn refuses a name that is taken, DropColumn one that is not. */
  ghost predicate AddColumnCall(before: Files, mem: Memory, f: Field, o: SchemaOutcome, after: Files, mem': Memory) {
    && SchemaEffect(before, mem, WithField(mem.schema, f), o, after, mem')
    && (o.Refused? <==> FieldByName(mem.schema, f.name).Some? || CachedLatest(mem.cache).None?)
  }

  ghost predicate DropColumnCall(
    before: Files, mem: Memory, name: string, o: SchemaOutcome, after: Files, mem': Memory) {
    && SchemaEffect(before, mem, WithoutField(mem.schema, name), o, after, mem')
    && (o.Refused? <==> FieldByName(mem.schema, name).None? || CachedLatest(mem.cache).None?)
  }

  /** What Create leaves behind. */
  ghost predicate CreateEffect(before: Files, schema: Schema, after: Files, mem: Memory) {
    var m := Manifest(1, schema, [], 0);
    && after == before[ManifestPath(1) := ManifestContent(m)]
    && mem == Memory(schema, 2, 0, AfterPublish(Snapshot(map[], -1), CACHE_LIMIT, m))
  }

  /** What Open reads. */
  ghost predicate OpenEffect(files: Files, mem: Memory) {
    && VersionsOf(files) != {}
    && var latest := Newest(VersionsOf(files));
       && ReadManifest(files, latest).Some?
       && var m := ReadManifest(files, latest).value;
          mem == Memory(m.schema, latest + 1, m.maxFragmentId + 1, AfterPublish(Snapshot(map[], -1), CACHE_LIMIT, m))
  }

  /** What LatestManifest returns: the newest version on disk, from the cache if it is there. */
  ghost function LatestThroughCache(files: Files, cache: Snapshot): Option<Manifest> {
    if VersionsOf(files) == {} then None else CheckoutThroughCache(files, cache, Newest(VersionsOf(files)))
  }

  function CheckoutThroughCache(files: Files, cache: Snapshot, version: int): Option<Manifest> {
    if version in cache.manifests then Some(cache.manifests[version]) else ReadManifest(files, version)
  }

  // ---------- The table ----------

  class Table {
    const store: ObjectStore
    const manifestStore: ManifestStore
    const versionMgr: VersionManager
    const encoder: M.Encoder
    var schema: Schema
    var nextFragmentId: int
    var nextVersion: int

    ghost predicate Wired()
      reads this
    {
      manifestStore.store == store && versionMgr.maxVersions == CACHE_LIMIT
    }

    ghost function Mem(): Memory
      reads this, versionMgr
    {
      Memory(schema, nextVersion, nextFragmentId, versionMgr.View())
    }

    constructor (schema: Schema, store: ObjectStore, encoder: M.Encoder)
      ensures Wired() && this.store == store && this.encoder == encoder
      ensures fresh(versionMgr) && fresh(manifestStore)
      ensures Mem() == Memory(schema, 1, 0, Snapshot(map[], -1))
    {
      this.schema, this.store, this.encoder := schema, store, encoder;
      manifestStore := new ManifestStore(store);
      versionMgr := new VersionManager(CACHE_LIMIT);
      nextVersion, nextFragmentId := 1, 0;
    }

    static method Create(schema: Schema, store: ObjectStore, encoder: M.Encoder) returns (t: Option<Table>)
      modifies store
      ensures t.None? ==> store.files == old(store.files)
      ensures t.Some? ==>
        && fresh(t.value) && fresh(t.value.versionMgr)
        && t.value.Wired() && t.value.store == store && t.value.encoder == encoder
        && CreateEffect(old(store.files), schema, store.files, t.value.Mem())
    {
      var table := new Table(schema, store, encoder);
      var m := Manifest(table.nextVersion, schema, [], 0);
      var ok := table.manifestStore.Write(m);
      if !ok {
        return None;
      }
      table.nextVersion := table.nextVersion + 1;
      table.versionMgr.Publish(m);
      return Some(table);
    }

    static method Open(store: ObjectStore, encoder: M.Encoder) returns (t: Option<Table>)
      ensures t.None? <==>
        VersionsOf(store.files) == {} || ReadManifest(store.files, Newest(VersionsOf(store.files))).None?
      ensures t.Some? ==>
        && fresh(t.value) && fresh(t.value.versionMgr)
        && t.value.Wired() && t.value.store == store && t.value.encoder == encoder
        && OpenEffect(store.files, t.value.Mem())
    {
      var table := new Table(Schema([]), store, encoder);
      var latest := table.manifestStore.LatestVersion();
      if latest.None? {
        return None;
      }
      var m := table.manifestStore.Read(latest.value);
      if m.None? {
        return None;
      }
      table.schema := m.value.schema;
      table.nextVersion := latest.value + 1;
      table.nextFragmentId := m.value.maxFragmentId + 1;
      table.versionMgr.Publish(m.value);
      return Some(table);
    }

    method LatestManifest() returns (r: Option<Manifest>)
      requires Wired()
      ensures r == LatestThroughCache(store.files, versionMgr.View())
    {
      var latest := manifestStore.LatestVersion();
      if latest.None? {
        return None;
      }
      var cached := versionMgr.Get(latest.value);
      if cached.Some? {
        return cached;
      }
      r := manifestStore.Read(latest.value);
    }

    method CheckoutVersion(version: int) returns (r: Option<Manifest>)
      requires Wired()
      ensures r == CheckoutThroughCache(store.files, versionMgr.View(), version)
    {
      var cached := versionMgr.Get(version);
      if cached.Some? {
        return cached;
      }
      r := manifestStore.Read(version);
    }

    method Insert(batch: RecordBatch) returns (r: Result<Fragment>, ghost o: InsertOutcome)
      requires Wired()
      modifies this, store, versionMgr
      ensures Wired()
      ensures InsertCall(encoder, old(store.files), old(Mem()), [batch], o, store.files, Mem())
      ensures r == if o.Committed? then Success(o.fragment) else Failure("insert failed")
    {
      r, o := BatchInsert([batch]);
    }

    method BatchInsert(batches: seq<RecordBatch>) returns (r: Result<Fragment>, ghost o: InsertOutcome)
      requires Wired()
      modifies this, store, versionMgr
      ensures Wired()
      ensures InsertCall(encoder, old(store.files), old(Mem()), batches, o, store.files, Mem())
      ensures r == if o.Committed? then Success(o.fragment) else Failure("insert failed")
    {
      if |batches| == 0 {
        return Failure("insert failed"), Rejected;
      }
      var merged := MergeRecordBatches(batches);
      if merged.Failure? {
        return Failure("insert failed"), Rejected;
      }
      r, o := InsertMerged(merged.value);
    }

    /** The body of BatchInsert from the fragment writer on. */
    method InsertMerged(batch: RecordBatch) returns (r: Result<Fragment>, ghost o: InsertOutcome)
      requires Wired()
      modifies this, store, versionMgr
      ensures Wired()
      ensures !o.Rejected? && InsertEffect(encoder, old(store.files), old(Mem()), batch, o, store.files, Mem())
      ensures r == if o.Committed? then Success(o.fragment) else Failure("insert failed")
    {
      hide IsFragmentOf, ColumnsStored, ListsColumns, IsMaxRows, ChangedOnly, AfterPublish;
      ghost var before, mem := store.files, Mem();
      var fragmentId := nextFragmentId;
      var writer := new FragmentWriter(store, schema, fragmentId, encoder);
      var written := writer.WriteBatch(batch);
      if written.Failure? {
        return Failure("insert failed"), DataFailed;
      }
      assert writer.dataFiles[0..] == writer.dataFiles;
      var frag := writer.Finish(batch);
      ghost var stored := store.files;
      nextFragmentId := nextFragmentId + 1;
      var latest := versionMgr.Latest();
      if latest.None? {
        return Failure("insert failed"), NoManifest(frag);
      }
      var version := nextVersion;
      nextVersion := nextVersion + 1;
      var m := Manifest(version, schema, latest.value.fragments + [frag], fragmentId);
      var ok := manifestStore.Write(m);
      if !ok {
        return Failure("insert failed"), InsertOutcome.ManifestFailed(frag);
      }
      ManifestAfterData(before, stored, encoder, mem.schema, fragmentId, batch, m);
      versionMgr.Publish(m);
      return Success(frag), InsertOutcome.Committed(frag);
    }

    static method LargestId(fields: seq<Field>) returns (maxId: int)
      ensures maxId == MaxFieldId(fields)
    {
      maxId := 0;
      for i := 0 to |fields|
        invariant maxId == MaxFieldId(fields[..i])
      {
        assert fields[..i + 1][..i] == fields[..i];
        if fields[i].id > maxId {
          maxId := fields[i].id;
        }
      }
      assert fields[..|fields|] == fields;
    }

    static method OtherFields(fields: seq<Field>, name: string) returns (others: seq<Field>)
      ensures others == WithoutNamed(fields, name)
    {
      others := [];
      for i := 0 to |fields|
        invariant others == WithoutNamed(fields[..i], name)
      {
        assert fields[..i + 1][..i] == fields[..i];
        if fields[i].name != name {
          others := others + [fields[i]];
        }
      }
      assert fields[..|fields|] == fields;
    }

    method AddColumn(field: Field) returns (ok: bool, ghost o: SchemaOutcome)
      requires Wired()
      modifies this, store, versionMgr
      ensures Wired()
      ensures AddColumnCall(old(store.files), old(Mem()), field, o, store.files, Mem())
      ensures ok <==> o.Changed?
    {
      hide AfterPublish;
      if FieldByName(schema, field.name).Some? {
        return false, Refused;
      }
      var maxId := LargestId(schema.fields);
      var newSchema := Schema(schema.fields + [field.(id := maxId + 1)]);
      ok, o := ChangeSchema(newSchema);
    }

    method DropColumn(columnName: string) returns (ok: bool, ghost o: SchemaOutcome)
      requires Wired()
      modifies this, store, versionMgr
      ensures Wired()
      ensures DropColumnCall(old(store.files), old(Mem()), columnName, o, store.files, Mem())
      ensures ok <==> o.Changed?
    {
      hide AfterPublish;
      if FieldByName(schema, columnName).None? {
        return false, Refused;
      }
      var newFields := OtherFields(schema.fields, columnName);
      ok, o := ChangeSchema(Schema(newFields));
    }

    /** The common end of AddColumn and DropColumn: a new version with the same fragments. */
    method ChangeSchema(newSchema: Schema) returns (ok: bool, ghost o: SchemaOutcome)
      requires Wired()
      modifies this, store, versionMgr
      ensures Wired()
      ensures SchemaEffect(old(store.files), old(Mem()), newSchema, o, store.files, Mem())
      ensures o.Refused? <==> CachedLatest(old(Mem()).cache).None?
      ensures ok <==> o.Changed?
    {
      hide AfterPublish;
      var latest := versionMgr.Latest();
      if latest.None? {
        return false, Refused;
      }
      var version := nextVersion;
      nextVersion := nextVersion + 1;
      var m := Manifest(version, newSchema, latest.value.fragments, latest.value.maxFragmentId);
      var written := manifestStore.Write(m);
      if !written {
        return false, ChangeFailed;
      }
      schema := newSchema;
      versionMgr.Publish(m);
      return true, Changed;
    }
  }

  lemma ManifestAfterData(
    before: Files, stored: Files, e: M.Encoder, s: Schema, fragmentId: int, batch: RecordBatch, m: Manifest)
    requires ChangedOnly(before, stored, PathsOf(fragmentId, batch.columns.Keys))
    requires ColumnsStored(stored, e, s, fragmentId, batch.columns)
    ensures var after := stored[ManifestPath(m.version) := ManifestContent(m)];
      && ChangedOnly(before, after, PathsOf(fragmentId, batch.columns.Keys) + {ManifestPath(m.version)})
      && ColumnsStored(after, e, s, fragmentId, batch.columns)
      && ReadManifest(after, m.version) == Some(m)
  {
    hide StoredForm;
  }
}
