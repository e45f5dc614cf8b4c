/** What every operation of the synchronous table keeps: the disk invariant, a cache that
    agrees with the disk, and frozen snapshots. */
module TableInvariant {
  import opened Common
  import opened Store
  import opened Versions
  import opened VersionManager
  import opened ManifestStore
  import opened Fragments
  import opened TableState
  import opened Table
  import M = MiniBlock

  /** Whatever is cached is what is on disk. */
  ghost predicate CacheInv(files: Files, cache: Snapshot) {
    && Tracks(cache) && WithinLimit(cache, CACHE_LIMIT)
    && forall v <- cache.manifests.Keys :: ReadManifest(files, v) == Some(cache.manifests[v])
  }

  /** The state between operations of the synchronous table. */
  ghost predicate SyncInv(files: Files, e: M.Encoder, log: seq<LogEntry>, mem: Memory) {
    && DiskInv(files, e, log, mem.nextVersion, mem.nextFragmentId)
    && CacheInv(files, mem.cache)
    && mem.cache.latest == Newest(VersionsOf(files))
  }

  lemma CacheStays(before: Files, after: Files, cache: Snapshot)
    requires CacheInv(before, cache) && Frozen(before, after)
    ensures CacheInv(after, cache)
  {
    forall v | v in cache.manifests ensures ReadManifest(after, v) == Some(cache.manifests[v]) {
      assert v in VersionsOf(before);
    }
  }

  lemma CacheAfterPublish(files: Files, cache: Snapshot, m: Manifest)
    requires CacheInv(files, cache) && m.version >= 0 && ReadManifest(files, m.version) == Some(m)
    ensures CacheInv(files, AfterPublish(cache, CACHE_LIMIT, m))
    ensures AfterPublish(cache, CACHE_LIMIT, m).latest == Max(cache.latest, m.version)
  {
    hide Evicted;
    PublishKeeps(cache, CACHE_LIMIT, m);
    PublishEvictsOldest(cache, CACHE_LIMIT, m);
  }

  lemma EmptyCache(files: Files)
    ensures CacheInv(files, Snapshot(map[], -1))
  {
  }

  /** The cached latest manifest is the newest one on disk. */
  lemma CachedLatestIsNewest(files: Files, e: M.Encoder, log: seq<LogEntry>, mem: Memory)
    requires SyncInv(files, e, log, mem)
    ensures CachedLatest(mem.cache) == LatestManifest(files)
    ensures LatestManifest(files).Some?
  {
    hide FragmentsGrow, FragmentsAreLog;
    assert mem.cache.latest >= 0;
    assert mem.cache.latest in mem.cache.manifests;
  }

  /** Reading through the cache is reading the disk, for the latest and for every version. */
  lemma CacheRefinesDisk(files: Files, cache: Snapshot, version: int)
    requires CacheInv(files, cache)
    ensures LatestThroughCache(files, cache) == LatestManifest(files)
    ensures CheckoutThroughCache(files, cache, version) == ReadManifest(files, version)
  {
  }

  // ---------- The operations ----------

  ghost function LogAfterInsert(log: seq<LogEntry>, mem: Memory, batch: RecordBatch, o: InsertOutcome): seq<LogEntry> {
    if o.Committed? then log + [LogEntry(mem.schema, batch)] else log
  }

  /** Any insert, whatever fails inside it. */
  lemma InsertKeeps(
    e: M.Encoder, before: Files, log: seq<LogEntry>, mem: Memory, batch: RecordBatch, o: InsertOutcome,
    after: Files, mem': Memory)
    requires SyncInv(before, e, log, mem) && InsertEffect(e, before, mem, batch, o, after, mem')
    ensures SyncInv(after, e, LogAfterInsert(log, mem, batch, o), mem')
    ensures Frozen(before, after)
  {
    hide IsFragmentOf, ColumnsStored, ChangedOnly, FragmentsGrow, FragmentsAreLog, VersionsReadable, AfterPublish,
      Frozen, DiskInv, CacheInv, ReadManifest;
    var columns := batch.columns.Keys;
    if o.Committed? {
      CommittedInsertKeeps(e, before, log, mem, batch, o.fragment, after, mem');
    } else if o.Rejected? {
      FrozenReflexive(before, e, log, mem.nextVersion, mem.nextFragmentId);
    } else {
      DataWriteKeepsDisk(before, after, e, log, mem.nextVersion, mem.nextFragmentId, columns);
      CacheStays(before, after, mem.cache);
      CountersMayGrow(after, e, log, mem.nextVersion, mem.nextFragmentId, mem'.nextVersion, mem'.nextFragmentId);
    }
  }

  lemma FrozenReflexive(files: Files, e: M.Encoder, log: seq<LogEntry>, nextVersion: int, nextFragmentId: int)
    requires DiskInv(files, e, log, nextVersion, nextFragmentId)
    ensures Frozen(files, files)
  {
    FreshWritesFreeze(files, files, e, log, nextVersion, nextFragmentId, {}, false);
  }

  lemma NextVersionPositive(files: Files, e: M.Encoder, log: seq<LogEntry>, nextVersion: int, nextFragmentId: int)
    requires DiskInv(files, e, log, nextVersion, nextFragmentId)
    ensures nextVersion > Newest(VersionsOf(files)) >= 0
  {
    hide FragmentsGrow, FragmentsAreLog;
    assert Newest(VersionsOf(files)) in VersionsOf(files);
  }

  lemma CommittedInsertKeeps(
    e: M.Encoder, before: Files, log: seq<LogEntry>, mem: Memory, batch: RecordBatch, f: Fragment,
    after: Files, mem': Memory)
    requires SyncInv(before, e, log, mem) &&
      InsertEffect(e, before, mem, batch, InsertOutcome.Committed(f), after, mem')
    ensures SyncInv(after, e, log + [LogEntry(mem.schema, batch)], mem')
    ensures Frozen(before, after)
  {
    hide IsFragmentOf, ColumnsStored, ChangedOnly, FragmentsGrow, FragmentsAreLog, VersionsReadable, AfterPublish,
      Frozen, DiskInv, CacheInv;
    CachedLatestIsNewest(before, e, log, mem);
    NextVersionPositive(before, e, log, mem.nextVersion, mem.nextFragmentId);
    var m := InsertManifest(mem, CachedLatest(mem.cache).value, f);
    FragmentCommitKeepsDisk(before, after, e, log, mem.nextVersion, mem.nextFragmentId,
                            LogEntry(mem.schema, batch), f, m);
    CacheStays(before, after, mem.cache);
    CacheAfterPublish(after, mem.cache, m);
  }

  /** What an insert does to the newest manifest: one more fragment if it committed, nothing at
      all if anything failed. */
  lemma InsertOnDisk(
    e: M.Encoder, before: Files, log: seq<LogEntry>, mem: Memory, batch: RecordBatch, o: InsertOutcome,
    after: Files, mem': Memory)
    requires SyncInv(before, e, log, mem) && InsertEffect(e, before, mem, batch, o, after, mem')
    ensures LatestManifest(before).Some? && LatestManifest(after).Some?
    ensures if o.Committed?
            then LatestManifest(after).value.fragments == LatestManifest(before).value.fragments + [o.fragment]
            else LatestManifest(after) == LatestManifest(before)
  {
    hide IsFragmentOf, ColumnsStored, ChangedOnly, AfterPublish, CacheInv, DiskInv;
    CachedLatestIsNewest(before, e, log, mem);
    if o.Committed? {
      NextVersionPositive(before, e, log, mem.nextVersion, mem.nextFragmentId);
      var m := InsertManifest(mem, CachedLatest(mem.cache).value, o.fragment);
      FragmentCommitKeepsDisk(before, after, e, log, mem.nextVersion, mem.nextFragmentId,
                              LogEntry(mem.schema, batch), o.fragment, m);
    } else if !o.Rejected? {
      SameManifests(before, after, PathsOf(mem.nextFragmentId, batch.columns.Keys));
    }
  }

  /** An insert whose manifest write fails uses up its version and its fragment ID: the next one that
      commits leaves a gap in both. */
  lemma FailedInsertLeavesGap(
    e: M.Encoder, before: Files, log: seq<LogEntry>, mem: Memory, batch: RecordBatch, lost: Fragment,
    between: Files, mem': Memory, next: RecordBatch, f: Fragment, after: Files, mem'': Memory)
    requires SyncInv(before, e, log, mem)
    requires InsertEffect(e, before, mem, batch, InsertOutcome.ManifestFailed(lost), between, mem')
    requires InsertEffect(e, between, mem', next, InsertOutcome.Committed(f), after, mem'')
    ensures mem.nextVersion !in VersionsOf(after)
    ensures VersionsOf(after) != {} && Newest(VersionsOf(after)) == mem.nextVersion + 1
    ensures lost.id == mem.nextFragmentId && f.id == mem.nextFragmentId + 1
  {
    hide IsFragmentOf, ColumnsStored, ChangedOnly, AfterPublish, CacheInv, DiskInv;
    InsertKeeps(e, before, log, mem, batch, InsertOutcome.ManifestFailed(lost), between, mem');
    SameManifests(before, between, PathsOf(mem.nextFragmentId, batch.columns.Keys));
    CachedLatestIsNewest(between, e, log, mem');
    NextVersionPositive(before, e, log, mem.nextVersion, mem.nextFragmentId);
    NextVersionPositive(between, e, log, mem'.nextVersion, mem'.nextFragmentId);
    var m := InsertManifest(mem', CachedLatest(mem'.cache).value, f);
    FragmentCommitKeepsDisk(between, after, e, log, mem'.nextVersion, mem'.nextFragmentId,
                            LogEntry(mem'.schema, next), f, m);
  }

  /** A table opened after a committed insert goes on with the same counters, schema and newest
      version as the one that made it. */
  lemma ReopenAfterInsert(
    e: M.Encoder, before: Files, log: seq<LogEntry>, mem: Memory, batch: RecordBatch, f: Fragment,
    after: Files, mem': Memory, reopened: Memory)
    requires SyncInv(before, e, log, mem) &&
      InsertEffect(e, before, mem, batch, InsertOutcome.Committed(f), after, mem')
    requires OpenEffect(after, reopened)
    ensures reopened.nextVersion == mem'.nextVersion && reopened.nextFragmentId == mem'.nextFragmentId
    ensures reopened.schema == mem'.schema && reopened.cache.latest == mem'.cache.latest
  {
    hide IsFragmentOf, ColumnsStored, ChangedOnly, AfterPublish, CacheInv, DiskInv, FragmentsGrow, FragmentsAreLog;
    CommittedInsertKeeps(e, before, log, mem, batch, f, after, mem');
    OpenKeeps(e, after, log + [LogEntry(mem.schema, batch)], mem'.nextVersion, mem'.nextFragmentId, reopened);
    CachedLatestIsNewest(before, e, log, mem);
    NextVersionPositive(before, e, log, mem.nextVersion, mem.nextFragmentId);
    var m := InsertManifest(mem, CachedLatest(mem.cache).value, f);
    FragmentCommitKeepsDisk(before, after, e, log, mem.nextVersion, mem.nextFragmentId,
                            LogEntry(mem.schema, batch), f, m);
  }

  /** At most ten manifests are cached, and none goes while there are fewer. */
  lemma CacheSize(files: Files, cache: Snapshot, m: Manifest)
    requires CacheInv(files, cache) && m.version >= 0
    ensures |cache.manifests| <= 10
    ensures |cache.manifests| < 10 ==>
      AfterPublish(cache, CACHE_LIMIT, m).manifests == cache.manifests[m.version := m]
  {
    PublishEvictsOldest(cache, CACHE_LIMIT, m);
    InsertSize(cache.manifests.Keys, m.version);
    var all := cache.manifests[m.version := m];
    assert all.Keys == cache.manifests.Keys + {m.version};
    assert |all.Keys| == |all| && |cache.manifests.Keys| == |cache.manifests|;
  }

  /** Any schema change, whatever fails inside it. */
  lemma SchemaChangeKeeps(
    e: M.Encoder, before: Files, log: seq<LogEntry>, mem: Memory, schema: Schema, o: SchemaOutcome,
    after: Files, mem': Memory)
    requires SyncInv(before, e, log, mem) && SchemaEffect(before, mem, schema, o, after, mem')
    ensures SyncInv(after, e, log, mem')
    ensures Frozen(before, after)
  {
    hide FragmentsGrow, FragmentsAreLog, VersionsReadable, AfterPublish, Frozen, DiskInv, CacheInv;
    CachedLatestIsNewest(before, e, log, mem);
    NextVersionPositive(before, e, log, mem.nextVersion, mem.nextFragmentId);
    if o.Changed? {
      var latest := CachedLatest(mem.cache).value;
      var m := Manifest(mem.nextVersion, schema, latest.fragments, latest.maxFragmentId);
      SchemaCommitKeepsDisk(before, after, e, log, mem.nextVersion, mem.nextFragmentId, m);
      CacheStays(before, after, mem.cache);
      CacheAfterPublish(after, mem.cache, m);
    } else {
      FrozenReflexive(before, e, log, mem.nextVersion, mem.nextFragmentId);
      CountersMayGrow(before, e, log, mem.nextVersion, mem.nextFragmentId, mem'.nextVersion, mem'.nextFragmentId);
    }
  }

  /** Opening a table, at whatever point the previous process stopped. */
  lemma OpenKeeps(
    e: M.Encoder, files: Files, log: seq<LogEntry>, nextVersion: int, nextFragmentId: int, mem: Memory)
    requires DiskInv(files, e, log, nextVersion, nextFragmentId) && OpenEffect(files, mem)
    ensures SyncInv(files, e, log, mem)
  {
    hide FragmentsGrow, IsFragmentOf, ColumnsStored;
    var latest := Newest(VersionsOf(files));
    var m := ReadManifest(files, latest).value;
    assert m.version == latest >= 0;
    EmptyCache(files);
    CacheAfterPublish(files, Snapshot(map[], -1), m);
  }

  /** Creating a table where no version exists. */
  lemma CreateKeeps(e: M.Encoder, before: Files, schema: Schema, after: Files, mem: Memory)
    requires VersionsOf(before) == {} && CreateEffect(before, schema, after, mem)
    ensures SyncInv(after, e, [], mem)
  {
    var m := Manifest(1, schema, [], 0);
    forall v ensures v in VersionsOf(after) <==> v == 1 {
      assert v !in VersionsOf(before);
    }
    assert 1 in VersionsOf(after);
    EmptyCache(after);
    CacheAfterPublish(after, Snapshot(map[], -1), m);
  }
}
