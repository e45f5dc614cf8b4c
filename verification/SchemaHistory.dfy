/** The schema of a table over whole runs: what a column change does to it, and that every manifest
    of every version carries the schema of its time, through inserts, flushes and re-opening. */
module SchemaHistory {
  import opened Common
  import opened Columns
  import opened Store
  import opened Versions
  import opened VersionManager
  import opened ManifestStore
  import opened Fragments
  import opened Batches
  import opened TableState
  import opened Table
  import opened TableInvariant
  import opened AsyncWriter
  import opened AsyncInvariant
  import opened TableRuns
  import M = MiniBlock

  // ---------- One change ----------

  lemma {:induction false} FindsAppended(fields: seq<Field>, f: Field)
    ensures forall name ::
              FindByName(fields + [f], name) ==
              if FindByName(fields, name).Some? || name != f.name then FindByName(fields, name) else Some(f)
    ensures forall id ::
              FindByID(fields + [f], id) ==
              if FindByID(fields, id).Some? || id != f.id then FindByID(fields, id) else Some(f)
  {
    if fields != [] {
      FindsAppended(fields[1..], f);
      assert (fields + [f])[1..] == fields[1..] + [f];
    }
  }

  /** The first field of a name, and the first of an ID, is the one found. */
  lemma {:induction false} FindsFirst(fields: seq<Field>, i: nat)
    requires i < |fields|
    ensures (forall j :: 0 <= j < i ==> fields[j].name != fields[i].name) ==>
      FindByName(fields, fields[i].name) == Some(fields[i])
    ensures (forall j :: 0 <= j < i ==> fields[j].id != fields[i].id) ==>
      FindByID(fields, fields[i].id) == Some(fields[i])
  {
    if i > 0 {
      FindsFirst(fields[1..], i - 1);
      assert fields[1..][i - 1] == fields[i];
      if forall j :: 0 <= j < i ==> fields[j].name != fields[i].name {
        forall j | 0 <= j < i - 1 ensures fields[1..][j].name != fields[i].name {
        }
      }
      if forall j :: 0 <= j < i ==> fields[j].id != fields[i].id {
        forall j | 0 <= j < i - 1 ensures fields[1..][j].id != fields[i].id {
        }
      }
    }
  }

  /** An added column is found under its name with its own type and dimension, and under an ID that
      no column had; every other name and ID gives what it gave. */
  lemma AddedIsFound(s: Schema, f: Field)
    requires FieldByName(s, f.name).None?
    ensures var now := WithField(s, f);
      && FieldByName(now, f.name).Some?
      && var added := FieldByName(now, f.name).value;
      && added.name == f.name && added.dataType == f.dataType && added.dimension == f.dimension
      && FieldByID(now, added.id) == Some(added) && FieldByID(s, added.id).None?
      && (forall name :: name != f.name ==> FieldByName(now, name) == FieldByName(s, name))
      && (forall id :: id != added.id ==> FieldByID(now, id) == FieldByID(s, id))
  {
    FindsAppended(s.fields, f.(id := MaxFieldId(s.fields) + 1));
  }

  lemma {:induction false} WithoutFront(fields: seq<Field>, name: string)
    requires fields != []
    ensures WithoutNamed(fields, name) ==
            (if fields[0].name == name then [] else [fields[0]]) + WithoutNamed(fields[1..], name)
  {
    if |fields| > 1 {
      var front := fields[..|fields| - 1];
      WithoutFront(front, name);
      assert front[1..] == fields[1..][..|fields| - 2];
    }
  }

  lemma {:induction false} FindsRemaining(fields: seq<Field>, name: string)
    ensures forall other ::
              FindByName(WithoutNamed(fields, name), other) ==
              if other == name then None else FindByName(fields, other)
    ensures forall id ::
              FindByID(fields, id).Some? && FindByID(fields, id).value.name != name ==>
              FindByID(WithoutNamed(fields, name), id) == FindByID(fields, id)
  {
    if fields != [] {
      WithoutFront(fields, name);
      FindsRemaining(fields[1..], name);
      var rest := WithoutNamed(fields[1..], name);
      if fields[0].name != name {
        assert ([fields[0]] + rest)[1..] == rest;
      } else {
        assert [] + rest == rest;
      }
    }
  }

  /** A dropped name is gone, and every other name gives what it gave. */
  lemma DroppedIsGone(s: Schema, name: string)
    ensures var now := WithoutField(s, name);
      && FieldByName(now, name).None?
      && (forall other :: other != name ==> FieldByName(now, other) == FieldByName(s, other))
      && (forall id :: FieldByID(s, id).Some? && FieldByID(s, id).value.name != name ==>
            FieldByID(now, id) == FieldByID(s, id))
  {
    FindsRemaining(s.fields, name);
  }

  // ---------- Whole runs ----------

  /** The schema after an event: only committed column changes have an effect. */
  function SchemaNext(s: Schema, ev: SystemEvent): Schema {
    match ev
    case AddField(f, Changed, _, _) => WithField(s, f)
    case DropField(name, Changed, _, _) => WithoutField(s, name)
    case _ => s
  }

  function SchemaAfter(initial: Schema, events: seq<SystemEvent>): Schema {
    if events == [] then initial
    else SchemaNext(SchemaAfter(initial, events[..|events| - 1]), events[|events| - 1])
  }

  /** The newest manifest, the table in memory and its writer have this schema. */
  ghost predicate HasSchema(s: System, schema: Schema) {
    && LatestManifest(s.files).Some? && LatestManifest(s.files).value.schema == schema
    && s.mem.schema == schema
    && (s.writer.Some? ==> s.writer.value.mem.schema == schema)
  }

  /** Writers are started with the schema of the table. */
  ghost predicate StartedByTable(states: seq<System>, events: seq<SystemEvent>)
    requires |states| == |events| + 1
  {
    forall i :: 0 <= i < |events| && events[i].StartWriter? ==> events[i].w.mem.schema == states[i].mem.schema
  }

  lemma InsertKeepsSchema(
    e: M.Encoder, s: System, batch: RecordBatch, o: InsertOutcome, after: Files, mem: Memory, schema: Schema)
    requires Inv(e, s) && s.writer.None? && HasSchema(s, schema)
    requires InsertEffect(e, s.files, s.mem, batch, o, after, mem)
    ensures LatestManifest(after).Some? && LatestManifest(after).value.schema == schema && mem.schema == schema
  {
    hide IsFragmentOf, ColumnsStored, ChangedOnly, DiskInv, CacheInv, AfterPublish;
    InsertOnDisk(e, s.files, s.log, s.mem, batch, o, after, mem);
    if o.Committed? {
      hide LatestManifest;
      var m := InsertManifest(s.mem, CachedLatest(s.mem.cache).value, o.fragment);
      NextVersionPositive(s.files, e, s.log, s.mem.nextVersion, s.mem.nextFragmentId);
      BecomesNewest(s.files, after, PathsOf(s.mem.nextFragmentId, batch.columns.Keys), m);
    }
  }

  /** A manifest above all versions is the newest. */
  lemma BecomesNewest(before: Files, after: Files, paths: set<Path>, m: Manifest)
    requires VersionsOf(before) != {} ==> m.version > Newest(VersionsOf(before))
    requires ChangedOnly(before, after, paths + {ManifestPath(m.version)}) && forall p <- paths :: p.DataPath?
    requires ReadManifest(after, m.version) == Some(m)
    ensures LatestManifest(after) == Some(m)
  {
    forall v | v in VersionsOf(after) && v != m.version ensures v in VersionsOf(before) {
      assert ManifestPath(v) !in paths + {ManifestPath(m.version)};
    }
    assert m.version in VersionsOf(after);
  }

  lemma ChangeSetsSchema(
    e: M.Encoder, s: System, next: Schema, o: SchemaOutcome, after: Files, mem: Memory, schema: Schema)
    requires Inv(e, s) && s.writer.None? && HasSchema(s, schema) && SchemaEffect(s.files, s.mem, next, o, after, mem)
    ensures LatestManifest(after).Some? && LatestManifest(after).value.schema == mem.schema
    ensures mem.schema == if o.Changed? then next else schema
  {
    hide DiskInv, CacheInv, AfterPublish;
    if o.Changed? {
      var latest := CachedLatest(s.mem.cache).value;
      var m := Manifest(s.mem.nextVersion, next, latest.fragments, latest.maxFragmentId);
      NextVersionPositive(s.files, e, s.log, s.mem.nextVersion, s.mem.nextFragmentId);
      BecomesNewest(s.files, after, {}, m);
    }
  }

  lemma FlushKeepsSchema(
    e: M.Encoder, before: Files, log: seq<LogEntry>, w: WriterMem, o: FlushOutcome, after: Files, w': WriterMem,
    schema: Schema)
    requires DiskInv(before, e, log, w.nextVersion, w.fragmentId) && FlushEffect(e, before, w, o, after, w')
    requires LatestManifest(before).Some? && LatestManifest(before).value.schema == schema && w.schema == schema
    ensures LatestManifest(after).Some? && LatestManifest(after).value.schema == schema && w'.schema == schema
  {
    hide IsFragmentOf, ColumnsStored, ChangedOnly, DiskInv;
    if o.Flushed? {
      NextVersionPositive(before, e, log, w.nextVersion, w.fragmentId);
      BecomesNewest(before, after, PathsOf(w.fragmentId, w.current.value.columns.Keys), o.manifest);
    } else if !o.NothingToFlush? {
      SameManifests(before, after, PathsOf(w.fragmentId, w.current.value.columns.Keys));
    }
  }

  lemma AsyncKeepsSchema(e: M.Encoder, s: System, a: Event, s': System, schema: Schema)
    requires Inv(e, s) && Next(e, s, Async(a), s') && HasSchema(s, schema)
    ensures HasSchema(s', schema)
  {
    hide DiskInv, CacheInv, WriterInv, FlushEffect, OneShape, Accumulates, Accumulated, LatestManifest;
    var w := s.writer.value;
    match a {
      case Take(o, after, mem) =>
        if LargeEnough(AfterTake(w).mem) {
          FlushKeepsSchema(e, s.files, s.log, AfterTake(w).mem, o, after, mem, schema);
        }
      case DrainDone(o, after, mem) => FlushKeepsSchema(e, s.files, s.log, w.mem, o, after, mem, schema);
      case Timer(o, after, mem) => FlushKeepsSchema(e, s.files, s.log, w.mem, o, after, mem, schema);
      case _ =>
    }
  }

  lemma EventSetsSchema(e: M.Encoder, s: System, ev: SystemEvent, s': System, schema: Schema)
    requires Inv(e, s) && Next(e, s, ev, s') && HasSchema(s, schema)
    requires ev.StartWriter? ==> ev.w.mem.schema == schema
    ensures HasSchema(s', SchemaNext(schema, ev))
  {
    hide DiskInv, CacheInv, WriterInv, InsertEffect, SchemaEffect, MergeSucceeds, Merged, Enabled, FilesAfter,
      WriterAfter, AfterPublish, LatestManifest;
    match ev {
      case InsertBatches(batches, o, after, mem) =>
        if MergeSucceeds(batches) {
          InsertKeepsSchema(e, s, Merged(batches), o, after, mem, schema);
        }
      case AddField(f, o, after, mem) => ChangeSetsSchema(e, s, WithField(s.mem.schema, f), o, after, mem, schema);
      case DropField(name, o, after, mem) =>
        ChangeSetsSchema(e, s, WithoutField(s.mem.schema, name), o, after, mem, schema);
      case Reopen(mem) => OpenedSchema(s.files, mem);
      case StartWriter(w) =>
      case Async(a) => AsyncKeepsSchema(e, s, a, s', schema);
    }
  }

  /** A table that is opened has the schema of the newest manifest. */
  lemma OpenedSchema(files: Files, mem: Memory)
    requires OpenEffect(files, mem)
    ensures LatestManifest(files).Some? && mem.schema == LatestManifest(files).value.schema
  {
  }

  lemma CreatedSchema(initial: Files, s: System)
    requires VersionsOf(initial) == {} && CreateEffect(initial, s.mem.schema, s.files, s.mem) && s.writer.None?
    ensures HasSchema(s, s.mem.schema)
  {
    BecomesNewest(initial, s.files, {}, Manifest(1, s.mem.schema, [], 0));
  }

  /** In every state of every run the newest manifest, the table in memory and its writer have the
      schema that the committed column changes make of the first one, in order. */
  lemma {:induction false} SchemaOfRun(
    e: M.Encoder, initial: Files, states: seq<System>, events: seq<SystemEvent>, i: nat)
    requires IsRun(e, initial, states, events) && i < |states| && StartedByTable(states, events)
    ensures HasSchema(states[i], SchemaAfter(states[0].mem.schema, events[..i]))
  {
    hide Next, Inv, HasSchema, SchemaNext, CreateEffect;
    if i == 0 {
      CreatedSchema(initial, states[0]);
    } else {
      SchemaOfRun(e, initial, states, events, i - 1);
      RunKeepsInv(e, initial, states, events, i - 1);
      assert Next(e, states[i - 1], events[i - 1], states[i - 1 + 1]);
      assert events[..i][..i - 1] == events[..i - 1];
      MemorySchema(states[i - 1], SchemaAfter(states[0].mem.schema, events[..i - 1]));
      EventSetsSchema(e, states[i - 1], events[i - 1], states[i], SchemaAfter(states[0].mem.schema, events[..i - 1]));
    }
  }

  lemma MemorySchema(s: System, schema: Schema)
    requires HasSchema(s, schema)
    ensures s.mem.schema == schema
  {
  }

  /** No committed change from i on drops this name. */
  predicate KeptFrom(events: seq<SystemEvent>, i: nat, j: nat, name: string)
    requires i <= j <= |events|
  {
    forall k :: i <= k < j && events[k].DropField? && events[k].so.Changed? ==> events[k].name != name
  }

  /** A column that was added is in every later schema of the run, with its own type and dimension,
      until it is dropped: in the newest manifest, in memory, and in any table opened from it. */
  lemma AddedStays(
    e: M.Encoder, initial: Files, states: seq<System>, events: seq<SystemEvent>, i: nat, j: nat, reopened: Memory)
    requires IsRun(e, initial, states, events) && StartedByTable(states, events) && i < j < |states|
    requires events[i].AddField? && events[i].so.Changed? && KeptFrom(events, i + 1, j, events[i].field.name)
    requires OpenEffect(states[j].files, reopened)
    ensures LatestManifest(states[j].files).Some?
    ensures var f := events[i].field;
      forall s | s in {LatestManifest(states[j].files).value.schema, states[j].mem.schema, reopened.schema} ::
        && FieldByName(s, f.name).Some?
        && FieldByName(s, f.name).value.dataType == f.dataType
        && FieldByName(s, f.name).value.dimension == f.dimension
  {
    hide IsRun, OpenEffect, FieldByName;
    SchemaOfRun(e, initial, states, events, j);
    OpenedSchema(states[j].files, reopened);
    StaysInHistory(e, initial, states, events, i, j);
  }

  lemma {:induction false} StaysInHistory(
    e: M.Encoder, initial: Files, states: seq<System>, events: seq<SystemEvent>, i: nat, j: nat)
    requires IsRun(e, initial, states, events) && StartedByTable(states, events) && i < j < |states|
    requires events[i].AddField? && events[i].so.Changed? && KeptFrom(events, i + 1, j, events[i].field.name)
    ensures var found := FieldByName(SchemaAfter(states[0].mem.schema, events[..j]), events[i].field.name);
      && found.Some? && found.value.dataType == events[i].field.dataType
      && found.value.dimension == events[i].field.dimension
  {
    hide Inv, HasSchema, CreateEffect, FieldByName, WithField, WithoutField, InsertCall, OpenEffect, Started, Enabled,
      SchemaEffect;
    var before, ev := SchemaAfter(states[0].mem.schema, events[..j - 1]), events[j - 1];
    assert events[..j][..j - 1] == events[..j - 1];
    SchemaOfRun(e, initial, states, events, j - 1);
    MemorySchema(states[j - 1], before);
    assert Next(e, states[j - 1], ev, states[j - 1 + 1]);
    if ev.AddField? && ev.so.Changed? {
      AddedIsFound(before, ev.field);
    }
    if j > i + 1 {
      StaysInHistory(e, initial, states, events, i, j - 1);
      if ev.DropField? && ev.so.Changed? {
        DroppedIsGone(before, ev.name);
      }
    }
  }

  // ---------- Names and IDs ----------

  /** No two fields share a name or an ID. */
  ghost predicate UniqueFields(s: Schema) {
    forall i, j :: 0 <= i < j < |s.fields| ==>
      s.fields[i].name != s.fields[j].name && s.fields[i].id != s.fields[j].id
  }

  lemma AddedIsUnique(s: Schema, f: Field)
    requires UniqueFields(s) && FieldByName(s, f.name).None?
    ensures UniqueFields(WithField(s, f))
  {
    var now := WithField(s, f);
    forall i, j | 0 <= i < j < |now.fields|
      ensures now.fields[i].name != now.fields[j].name && now.fields[i].id != now.fields[j].id
    {
      assert now.fields[i] in s.fields;
    }
  }

  lemma {:induction false} RemainingAreUnique(fields: seq<Field>, name: string)
    requires UniqueFields(Schema(fields))
    ensures UniqueFields(Schema(WithoutNamed(fields, name)))
    ensures forall f <- WithoutNamed(fields, name) :: f in fields
  {
    if fields != [] {
      var n := |fields| - 1;
      RemainingAreUnique(fields[..n], name);
      var rest := WithoutNamed(fields[..n], name);
      forall i | 0 <= i < |rest| ensures rest[i].name != fields[n].name && rest[i].id != fields[n].id {
        assert rest[i] in fields[..n];
      }
    }
  }

  /** A run never makes two columns share a name or an ID. */
  lemma {:induction false} NamesStayUnique(
    e: M.Encoder, initial: Files, states: seq<System>, events: seq<SystemEvent>, i: nat)
    requires IsRun(e, initial, states, events) && i < |states| && StartedByTable(states, events)
    requires UniqueFields(states[0].mem.schema)
    ensures UniqueFields(SchemaAfter(states[0].mem.schema, events[..i]))
  {
    hide Inv, HasSchema, CreateEffect, FieldByName, WithField, InsertCall, OpenEffect, Started, Enabled, SchemaEffect,
      UniqueFields;
    if i > 0 {
      NamesStayUnique(e, initial, states, events, i - 1);
      var before, ev := SchemaAfter(states[0].mem.schema, events[..i - 1]), events[i - 1];
      assert events[..i][..i - 1] == events[..i - 1];
      SchemaOfRun(e, initial, states, events, i - 1);
      MemorySchema(states[i - 1], before);
      assert Next(e, states[i - 1], ev, states[i - 1 + 1]);
      if ev.AddField? && ev.so.Changed? {
        AddedIsUnique(before, ev.field);
      } else if ev.DropField? && ev.so.Changed? {
        RemainingAreUnique(before.fields, ev.name);
      }
    } else {
      assert events[..0] == [];
    }
  }

  /** In a run, adding a column is refused exactly if the current schema has its name, and dropping
      one exactly if it does not. */
  lemma RefusedExactly(
    e: M.Encoder, initial: Files, states: seq<System>, events: seq<SystemEvent>, i: nat)
    requires IsRun(e, initial, states, events) && i < |events| && StartedByTable(states, events)
    ensures var s := SchemaAfter(states[0].mem.schema, events[..i]);
      match events[i]
      case AddField(f, o, _, _) => o.Refused? <==> exists j :: 0 <= j < |s.fields| && s.fields[j].name == f.name
      case DropField(name, o, _, _) => o.Refused? <==> forall j :: 0 <= j < |s.fields| ==> s.fields[j].name != name
      case _ => true
  {
    hide HasSchema, CreateEffect, InsertCall, OpenEffect, Started, Enabled, SchemaEffect, DiskInv, CacheInv, WriterInv,
      SyncInv;
    var s := SchemaAfter(states[0].mem.schema, events[..i]);
    SchemaOfRun(e, initial, states, events, i);
    MemorySchema(states[i], s);
    RunKeepsInv(e, initial, states, events, i);
    assert Next(e, states[i], events[i], states[i + 1]);
    if events[i].AddField? || events[i].DropField? {
      CachedLatestIsNewest(states[i].files, e, states[i].log, states[i].mem);
    }
  }
}
