/** Fragments: one data file per column, written column by column and read back. */
module Fragments {
  import opened Common
  import opened Columns
  import opened Store
  import opened Versions
  import M = MiniBlock

  /** Columnar data for some rows. schemaRef is the identity of the schema object it carries. */
  datatype RecordBatch = RecordBatch(schemaRef: int, columns: map<int, Column>, numRows: nat)

  // ---------- Writing ----------

  /** The number of rows in a column's data, by the type of its field. */
  function InferNumRows(data: Column, field: Field): Result<nat> {
    if field.dataType.OtherType? then Failure("unsupported field type")
    else if !HasType(data, field.dataType) then Failure("unexpected Go type")
    else if field.dataType.TypeFixedSizeList? then
      if field.dimension <= 0 then Failure("invalid dimension") else Success(Length(data) / field.dimension)
    else Success(Length(data))
  }

  /** The number of values that make up one row of a column. */
  function Width(field: Field): int {
    if field.dataType.TypeFixedSizeList? then field.dimension else 1
  }

  /** The data holds this many whole rows of the field. */
  predicate HoldsRows(data: Column, field: Field, rows: nat) {
    rows * Width(field) <= Length(data) < rows * Width(field) + Width(field)
  }

  /** The row count of data of the right type and a positive width is that of its whole rows; of
      any other data there is none. */
  lemma InferredExactly(data: Column, field: Field, rows: nat)
    ensures InferNumRows(data, field) == Success(rows) <==>
            HasType(data, field.dataType) && Width(field) > 0 && HoldsRows(data, field, rows)
  {
    if Width(field) > 0 {
      WholeMultiples(Length(data), rows, Width(field));
    }
  }

  lemma WholeMultiples(n: nat, b: nat, w: nat)
    requires w > 0
    ensures b * w <= n < b * w + w <==> n / w == b
  {
    var a := n / w;
    assert n == a * w + n % w;
    if a < b {
      MultiplesApart(a, b, w);
    } else if a > b {
      MultiplesApart(b, a, w);
    }
  }

  lemma MultiplesApart(a: nat, b: nat, w: nat)
    requires a < b
    ensures a * w + w <= b * w
  {
    OneMore(a, w);
    Ordered(a + 1, b, w);
  }

  lemma OneMore(a: nat, w: nat)
    ensures (a + 1) * w == a * w + w
  {
  }

  lemma Ordered(a: nat, b: nat, w: nat)
    requires a <= b
    ensures a * w <= b * w
  {
  }

  /** What a successful WriteColumn stores and records. */
  datatype Stored = Stored(bytes: M.Bytes, rows: nat)

  function StoredForm(e: M.Encoder, s: Schema, columnId: int, data: Column): Result<Stored> {
    match FieldByID(s, columnId)
    case None => Failure("field not found in schema")
    case Some(field) =>
      match M.Encode(e, data, field.dataType)
      case Failure(error) => Failure(error)
      case Success(bytes) =>
        match InferNumRows(data, field)
        case Failure(error) => Failure(error)
        case Success(rows) => Success(Stored(bytes, rows))
  }

  function DataFileOf(fragmentId: int, columnId: int, form: Stored): DataFile {
    DataFile(DataPath(fragmentId, columnId), columnId, form.rows, |form.bytes|)
  }

  /** files hold the columns of a fragment. */
  ghost predicate ColumnsStored(
    files: Files, e: M.Encoder, s: Schema, fragmentId: int, columns: map<int, Column>)
  {
    forall c <- columns.Keys ::
      && StoredForm(e, s, c, columns[c]).Success?
      && DataPath(fragmentId, c) in files
      && files[DataPath(fragmentId, c)] == DataContent(StoredForm(e, s, c, columns[c]).value.bytes)
  }

  /** dataFiles lists every column exactly once. */
  ghost predicate ListsColumns(
    dataFiles: seq<DataFile>, e: M.Encoder, s: Schema, fragmentId: int, columns: map<int, Column>)
  {
    && (forall i :: 0 <= i < |dataFiles| ==>
          var c := dataFiles[i].columnId;
          && c in columns && StoredForm(e, s, c, columns[c]).Success?
          && dataFiles[i] == DataFileOf(fragmentId, c, StoredForm(e, s, c, columns[c]).value))
    && (forall i, j :: 0 <= i < j < |dataFiles| ==> dataFiles[i].columnId != dataFiles[j].columnId)
    && (forall c <- columns.Keys :: exists i :: 0 <= i < |dataFiles| && dataFiles[i].columnId == c)
  }

  /** numRows is the largest row count among the data files, 0 without any. */
  ghost predicate IsMaxRows(numRows: nat, dataFiles: seq<DataFile>) {
    && (forall i :: 0 <= i < |dataFiles| ==> dataFiles[i].numRows <= numRows)
    && (numRows == 0 || exists i :: 0 <= i < |dataFiles| && dataFiles[i].numRows == numRows)
  }

  /** The fragment a batch is written as. */
  ghost predicate IsFragmentOf(f: Fragment, e: M.Encoder, s: Schema, batch: RecordBatch) {
    && ListsColumns(f.dataFiles, e, s, f.id, batch.columns)
    && IsMaxRows(f.numRows, f.dataFiles)
    && f.physicalRows == f.numRows
  }

  function PathsOf(fragmentId: int, columns: set<int>): set<Path> {
    set c | c in columns :: DataPath(fragmentId, c)
  }

  class FragmentWriter {
    const store: ObjectStore
    const schema: Schema
    const fragmentId: int
    const encoder: M.Encoder
    var dataFiles: seq<DataFile>
    var numRows: nat

    /** numRows is the largest row count so far. */
    ghost predicate Valid()
      reads this
    {
      IsMaxRows(numRows, dataFiles)
    }

    constructor (store: ObjectStore, schema: Schema, fragmentId: int, encoder: M.Encoder)
      ensures this.store == store && this.schema == schema && this.fragmentId == fragmentId
      ensures this.encoder == encoder && dataFiles == [] && Valid()
    {
      this.store, this.schema, this.fragmentId, this.encoder := store, schema, fragmentId, encoder;
      dataFiles, numRows := [], 0;
    }

    method WriteColumn(columnId: int, data: Column) returns (r: Result<()>)
      requires Valid()
      modifies this, store
      ensures Valid()
      ensures ChangedOnly(old(store.files), store.files, {DataPath(fragmentId, columnId)})
      ensures r.Success? ==>
        var form := StoredForm(encoder, schema, columnId, data);
        && form.Success?
        && store.files == old(store.files)[DataPath(fragmentId, columnId) := DataContent(form.value.bytes)]
        && dataFiles == old(dataFiles) + [DataFileOf(fragmentId, columnId, form.value)]
        && HoldsRows(data, FieldByID(schema, columnId).value, form.value.rows)
      ensures r.Failure? ==> dataFiles == old(dataFiles) && numRows == old(numRows)
    {
      hide M.Encode, InferNumRows, IsMaxRows, ChangedOnly;
      NothingChanged(store.files, {DataPath(fragmentId, columnId)});
      var field := FieldByID(schema, columnId);
      if field.None? {
        return Failure("field not found in schema");
      }
      var encoded := M.Encode(encoder, data, field.value.dataType);
      if encoded.Failure? {
        return Failure(encoded.error);
      }
      var path := DataPath(fragmentId, columnId);
      var ok := store.Write(path, DataContent(encoded.value));
      if !ok {
        return Failure("write failed");
      }
      var size := store.Size(path);
      if size.None? {
        return Failure("stat failed");
      }
      var rowCount := InferNumRows(data, field.value);
      if rowCount.Failure? {
        return Failure(rowCount.error);
      }
      ghost var form := Stored(encoded.value, rowCount.value);
      InferredExactly(data, field.value, rowCount.value);
      ExtendMax(numRows, dataFiles, DataFileOf(fragmentId, columnId, form));
      dataFiles := dataFiles + [DataFile(path, columnId, rowCount.value, size.value)];
      if rowCount.value > numRows {
        numRows := rowCount.value;
      }
      return Success(());
    }

    /** Writes the columns of a batch in no particular order. */
    method WriteBatch(batch: RecordBatch) returns (r: Result<()>)
      requires Valid()
      modifies this, store
      ensures Valid() && old(dataFiles) <= dataFiles
      ensures ChangedOnly(old(store.files), store.files, PathsOf(fragmentId, batch.columns.Keys))
      ensures r.Success? ==>
        && ListsColumns(dataFiles[|old(dataFiles)|..], encoder, schema, fragmentId, batch.columns)
        && ColumnsStored(store.files, encoder, schema, fragmentId, batch.columns)
    {
      hide ListsColumns, IsMaxRows, ColumnsStored, ChangedOnly, StoredForm;
      var columns, left := batch.columns, batch.columns.Keys;
      NothingWritten(store.files, encoder, schema, fragmentId);
      NothingChanged(store.files, PathsOf(fragmentId, columns.Keys));
      ghost var start := |dataFiles|;
      assert columns - left == map[] && dataFiles[start..] == [];
      while left != {}
        invariant left <= columns.Keys
        invariant Valid() && old(dataFiles) <= dataFiles
        invariant ChangedOnly(old(store.files), store.files, PathsOf(fragmentId, columns.Keys))
        invariant ColumnsStored(store.files, encoder, schema, fragmentId, columns - left)
        invariant ListsColumns(dataFiles[start..], encoder, schema, fragmentId, columns - left)
      {
        HasMember(left);
        var c :| c in left;
        ghost var before, listed := store.files, dataFiles;
        var written := WriteColumn(c, columns[c]);
        assert DataPath(fragmentId, c) in PathsOf(fragmentId, columns.Keys);
        ChangedMore(old(store.files), before, store.files, PathsOf(fragmentId, columns.Keys),
                    {DataPath(fragmentId, c)});
        if written.Failure? {
          return Failure(written.error);
        }
        StoreMore(before, encoder, schema, fragmentId, columns - left, c, columns[c]);
        ExtendList(listed[start..], encoder, schema, fragmentId, columns - left, c, columns[c]);
        assert dataFiles[start..] == listed[start..] + [dataFiles[|listed|]];
        assert (columns - left)[c := columns[c]] == columns - (left - {c});
        left := left - {c};
      }
      assert columns - left == columns;
      return Success(());
    }

    /** The fragment of everything written. If that is the columns of a batch, each once, it is
        the fragment of that batch. */
    method Finish(ghost batch: RecordBatch) returns (f: Fragment)
      requires Valid()
      ensures f.id == fragmentId && f.dataFiles == dataFiles
      ensures IsMaxRows(f.numRows, f.dataFiles) && f.physicalRows == f.numRows
      ensures ListsColumns(dataFiles, encoder, schema, fragmentId, batch.columns) ==>
        IsFragmentOf(f, encoder, schema, batch)
    {
      return Fragment(fragmentId, numRows, dataFiles, numRows);
    }
  }

  lemma NothingChanged(files: Files, paths: set<Path>)
    ensures ChangedOnly(files, files, paths)
  {
  }

  lemma NothingWritten(files: Files, e: M.Encoder, s: Schema, fragmentId: int)
    ensures ColumnsStored(files, e, s, fragmentId, map[])
    ensures ListsColumns([], e, s, fragmentId, map[]) && IsMaxRows(0, [])
  {
  }

  lemma StoreMore(
    files: Files, e: M.Encoder, s: Schema, fragmentId: int, columns: map<int, Column>, c: int, data: Column)
    requires ColumnsStored(files, e, s, fragmentId, columns) && c !in columns
    requires StoredForm(e, s, c, data).Success?
    ensures ColumnsStored(files[DataPath(fragmentId, c) := DataContent(StoredForm(e, s, c, data).value.bytes)],
                          e, s, fragmentId, columns[c := data])
  {
    hide StoredForm;
  }

  lemma ExtendList(
    dataFiles: seq<DataFile>, e: M.Encoder, s: Schema, fragmentId: int, columns: map<int, Column>, c: int, data: Column)
    requires ListsColumns(dataFiles, e, s, fragmentId, columns) && c !in columns
    requires StoredForm(e, s, c, data).Success?
    ensures ListsColumns(dataFiles + [DataFileOf(fragmentId, c, StoredForm(e, s, c, data).value)],
                         e, s, fragmentId, columns[c := data])
  {
    hide StoredForm;
    var more := dataFiles + [DataFileOf(fragmentId, c, StoredForm(e, s, c, data).value)];
    assert more[|dataFiles|].columnId == c;
    forall d | d in columns.Keys ensures exists i :: 0 <= i < |more| && more[i].columnId == d {
      var i :| 0 <= i < |dataFiles| && dataFiles[i].columnId == d;
      assert more[i].columnId == d;
    }
  }

  lemma ExtendMax(numRows: nat, dataFiles: seq<DataFile>, f: DataFile)
    requires IsMaxRows(numRows, dataFiles)
    ensures IsMaxRows(Max(numRows, f.numRows), dataFiles + [f])
  {
    var more := dataFiles + [f];
    assert more[|dataFiles|] == f;
    if f.numRows <= numRows && numRows > 0 {
      var i :| 0 <= i < |dataFiles| && dataFiles[i].numRows == numRows;
      assert more[i].numRows == numRows;
    }
  }

  // ---------- Reading ----------

  /** The first data file of a column. */
  function FindDataFile(dataFiles: seq<DataFile>, columnId: int): Option<DataFile> {
    if dataFiles == [] then None
    else if dataFiles[0].columnId == columnId then Some(dataFiles[0])
    else FindDataFile(dataFiles[1..], columnId)
  }

  /** Reading length bytes from the start of a file. */
  function ReadFile(files: Files, path: Path, length: nat): Option<M.Bytes> {
    if path !in files || !files[path].DataContent? || |files[path].bytes| < length then None
    else Some(files[path].bytes[..length])
  }

  function ReadColumn(files: Files, e: M.Encoder, s: Schema, f: Fragment, columnId: int): M.Outcome<Column> {
    match FieldByID(s, columnId)
    case None => M.Error
    case Some(field) =>
      match FindDataFile(f.dataFiles, columnId)
      case None => M.Error
      case Some(df) =>
        match ReadFile(files, df.path, df.fileSize)
        case None => M.Error
        case Some(bytes) => M.Decode(e, bytes, field.dataType)
  }

  lemma {:induction false} FindsTheFile(dataFiles: seq<DataFile>, i: nat)
    requires i < |dataFiles|
    requires forall j, k :: 0 <= j < k < |dataFiles| ==> dataFiles[j].columnId != dataFiles[k].columnId
    ensures FindDataFile(dataFiles, dataFiles[i].columnId) == Some(dataFiles[i])
  {
    if i > 0 {
      FindsTheFile(dataFiles[1..], i - 1);
    }
  }

  lemma {:induction false} FindsNoFile(dataFiles: seq<DataFile>, columnId: int)
    requires forall j :: 0 <= j < |dataFiles| ==> dataFiles[j].columnId != columnId
    ensures FindDataFile(dataFiles, columnId) == None
  {
    if dataFiles != [] {
      FindsNoFile(dataFiles[1..], columnId);
    }
  }

  /** The page of this column decodes: nothing in it is too long for its 32-bit length. */
  ghost predicate FitsPage(e: M.Encoder, data: Column, t: DataType) {
    M.ShortElements(data) && (M.Encode(e, data, t).Success? ==> M.PageFits(e, data, t))
  }

  /** Through any later schema, a column reads as the serialised data of whatever was stored
      under its ID, taken as the type that the schema declares. */
  lemma ReadsStoredBytes(
    files: Files, e: M.Encoder, s: Schema, batch: RecordBatch, f: Fragment, later: Schema, c: int, t: DataType,
    u: DataType)
    requires M.Lossless(e.compressor)
    requires IsFragmentOf(f, e, s, batch) && ColumnsStored(files, e, s, f.id, batch.columns)
    requires c in batch.columns && FitsPage(e, batch.columns[c], t)
    requires FieldByID(s, c).Some? && FieldByID(s, c).value.dataType == t
    requires FieldByID(later, c).Some? && FieldByID(later, c).value.dataType == u
    ensures M.Serialize(batch.columns[c], t).Success?
    ensures ReadColumn(files, e, later, f, c) == M.Deserialize(M.Serialize(batch.columns[c], t).value, u)
  {
    hide M.Encode, M.Decode, M.PageFits, M.ShortElements, M.Lossless, M.Serialize, M.Deserialize;
    var i :| 0 <= i < |f.dataFiles| && f.dataFiles[i].columnId == c;
    FindsTheFile(f.dataFiles, i);
    var page := M.Encode(e, batch.columns[c], t).value;
    M.PageReadAs(e, batch.columns[c], t, u, []);
    assert page + [] == page && page[..|page|] == page;
  }

  /** A column reads back as it was written, through any later schema that keeps its type. */
  lemma ReadsWhatWasWritten(
    files: Files, e: M.Encoder, s: Schema, batch: RecordBatch, f: Fragment, later: Schema, c: int, t: DataType)
    requires M.Lossless(e.compressor)
    requires IsFragmentOf(f, e, s, batch) && ColumnsStored(files, e, s, f.id, batch.columns)
    requires c in batch.columns && FitsPage(e, batch.columns[c], t)
    requires FieldByID(s, c).Some? && FieldByID(s, c).value.dataType == t
    requires FieldByID(later, c).Some? && FieldByID(later, c).value.dataType == t
    ensures ReadColumn(files, e, later, f, c) == M.Value(batch.columns[c])
  {
    hide M.Encode, M.PageFits, M.Lossless, M.Serialize, M.Deserialize, IsFragmentOf, ColumnsStored, ReadColumn;
    ReadsStoredBytes(files, e, s, batch, f, later, c, t, t);
    M.ColumnRoundTrip(batch.columns[c], t);
  }

  /** A column that one writer wrote twice is listed twice. A reader takes the size of the first
      entry and the bytes of the second write, so it gets the second data exactly if both pages
      have the same size, and an error otherwise. */
  lemma RewrittenColumnReads(
    files: Files, e: M.Encoder, s: Schema, f: Fragment, c: int, first: Column, second: Column, t: DataType)
    requires M.Lossless(e.compressor) && FitsPage(e, second, t)
    requires FieldByID(s, c).Some? && FieldByID(s, c).value.dataType == t
    requires StoredForm(e, s, c, first).Success? && StoredForm(e, s, c, second).Success?
    requires FindDataFile(f.dataFiles, c) == Some(DataFileOf(f.id, c, StoredForm(e, s, c, first).value))
    requires DataPath(f.id, c) in files
    requires files[DataPath(f.id, c)] == DataContent(StoredForm(e, s, c, second).value.bytes)
    ensures var read := ReadColumn(files, e, s, f, c);
      if |StoredForm(e, s, c, first).value.bytes| == |StoredForm(e, s, c, second).value.bytes|
      then read == M.Value(second) else read == M.Error
  {
    hide M.Decode, M.PageFits, M.ShortElements, M.Lossless, M.Serialize, M.SerializeStrings, M.CompressAll, M.Header,
      InferNumRows;
    var page, size := StoredForm(e, s, c, second).value.bytes, |StoredForm(e, s, c, first).value.bytes|;
    if size == |page| {
      M.PageRoundTrip(e, second, t, []);
      assert page + [] == page && page[..size] == page;
    } else if size < |page| {
      M.PagePrefixFails(e, second, t, size);
    }
  }

  /** The rows a scan assigns to a fragment. */
  function RowsOf(f: Fragment): nat {
    if f.physicalRows > 0 then f.physicalRows else f.numRows
  }

  /** The RowID of the first row of fragment i. */
  function RowOffset(fragments: seq<Fragment>, i: nat): nat
    requires i <= |fragments|
  {
    if i == 0 then 0 else RowOffset(fragments, i - 1) + RowsOf(fragments[i - 1])
  }

  class FragmentReader {
    const store: ObjectStore
    const schema: Schema
    const encoder: M.Encoder

    constructor (store: ObjectStore, schema: Schema, encoder: M.Encoder)
      ensures this.store == store && this.schema == schema && this.encoder == encoder
    {
      this.store, this.schema, this.encoder := store, schema, encoder;
    }

    /** The columns of a fragment as a batch; its row count is the physical one unless that is 0. */
    method ReadBatch(f: Fragment, columnIds: seq<int>) returns (r: M.Outcome<map<int, Column>>, numRows: nat)
      ensures numRows == if f.physicalRows == 0 then f.numRows else f.physicalRows
      ensures r.Value? <==>
        forall i :: 0 <= i < |columnIds| ==> ReadColumn(store.files, encoder, schema, f, columnIds[i]).Value?
      ensures r.Value? ==> r.value.Keys == set i | 0 <= i < |columnIds| :: columnIds[i]
      ensures r.Value? ==>
        forall c <- r.value.Keys :: ReadColumn(store.files, encoder, schema, f, c) == M.Value(r.value[c])
    {
      hide ReadColumn;
      numRows := f.physicalRows;
      if numRows == 0 {
        numRows := f.numRows;
      }
      var columns: map<int, Column> := map[];
      for i := 0 to |columnIds|
        invariant columns.Keys == set j | 0 <= j < i :: columnIds[j]
        invariant forall j :: 0 <= j < i ==> ReadColumn(store.files, encoder, schema, f, columnIds[j]).Value?
        invariant forall c <- columns.Keys ::
                    ReadColumn(store.files, encoder, schema, f, c) == M.Value(columns[c])
      {
        var data := ReadColumn(store.files, encoder, schema, f, columnIds[i]);
        if !data.Value? {
          return (if data.Panic? then M.Panic else M.Error), numRows;
        }
        columns := columns[columnIds[i] := data.value];
      }
      return M.Value(columns), numRows;
    }
  }
}
