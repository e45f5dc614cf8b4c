/** One concrete table and query on which filter-first answers and search-first fails. */
module SampleQuery {
  import opened Common
  import opened ByteOrder
  import opened Columns
  import opened Float64
  import opened Store
  import opened Fragments
  import opened Batches
  import opened Metrics
  import opened ScanFilter
  import opened BruteForce
  import opened HybridSearch
  import opened TableScans
  import M = MiniBlock

  const ENCODER := M.Encoder(M.NoCompression, 0)
  const SCHEMA := Schema([Field(1, "n", TypeInt32, 0), Field(2, "v", TypeFixedSizeList, 2)])
  const ONE := 0x3F80_0000
  const NUMBERS := Int32s([7, 8])
  const VECTORS := Float32s([0, 0, 0, ONE])
  const VALUES := [Number(0), Number(0), Number(0), Number(ONE)]
  const BATCH := RecordBatch(0, map[1 := NUMBERS, 2 := VECTORS], 2)
  const QUERY := VectorQuery([0.0, 1.0], "v", Cosine)
  const FILTER := [Condition("n", EQ, Whole(8))]

  /** Float32 patterns as IEEE 754 reads these two, and integers as float64 rounds them. */
  ghost predicate ReadsNumbers(num: Arithmetic) {
    IsSqrt(num.sqrt) && ConvertsToNearest(num) && num.ofFloat32(0) == 0.0 && num.ofFloat32(ONE) == 1.0
  }

  lemma OnePage(c: Column, t: DataType) returns (bytes: M.Bytes)
    requires M.Serialize(c, t).Success? && |M.Serialize(c, t).value| <= 16 && M.ShortElements(c)
    ensures M.Encode(ENCODER, c, t) == Success(bytes) && M.Decode(ENCODER, bytes, t) == M.Value(c)
  {
    hide M.Encode, M.Decode, M.Serialize;
    M.UncompressedRoundTripExact(0, c, t);
    M.NoMoreBlocksThanBytes(M.Serialize(c, t).value, M.EffectiveBlockSize(0));
    bytes := M.Encode(ENCODER, c, t).value;
  }

  function FilesWith(numbers: M.Bytes, vectors: M.Bytes): Files {
    map[DataPath(0, 1) := DataContent(numbers), DataPath(0, 2) := DataContent(vectors)]
  }

  function FragmentWith(numbers: M.Bytes, vectors: M.Bytes): Fragment {
    Fragment(0, 2, [DataFileOf(0, 1, Stored(numbers, 2)), DataFileOf(0, 2, Stored(vectors, 2))], 2)
  }

  lemma FieldsOfSchema()
    ensures FieldByID(SCHEMA, 1) == Some(SCHEMA.fields[0]) && FieldByID(SCHEMA, 2) == Some(SCHEMA.fields[1])
    ensures FieldByName(SCHEMA, "n") == Some(SCHEMA.fields[0]) && FieldByName(SCHEMA, "v") == Some(SCHEMA.fields[1])
  {
    assert SCHEMA.fields[1..][0] == SCHEMA.fields[1];
  }

  /** The pages of the two columns. */
  ghost predicate ArePages(numbers: M.Bytes, vectors: M.Bytes) {
    && M.Encode(ENCODER, NUMBERS, TypeInt32) == Success(numbers)
    && M.Decode(ENCODER, numbers, TypeInt32) == M.Value(NUMBERS)
    && M.Encode(ENCODER, VECTORS, TypeFixedSizeList) == Success(vectors)
    && M.Decode(ENCODER, vectors, TypeFixedSizeList) == M.Value(VECTORS)
  }

  lemma Pages() returns (numbers: M.Bytes, vectors: M.Bytes)
    ensures ArePages(numbers, vectors)
  {
    hide M.Encode, M.Decode, M.SerializeWords;
    M.SerializedWords(M.UnsignedAll(NUMBERS.int32s, TWO_32), 4);
    M.SerializedWords(VECTORS.float32s, 4);
    numbers := OnePage(NUMBERS, TypeInt32);
    vectors := OnePage(VECTORS, TypeFixedSizeList);
  }

  /** The two files and the fragment are what a writer of the batch leaves. */
  lemma IsWritten(numbers: M.Bytes, vectors: M.Bytes)
    requires ArePages(numbers, vectors)
    ensures IsFragmentOf(FragmentWith(numbers, vectors), ENCODER, SCHEMA, BATCH)
    ensures ColumnsStored(FilesWith(numbers, vectors), ENCODER, SCHEMA, 0, BATCH.columns)
  {
    hide M.Encode, M.Decode, FieldByID;
    FieldsOfSchema();
    var f := FragmentWith(numbers, vectors);
    assert f.dataFiles[0].columnId == 1 && f.dataFiles[1].columnId == 2;
  }

  lemma ReadsBack(numbers: M.Bytes, vectors: M.Bytes)
    requires ArePages(numbers, vectors)
    ensures var files, f := FilesWith(numbers, vectors), FragmentWith(numbers, vectors);
      && ReadColumn(files, ENCODER, SCHEMA, f, 1) == M.Value(NUMBERS)
      && ReadColumn(files, ENCODER, SCHEMA, f, 2) == M.Value(VECTORS)
  {
    hide M.Encode, M.Decode, FieldByID;
    FieldsOfSchema();
    var f := FragmentWith(numbers, vectors);
    FindsTheFile(f.dataFiles, 0);
    FindsTheFile(f.dataFiles, 1);
    assert numbers[..|numbers|] == numbers && vectors[..|vectors|] == vectors;
  }

  function EngineOver(num: Arithmetic, files: Files): Engine {
    var src := Source(files, ENCODER, SCHEMA, SCHEMA);
    Engine(num, src, src)
  }

  lemma Backed(num: Arithmetic, numbers: M.Bytes, vectors: M.Bytes)
    requires ArePages(numbers, vectors)
    ensures QueryBacked(EngineOver(num, FilesWith(numbers, vectors)), [FragmentWith(numbers, vectors)], [BATCH],
                        Query(Some(QUERY), Some(FILTER), 0))
  {
    hide ReadColumn, ArePages;
    ReadsBack(numbers, vectors);
    FieldsOfSchema();
  }

  lemma ValuesOfTable()
    ensures ValuesOf([BATCH], 1) == [Number(7), Number(8)] && ValuesOf([BATCH], 2) == VALUES
    ensures TotalRows([BATCH]) == 2
  {
    assert [BATCH][..0] == [];
  }

  /** Row 0 has a zero vector. */
  lemma Distances(num: Arithmetic)
    requires ReadsNumbers(num)
    ensures !HasDistance(num, QUERY, VALUES, 0)
    ensures HasDistance(num, QUERY, VALUES, 1)
  {
    hide IsSqrt, ConvertsToNearest;
    assert VALUES[0 * 2..0 * 2 + 2] == [Number(0), Number(0)];
    assert VALUES[1 * 2..1 * 2 + 2] == [Number(0), Number(ONE)];
    assert TableVector(num, VALUES, 2, 0) == [0.0, 0.0];
    assert TableVector(num, VALUES, 2, 1) == [0.0, 1.0];
    assert QUERY.vector[1] != 0.0 && TableVector(num, VALUES, 2, 1)[1] != 0.0;
  }

  /** Row 1 matches the filter, and row 0 does not. */
  lemma Matching(num: Arithmetic)
    requires ReadsNumbers(num)
    ensures TableMatches(num, SCHEMA, [BATCH], FILTER) == {1}
  {
    hide IsSqrt, Rounded, ValuesOf, FieldByName, TotalRows;
    FieldsOfSchema();
    ValuesOfTable();
    SmallStays(7);
    SmallStays(8);
    assert num.ofInt(7) == 7.0 && num.ofInt(8) == 8.0;
    assert !TableRowMatches(num, SCHEMA, [BATCH], FILTER[0], 0);
    assert TableRowMatches(num, SCHEMA, [BATCH], FILTER[0], 1);
    assert !TableRowPasses(num, SCHEMA, [BATCH], FILTER, 0) && TableRowPasses(num, SCHEMA, [BATCH], FILTER, 1);
  }

  lemma VectorsOfTable()
    ensures VectorField(SCHEMA, QUERY.column) == Some(SCHEMA.fields[1])
    ensures VectorValues(SCHEMA, [BATCH], QUERY) == VALUES
  {
    hide ValuesOf, FieldByName;
    FieldsOfSchema();
    ValuesOfTable();
  }

  lemma PlansPartOver(num: Arithmetic, files: Files, f: Fragment)
    requires ReadsNumbers(num)
    requires QueryBacked(EngineOver(num, files), [f], [BATCH], Query(Some(QUERY), Some(FILTER), 0))
    ensures var q := Query(Some(QUERY), Some(FILTER), 0);
      && Succeeds(EngineOver(num, files), [f], q, FilterFirst)
      && !Succeeds(EngineOver(num, files), [f], q, SearchFirst)
  {
    hide IsSqrt, Succeeds, QueryBacked, HasDistance, TableMatches, VectorValues, ConvertsToNearest, TotalRows;
    VectorsOfTable();
    ValuesOfTable();
    Distances(num);
    Matching(num);
    PlansPartWhen(EngineOver(num, files), [f], [BATCH], QUERY, FILTER, 0);
  }

  /** Filter-first answers, because the matching row has a distance; search-first fails on the other. */
  lemma PlansPart(num: Arithmetic) returns (files: Files, f: Fragment)
    requires ReadsNumbers(num)
    ensures IsFragmentOf(f, ENCODER, SCHEMA, BATCH) && ColumnsStored(files, ENCODER, SCHEMA, f.id, BATCH.columns)
    ensures var q := Query(Some(QUERY), Some(FILTER), 0);
      && Succeeds(EngineOver(num, files), [f], q, FilterFirst)
      && !Succeeds(EngineOver(num, files), [f], q, SearchFirst)
  {
    hide IsSqrt, IsFragmentOf, ColumnsStored, ReadColumn, Succeeds, QueryBacked, ConvertsToNearest, FilesWith,
      ArePages;
    var numbers, vectors := Pages();
    IsWritten(numbers, vectors);
    files, f := FilesWith(numbers, vectors), FragmentWith(numbers, vectors);
    Backed(num, numbers, vectors);
    PlansPartOver(num, files, f);
  }
}
