/** Merging record batches column by column, for the batch insert and for the async writer. */
module Batches {
  import opened Common
  import opened Sequences
  import opened ByteOrder
  import opened Columns
  import opened Fragments
  import Versions

  /** One value of a column, whatever its type. */
  datatype Element = Number(n: int) | Text(bytes: seq<Byte>)

  function Values(c: Column): (r: seq<Element>)
    ensures |r| == Length(c)
  {
    match c
    case Int8s(v) => Map((n: int) => Number(n), v)
    case Int16s(v) => Map((n: int) => Number(n), v)
    case Int32s(v) => Map((n: int) => Number(n), v)
    case Int64s(v) => Map((n: int) => Number(n), v)
    case Float32s(v) => Map((n: int) => Number(n), v)
    case Float64s(v) => Map((n: int) => Number(n), v)
    case Strings(v) => Map((b: seq<Byte>) => Text(b), v)
    case Binaries(v) => Map((b: seq<Byte>) => Text(b), v)
  }

  /** The columns are slices of the same Go type. */
  predicate SameKind(a: Column, b: Column) {
    match a
    case Int8s(_) => b.Int8s?
    case Int16s(_) => b.Int16s?
    case Int32s(_) => b.Int32s?
    case Int64s(_) => b.Int64s?
    case Float32s(_) => b.Float32s?
    case Float64s(_) => b.Float64s?
    case Strings(_) => b.Strings?
    case Binaries(_) => b.Binaries?
  }

  /** Appends one column to another of the same type. */
  function MergeColumn(a: Column, b: Column): (r: Result<Column>)
    ensures r.Success? <==> SameKind(a, b)
  {
    match (a, b)
    case (Int8s(v), Int8s(w)) => Success(Int8s(v + w))
    case (Int16s(v), Int16s(w)) => Success(Int16s(v + w))
    case (Int32s(v), Int32s(w)) => Success(Int32s(v + w))
    case (Int64s(v), Int64s(w)) => Success(Int64s(v + w))
    case (Float32s(v), Float32s(w)) => Success(Float32s(v + w))
    case (Float64s(v), Float64s(w)) => Success(Float64s(v + w))
    case (Strings(v), Strings(w)) => Success(Strings(v + w))
    case (Binaries(v), Binaries(w)) => Success(Binaries(v + w))
    case _ => Failure("cannot merge")
  }

  /** Merging keeps every value, in order, and the type. */
  lemma MergeAppends(a: Column, b: Column)
    requires SameKind(a, b)
    ensures Values(MergeColumn(a, b).value) == Values(a) + Values(b)
    ensures SameKind(a, MergeColumn(a, b).value)
  {
  }

  // ---------- Batches ----------

  /** The values of column c in a list of batches, in order. */
  function ValuesOf(batches: seq<RecordBatch>, c: int): seq<Element> {
    if batches == [] then []
    else
      var last := batches[|batches| - 1];
      ValuesOf(batches[..|batches| - 1], c) + if c in last.columns then Values(last.columns[c]) else []
  }

  function TotalRows(batches: seq<RecordBatch>): nat {
    if batches == [] then 0 else TotalRows(batches[..|batches| - 1]) + batches[|batches| - 1].numRows
  }

  lemma {:induction false} ValuesOfConcat(a: seq<RecordBatch>, b: seq<RecordBatch>, c: int)
    ensures ValuesOf(a + b, c) == ValuesOf(a, c) + ValuesOf(b, c)
    ensures TotalRows(a + b) == TotalRows(a) + TotalRows(b)
  {
    hide Values;
    if b == [] {
      assert a + b == a;
    } else {
      ValuesOfConcat(a, b[..|b| - 1], c);
      assert (a + b)[..|a + b| - 1] == a + b[..|b| - 1];
    }
  }

  /** Two batches have the same columns with the same types. */
  ghost predicate SameShape(a: RecordBatch, b: RecordBatch) {
    a.columns.Keys == b.columns.Keys && forall c <- a.columns.Keys :: SameKind(a.columns[c], b.columns[c])
  }

  ghost predicate OneShape(batches: seq<RecordBatch>) {
    forall i, j :: 0 <= i < |batches| && 0 <= j < |batches| ==> SameShape(batches[i], batches[j])
  }

  // ---------- mergeRecordBatches ----------

  /** Column c of the first batch with that of every later batch that has it. */
  function MergedColumn(batches: seq<RecordBatch>, c: int): Result<Column>
    requires batches != [] && c in batches[0].columns
  {
    var last := batches[|batches| - 1];
    if |batches| == 1 then Success(last.columns[c])
    else
      match MergedColumn(batches[..|batches| - 1], c)
      case Failure(error) => Failure(error)
      case Success(front) => if c in last.columns then MergeColumn(front, last.columns[c]) else Success(front)
  }

  ghost predicate MergeSucceeds(batches: seq<RecordBatch>) {
    batches != [] &&
    (|batches| > 1 ==>
      && (forall i :: 0 <= i < |batches| ==> batches[i].schemaRef == batches[0].schemaRef)
      && (forall c <- batches[0].columns.Keys :: MergedColumn(batches, c).Success?))
  }

  ghost function Merged(batches: seq<RecordBatch>): (r: RecordBatch)
    requires MergeSucceeds(batches)
  {
    if |batches| == 1 then batches[0]
    else RecordBatch(
      batches[0].schemaRef,
      map c | c in batches[0].columns :: MergedColumn(batches, c).value,
      TotalRows(batches))
  }

  lemma {:induction false} MergedColumnValues(batches: seq<RecordBatch>, c: int)
    requires batches != [] && c in batches[0].columns && MergedColumn(batches, c).Success?
    ensures Values(MergedColumn(batches, c).value) == ValuesOf(batches, c)
    ensures SameKind(batches[0].columns[c], MergedColumn(batches, c).value)
  {
    var front, last := batches[..|batches| - 1], batches[|batches| - 1];
    if |batches| > 1 {
      MergedColumnValues(front, c);
      if c in last.columns {
        MergeAppends(MergedColumn(front, c).value, last.columns[c]);
      }
    } else {
      assert front == [];
      assert ValuesOf(front, c) == [];
    }
  }

  lemma {:induction false} OneShapeMerges(batches: seq<RecordBatch>, c: int)
    requires batches != [] && OneShape(batches) && c in batches[0].columns
    ensures MergedColumn(batches, c).Success?
  {
    if |batches| > 1 {
      var front, last := batches[..|batches| - 1], batches[|batches| - 1];
      OneShapeMerges(front, c);
      MergedColumnValues(front, c);
      assert SameShape(batches[0], last);
      KindTransitive(MergedColumn(front, c).value, batches[0].columns[c], last.columns[c]);
    }
  }

  /** A column merges exactly if every batch that has it has it with the type of the first. */
  lemma {:induction false} ColumnMergesWhen(batches: seq<RecordBatch>, c: int)
    requires batches != [] && c in batches[0].columns
    ensures MergedColumn(batches, c).Success? <==>
            forall i :: 0 <= i < |batches| && c in batches[i].columns ==>
              SameKind(batches[0].columns[c], batches[i].columns[c])
  {
    hide MergeColumn, SameKind;
    if |batches| == 1 {
      SameKindReflexive(batches[0].columns[c]);
    } else {
      var n := |batches| - 1;
      var front := batches[..n];
      ColumnMergesWhen(front, c);
      assert forall i :: 0 <= i < n ==> front[i] == batches[i];
      if MergedColumn(front, c).Success? && c in batches[n].columns {
        MergedColumnValues(front, c);
        SameKindThrough(batches[0].columns[c], MergedColumn(front, c).value, batches[n].columns[c]);
      }
    }
  }

  lemma SameKindReflexive(a: Column)
    ensures SameKind(a, a)
  {
  }

  lemma SameKindThrough(a: Column, b: Column, c: Column)
    requires SameKind(a, b)
    ensures SameKind(a, c) <==> SameKind(b, c)
  {
  }

  /** Batches merge exactly if there is one at least, and several carry one schema object and give
      every column of the first the same type wherever they have it. */
  lemma MergesWhen(batches: seq<RecordBatch>)
    ensures MergeSucceeds(batches) <==>
      && batches != []
      && (|batches| > 1 ==> forall i :: 0 <= i < |batches| ==>
            && batches[i].schemaRef == batches[0].schemaRef
            && forall c <- batches[i].columns.Keys :: c in batches[0].columns ==>
                 SameKind(batches[0].columns[c], batches[i].columns[c]))
  {
    hide SameKind, MergedColumn;
    if batches != [] {
      forall c | c in batches[0].columns
        ensures MergedColumn(batches, c).Success? <==>
                forall i :: 0 <= i < |batches| && c in batches[i].columns ==>
                  SameKind(batches[0].columns[c], batches[i].columns[c])
      {
        ColumnMergesWhen(batches, c);
      }
    }
  }

  lemma KindTransitive(a: Column, b: Column, c: Column)
    requires SameKind(b, a) && SameKind(b, c)
    ensures SameKind(a, c)
  {
  }

  /** Merging batches of one shape under one schema object succeeds; the result has the shape,
      and every column holds the values of all batches in order. */
  lemma MergeKeepsValues(batches: seq<RecordBatch>, c: int)
    requires batches != [] && OneShape(batches)
    requires forall i :: 0 <= i < |batches| ==> batches[i].schemaRef == batches[0].schemaRef
    ensures MergeSucceeds(batches)
    ensures Merged(batches).numRows == TotalRows(batches) && Merged(batches).columns.Keys == batches[0].columns.Keys
    ensures c in batches[0].columns ==> Values(Merged(batches).columns[c]) == ValuesOf(batches, c)
  {
    forall d | d in batches[0].columns ensures MergedColumn(batches, d).Success? {
      OneShapeMerges(batches, d);
    }
    if c in batches[0].columns {
      MergedColumnValues(batches, c);
    }
    if |batches| == 1 {
      assert batches[..0] == [];
      assert TotalRows(batches[..0]) == 0;
    }
  }

  /** mergeRecordBatches: the loops over columns and batches. */
  method MergeRecordBatches(batches: seq<RecordBatch>) returns (r: Result<RecordBatch>)
    ensures r.Success? <==> MergeSucceeds(batches)
    ensures r.Success? ==> r.value == Merged(batches)
  {
    hide MergeColumn;
    if |batches| == 0 {
      return Failure("no batches to merge");
    }
    if |batches| == 1 {
      return Success(batches[0]);
    }
    var totalRows := 0;
    for i := 0 to |batches|
      invariant forall j :: 0 <= j < i ==> batches[j].schemaRef == batches[0].schemaRef
      invariant totalRows == TotalRows(batches[..i])
    {
      if batches[i].schemaRef != batches[0].schemaRef {
        return Failure("schema mismatch in batch insert");
      }
      assert batches[..i + 1][..i] == batches[..i];
      totalRows := totalRows + batches[i].numRows;
    }
    assert batches[..|batches|] == batches;
    var columns: map<int, Column> := map[];
    var left := batches[0].columns.Keys;
    while left != {}
      invariant left <= batches[0].columns.Keys && columns.Keys == batches[0].columns.Keys - left
      invariant forall c <- columns.Keys :: MergedColumn(batches, c) == Success(columns[c])
    {
      Versions.HasMember(left);
      var c :| c in left;
      var merged := MergeOneColumn(batches, c);
      if merged.Failure? {
        return Failure(merged.error);
      }
      columns := columns[c := merged.value];
      left := left - {c};
    }
    return Success(RecordBatch(batches[0].schemaRef, columns, totalRows));
  }

  method MergeOneColumn(batches: seq<RecordBatch>, c: int) returns (r: Result<Column>)
    requires batches != [] && c in batches[0].columns
    ensures r.Success? <==> MergedColumn(batches, c).Success?
    ensures r.Success? ==> r == MergedColumn(batches, c)
  {
    hide MergeColumn;
    var result := batches[0].columns[c];
    for i := 1 to |batches|
      invariant MergedColumn(batches[..i], c) == Success(result)
    {
      assert batches[..i + 1][..i] == batches[..i];
      if c in batches[i].columns {
        var merged := MergeColumn(result, batches[i].columns[c]);
        if merged.Failure? {
          MergeFailsForever(batches, c, i + 1);
          return Failure(merged.error);
        }
        result := merged.value;
      }
    }
    assert batches[..|batches|] == batches;
    return Success(result);
  }

  lemma {:induction false} MergeFailsForever(batches: seq<RecordBatch>, c: int, i: nat)
    requires 0 < i <= |batches| && c in batches[0].columns && MergedColumn(batches[..i], c).Failure?
    ensures MergedColumn(batches, c).Failure?
    decreases |batches| - i
  {
    if i < |batches| {
      assert batches[..i + 1][..i] == batches[..i];
      MergeFailsForever(batches, c, i + 1);
    } else {
      assert batches[..i] == batches;
    }
  }

  // ---------- accumulate ----------

  ghost predicate Accumulates(current: RecordBatch, batch: RecordBatch) {
    forall c <- batch.columns.Keys :: c in current.columns ==> SameKind(current.columns[c], batch.columns[c])
  }

  /** The current batch after a column of an incoming batch was merged into it. */
  function WithColumn(columns: map<int, Column>, c: int, data: Column): Result<map<int, Column>> {
    if c !in columns then Success(columns[c := data])
    else
      match MergeColumn(columns[c], data)
      case Success(merged) => Success(columns[c := merged])
      case Failure(error) => Failure(error)
  }

  /** The current batch after a whole batch was merged into it. */
  ghost function Accumulated(current: RecordBatch, batch: RecordBatch): RecordBatch
    requires Accumulates(current, batch)
  {
    RecordBatch(
      current.schemaRef,
      map c | c in current.columns.Keys + batch.columns.Keys ::
        if c !in batch.columns then current.columns[c]
        else if c !in current.columns then batch.columns[c]
        else MergeColumn(current.columns[c], batch.columns[c]).value,
      current.numRows + batch.numRows)
  }

  /** The batch that accumulating a list of batches builds up, starting from an empty one. */
  ghost function Gathered(schemaRef: int, batches: seq<RecordBatch>): Option<RecordBatch> {
    if batches == [] then Some(RecordBatch(schemaRef, map[], 0))
    else
      match Gathered(schemaRef, batches[..|batches| - 1])
      case None => None
      case Some(front) =>
        if Accumulates(front, batches[|batches| - 1]) then Some(Accumulated(front, batches[|batches| - 1])) else None
  }

  /** Gathering batches of one shape succeeds and keeps every value of every column, in order. */
  lemma {:induction false} GatherKeepsValues(schemaRef: int, batches: seq<RecordBatch>)
    requires OneShape(batches)
    ensures Gathered(schemaRef, batches).Some?
    ensures var g := Gathered(schemaRef, batches).value;
      && g.numRows == TotalRows(batches)
      && (batches != [] ==> SameShape(batches[0], g))
      && (batches == [] ==> g.columns == map[])
      && forall c <- g.columns.Keys :: Values(g.columns[c]) == ValuesOf(batches, c)
  {
    if batches != [] {
      var front, last := batches[..|batches| - 1], batches[|batches| - 1];
      GatherKeepsValues(schemaRef, front);
      var g := Gathered(schemaRef, front).value;
      if front != [] {
        assert SameShape(batches[0], last);
        forall c | c in last.columns ensures SameKind(g.columns[c], last.columns[c]) {
          KindTransitive(g.columns[c], batches[0].columns[c], last.columns[c]);
        }
      }
      GatherStep(schemaRef, batches, front, g, last);
    }
  }

  lemma GatherStep(
    schemaRef: int, batches: seq<RecordBatch>, front: seq<RecordBatch>, g: RecordBatch, last: RecordBatch)
    requires batches == front + [last] && OneShape(batches)
    requires Gathered(schemaRef, front) == Some(g) && Accumulates(g, last)
    requires g.numRows == TotalRows(front)
    requires front != [] ==> SameShape(batches[0], g)
    requires front == [] ==> g.columns == map[]
    requires forall c <- g.columns.Keys :: Values(g.columns[c]) == ValuesOf(front, c)
    ensures Gathered(schemaRef, batches) == Some(Accumulated(g, last))
    ensures Accumulated(g, last).numRows == TotalRows(batches)
    ensures SameShape(batches[0], Accumulated(g, last))
    ensures forall c <- Accumulated(g, last).columns.Keys ::
      Values(Accumulated(g, last).columns[c]) == ValuesOf(batches, c)
  {
    hide Values, SameKind;
    assert batches[..|batches| - 1] == front && batches[|front|] == last;
    assert SameShape(batches[0], last);
    var next := Accumulated(g, last);
    forall c | c in next.columns.Keys
      ensures Values(next.columns[c]) == ValuesOf(batches, c) && SameKind(batches[0].columns[c], next.columns[c])
    {
      if front == [] {
        assert ValuesOf(front, c) == [];
      } else {
        MergeAppends(g.columns[c], last.columns[c]);
        KindThrough(batches[0].columns[c], g.columns[c], next.columns[c]);
      }
    }
  }

  lemma KindThrough(a: Column, b: Column, c: Column)
    requires SameKind(a, b) && SameKind(b, c)
    ensures SameKind(a, c)
  {
  }

  // ---------- Rows that stay together ----------

  /** Every column has width(c) values for each row: 1, or the dimension of a vector column. */
  ghost predicate Aligned(b: RecordBatch, width: int -> nat) {
    forall c <- b.columns.Keys :: |Values(b.columns[c])| == b.numRows * width(c)
  }

  ghost predicate Positive(width: int -> nat) {
    forall c :: width(c) > 0
  }

  lemma Widths(a: nat, b: nat, width: nat)
    ensures (a + b) * width == a * width + b * width
    ensures width > 0 && a * width == b * width ==> a == b
  {
    if a * width == b * width && a != b {
      assert (a - b) * width == 0;
    }
  }

  /** Accumulating does not check for missing columns: the rows of the columns stay together
      exactly when each batch that has rows also has all columns of the other. */
  lemma AccumulateAligned(current: RecordBatch, batch: RecordBatch, width: int -> nat)
    requires Positive(width) && Aligned(current, width) && Aligned(batch, width) && Accumulates(current, batch)
    ensures Aligned(Accumulated(current, batch), width) <==>
            (batch.numRows > 0 ==> current.columns.Keys <= batch.columns.Keys) &&
            (current.numRows > 0 ==> batch.columns.Keys <= current.columns.Keys)
  {
    hide Values, SameKind;
    var both := Accumulated(current, batch);
    forall c | c in both.columns.Keys
      ensures |Values(both.columns[c])| == both.numRows * width(c) <==>
              (c in batch.columns || batch.numRows == 0) && (c in current.columns || current.numRows == 0)
    {
      Widths(current.numRows, batch.numRows, width(c));
      Widths(both.numRows, current.numRows, width(c));
      Widths(both.numRows, batch.numRows, width(c));
      if c in current.columns && c in batch.columns {
        MergeAppends(current.columns[c], batch.columns[c]);
      }
    }
    if Aligned(both, width) {
      forall c | c in both.columns.Keys
        ensures (c in batch.columns || batch.numRows == 0) && (c in current.columns || current.numRows == 0)
      {
        assert |Values(both.columns[c])| == both.numRows * width(c);
      }
    }
  }

  /** The rows of the batches that have column c. */
  function RowsWith(batches: seq<RecordBatch>, c: int): nat {
    if batches == [] then 0
    else
      var last := batches[|batches| - 1];
      RowsWith(batches[..|batches| - 1], c) + if c in last.columns then last.numRows else 0
  }

  lemma {:induction false} ValuesOfAligned(batches: seq<RecordBatch>, c: int, width: int -> nat)
    requires forall i :: 0 <= i < |batches| ==> Aligned(batches[i], width)
    ensures |ValuesOf(batches, c)| == RowsWith(batches, c) * width(c)
  {
    hide Values;
    if batches != [] {
      var n := |batches| - 1;
      ValuesOfAligned(batches[..n], c, width);
      assert Aligned(batches[n], width);
      Widths(RowsWith(batches[..n], c), batches[n].numRows, width(c));
    }
  }

  lemma {:induction false} RowsWithAll(batches: seq<RecordBatch>, c: int)
    ensures RowsWith(batches, c) <= TotalRows(batches)
    ensures RowsWith(batches, c) == TotalRows(batches) <==>
            forall i :: 0 <= i < |batches| && batches[i].numRows > 0 ==> c in batches[i].columns
  {
    if batches != [] {
      var n := |batches| - 1;
      RowsWithAll(batches[..n], c);
      assert batches == batches[..n] + [batches[n]];
      if RowsWith(batches, c) == TotalRows(batches) {
        forall i | 0 <= i < |batches| && batches[i].numRows > 0 ensures c in batches[i].columns {
          if i < n {
            assert batches[..n][i] == batches[i];
          }
        }
      }
    }
  }

  /** Every batch that has rows has all columns of the first. */
  ghost predicate HaveFirstColumns(batches: seq<RecordBatch>) {
    forall i :: 0 <= i < |batches| && batches[i].numRows > 0 ==> batches[0].columns.Keys <= batches[i].columns.Keys
  }

  /** A merged batch has the columns of the first batch and no others; a column of it holds the
      values of all batches that have it. So its rows stay together exactly when every batch that
      has rows has all columns of the first. */
  lemma MergedExactly(batches: seq<RecordBatch>, width: int -> nat)
    requires MergeSucceeds(batches) && Positive(width)
    requires forall i :: 0 <= i < |batches| ==> Aligned(batches[i], width)
    ensures Merged(batches).numRows == TotalRows(batches)
    ensures Merged(batches).columns.Keys == batches[0].columns.Keys
    ensures forall c <- batches[0].columns.Keys :: Values(Merged(batches).columns[c]) == ValuesOf(batches, c)
    ensures Aligned(Merged(batches), width) <==> HaveFirstColumns(batches)
  {
    hide Values, MergedColumn;
    MergedAnyShape(batches);
    var merged := Merged(batches);
    forall c | c in batches[0].columns.Keys
      ensures |Values(merged.columns[c])| == merged.numRows * width(c) <==>
              forall i :: 0 <= i < |batches| && batches[i].numRows > 0 ==> c in batches[i].columns
    {
      ValuesOfAligned(batches, c, width);
      RowsWithAll(batches, c);
      Widths(RowsWith(batches, c), merged.numRows, width(c));
    }
    if Aligned(merged, width) {
      forall i | 0 <= i < |batches| && batches[i].numRows > 0
        ensures batches[0].columns.Keys <= batches[i].columns.Keys
      {
        forall c | c in batches[0].columns.Keys ensures c in batches[i].columns {
          assert |Values(merged.columns[c])| == merged.numRows * width(c);
        }
      }
    }
  }

  /** What a merge keeps, whatever columns the batches have. */
  lemma MergedAnyShape(batches: seq<RecordBatch>)
    requires MergeSucceeds(batches)
    ensures Merged(batches).numRows == TotalRows(batches)
    ensures Merged(batches).columns.Keys == batches[0].columns.Keys
    ensures forall c <- batches[0].columns.Keys :: Values(Merged(batches).columns[c]) == ValuesOf(batches, c)
  {
    hide Values;
    if |batches| == 1 {
      assert batches[..0] == [];
      assert TotalRows(batches[..0]) == 0;
      forall c | c in batches[0].columns.Keys ensures Values(Merged(batches).columns[c]) == ValuesOf(batches, c) {
        assert ValuesOf(batches[..0], c) == [];
      }
    } else {
      forall c | c in batches[0].columns.Keys ensures Values(Merged(batches).columns[c]) == ValuesOf(batches, c) {
        MergedColumnValues(batches, c);
      }
    }
  }

  /** Two aligned batches, one with a vector column of dimension 2 that the other lacks: both ways
      of joining them succeed and leave two rows with one vector. */
  lemma RowsMoveApart() returns (full: RecordBatch, lacking: RecordBatch, width: int -> nat)
    ensures Positive(width) && Aligned(full, width) && Aligned(lacking, width)
    ensures Accumulates(full, lacking) && !Aligned(Accumulated(full, lacking), width)
    ensures MergeSucceeds([full, lacking]) && !Aligned(Merged([full, lacking]), width)
  {
    full := RecordBatch(0, map[1 := Int32s([7]), 2 := Float32s([0, 0])], 1);
    lacking := RecordBatch(0, map[1 := Int32s([8])], 1);
    width := (c: int) => if c == 2 then 2 else 1;
    AccumulateAligned(full, lacking, width);
    assert 2 in full.columns.Keys && 2 !in lacking.columns.Keys;
    var batches := [full, lacking];
    assert batches[..1] == [full];
    forall c | c in full.columns.Keys ensures MergedColumn(batches, c).Success? {
      assert MergedColumn(batches[..1], c) == Success(full.columns[c]);
    }
    MergedExactly(batches, width);
    assert batches[1] == lacking;
  }
}
