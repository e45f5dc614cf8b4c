/** Searching the fragments of a version is searching one table in memory: the batches
    committed up to that version, one after the other. */
module TableScans {
  import opened Common
  import opened ByteOrder
  import opened Columns
  import opened Store
  import opened ManifestStore
  import opened Fragments
  import opened Batches
  import opened TableState
  import opened TableRuns
  import opened Vectors
  import opened Metrics
  import opened SearchResults
  import opened ScanFilter
  import opened BruteForce
  import opened HybridSearch
  import M = MiniBlock

  // ---------- Fragments that hold batches ----------

  /** Fragment k holds batch k, and column c of it reads back through src. */
  ghost predicate Backs(src: Source, fragments: seq<Fragment>, batches: seq<RecordBatch>, c: int, t: DataType) {
    && |fragments| == |batches|
    && forall k :: 0 <= k < |fragments| ==>
         && RowsOf(fragments[k]) == batches[k].numRows
         && c in batches[k].columns && HasType(batches[k].columns[c], t)
         && Read(src, fragments[k], c) == M.Value(batches[k].columns[c])
  }

  /** Column c has width values for every row. */
  ghost predicate FullColumn(batches: seq<RecordBatch>, c: int, width: nat) {
    forall k :: 0 <= k < |batches| ==>
      c in batches[k].columns && Length(batches[k].columns[c]) == batches[k].numRows * width
  }

  lemma {:induction false} OffsetIsRows(fragments: seq<Fragment>, batches: seq<RecordBatch>, k: nat)
    requires |fragments| == |batches| && k <= |fragments|
    requires forall j :: 0 <= j < |fragments| ==> RowsOf(fragments[j]) == batches[j].numRows
    ensures RowOffset(fragments, k) == TotalRows(batches[..k])
  {
    if k > 0 {
      OffsetIsRows(fragments, batches, k - 1);
      assert batches[..k][..k - 1] == batches[..k - 1];
    }
  }

  lemma FullFront(batches: seq<RecordBatch>, c: int, width: nat)
    requires FullColumn(batches, c, width) && batches != []
    ensures FullColumn(batches[..|batches| - 1], c, width)
    ensures var last := batches[|batches| - 1];
      c in last.columns && |Values(last.columns[c])| == last.numRows * width
  {
  }

  lemma {:induction false} FullColumnLength(batches: seq<RecordBatch>, c: int, width: nat)
    requires FullColumn(batches, c, width)
    ensures |ValuesOf(batches, c)| == TotalRows(batches) * width
  {
    hide Values, FullColumn;
    if batches != [] {
      var n := |batches| - 1;
      FullFront(batches, c, width);
      FullColumnLength(batches[..n], c, width);
      Distribute(TotalRows(batches[..n]), batches[n].numRows, width);
    }
  }

  lemma Distribute(a: nat, b: nat, width: nat)
    ensures (a + b) * width == a * width + b * width
  {
  }

  // ---------- Filters ----------

  /** The column types a filter accepts, one value a row. */
  predicate ScalarType(t: DataType) {
    t.TypeInt32? || t.TypeInt64? || t.TypeFloat32? || t.TypeFloat64? || t.TypeString?
  }

  /** A stored value as a filter sees it. */
  function ScalarOf(num: Arithmetic, t: DataType, v: Element): Scalar {
    match v
    case Text(bytes) => Chars(bytes)
    case Number(n) =>
      if t.TypeFloat32? && 0 <= n < 0x1_0000_0000 then Decimal(num.ofFloat32(n))
      else if t.TypeFloat64? && 0 <= n < 0x1_0000_0000_0000_0000 then Decimal(num.ofFloat64(n))
      else Whole(n)
  }

  lemma ElementIsScalar(num: Arithmetic, data: Column, t: DataType, i: nat)
    requires HasType(data, t) && ScalarType(t) && i < Length(data)
    ensures Filterable(data) && ElementAt(num, data, i) == ScalarOf(num, t, Values(data)[i])
  {
  }

  /** Row p of the table meets the condition. */
  ghost predicate TableRowMatches(num: Arithmetic, schema: Schema, batches: seq<RecordBatch>, cond: Condition, p: int) {
    && FieldByName(schema, cond.column).Some?
    && var field := FieldByName(schema, cond.column).value;
    && 0 <= p < |ValuesOf(batches, field.id)|
    && Matches(num, ScalarOf(num, field.dataType, ValuesOf(batches, field.id)[p]), cond)
  }

  ghost predicate TableRowPasses(
    num: Arithmetic, schema: Schema, batches: seq<RecordBatch>, conds: seq<Condition>, p: int) {
    forall j :: 0 <= j < |conds| ==> TableRowMatches(num, schema, batches, conds[j], p)
  }

  /** The condition names a scalar column that all fragments hold. */
  ghost predicate ConditionBacked(src: Source, fragments: seq<Fragment>, batches: seq<RecordBatch>, cond: Condition) {
    && FieldByName(src.schema, cond.column).Some?
    && var field := FieldByName(src.schema, cond.column).value;
    && ScalarType(field.dataType)
    && Backs(src, fragments, batches, field.id, field.dataType) && FullColumn(batches, field.id, 1)
  }

  ghost predicate ConditionsBacked(
    src: Source, fragments: seq<Fragment>, batches: seq<RecordBatch>, conds: seq<Condition>) {
    forall j :: 0 <= j < |conds| ==> ConditionBacked(src, fragments, batches, conds[j])
  }

  lemma FrontIsBacked(src: Source, fragments: seq<Fragment>, batches: seq<RecordBatch>, c: int, t: DataType, width: nat)
    requires Backs(src, fragments, batches, c, t) && FullColumn(batches, c, width) && fragments != []
    ensures Backs(src, fragments[..|fragments| - 1], batches[..|batches| - 1], c, t)
    ensures FullColumn(batches[..|batches| - 1], c, width)
  {
    hide Read;
  }

  /** A row of the table is a row of the batches before the last, or of the last. */
  lemma RowIsInOneBatch(
    num: Arithmetic, src: Source, fragments: seq<Fragment>, batches: seq<RecordBatch>, cond: Condition, p: int)
    requires ConditionBacked(src, fragments, batches, cond) && fragments != []
    ensures var n, rows := |batches| - 1, TotalRows(batches[..|batches| - 1]);
      && (p < rows ==>
            (TableRowMatches(num, src.schema, batches, cond, p) <==>
             TableRowMatches(num, src.schema, batches[..n], cond, p)))
      && (rows <= p < rows + batches[n].numRows ==>
            (TableRowMatches(num, src.schema, batches, cond, p) <==>
              ConditionHolds(num, src, fragments[n], cond, p - rows)))
  {
    hide Values, Read, Matches, ElementAt, ScalarOf;
    var field := FieldByName(src.schema, cond.column).value;
    var n := |batches| - 1;
    var data := batches[n].columns[field.id];
    FrontIsBacked(src, fragments, batches, field.id, field.dataType, 1);
    FullColumnLength(batches[..n], field.id, 1);
    var rows := TotalRows(batches[..n]);
    if rows <= p < rows + batches[n].numRows {
      ElementIsScalar(num, data, field.dataType, p - rows);
    }
  }

  lemma TypedIsFilterable(data: Column, t: DataType)
    requires HasType(data, t) && ScalarType(t)
    ensures Filterable(data)
  {
  }

  /** The rows before the last fragment pass as in the table without it; the others as in it. */
  lemma PassesInOneBatch(
    num: Arithmetic, src: Source, fragments: seq<Fragment>, batches: seq<RecordBatch>, conds: seq<Condition>, p: int)
    requires |fragments| == |batches| && fragments != [] && ConditionsBacked(src, fragments, batches, conds)
    ensures var n, rows := |batches| - 1, TotalRows(batches[..|batches| - 1]);
      && ConditionsBacked(src, fragments[..n], batches[..n], conds)
      && (p < rows ==>
            (TableRowPasses(num, src.schema, batches, conds, p) <==>
             TableRowPasses(num, src.schema, batches[..n], conds, p)))
      && (rows <= p < rows + batches[n].numRows ==>
            (TableRowPasses(num, src.schema, batches, conds, p) <==>
              RowPasses(num, src, fragments[n], conds, p - rows)))
  {
    hide Backs, FullColumn, TableRowMatches, ConditionHolds, ScalarType;
    var n, rows := |batches| - 1, TotalRows(batches[..|batches| - 1]);
    forall j | 0 <= j < |conds|
      ensures ConditionBacked(src, fragments[..n], batches[..n], conds[j])
      ensures p < rows ==>
        (TableRowMatches(num, src.schema, batches, conds[j], p) <==>
          TableRowMatches(num, src.schema, batches[..n], conds[j], p))
      ensures rows <= p < rows + batches[n].numRows ==>
        (TableRowMatches(num, src.schema, batches, conds[j], p) <==>
          ConditionHolds(num, src, fragments[n], conds[j], p - rows))
    {
      var field := FieldByName(src.schema, conds[j].column).value;
      FrontIsBacked(src, fragments, batches, field.id, field.dataType, 1);
      RowIsInOneBatch(num, src, fragments, batches, conds[j], p);
    }
  }

  lemma FilterCanRun(src: Source, fragments: seq<Fragment>, batches: seq<RecordBatch>, conds: seq<Condition>)
    requires |fragments| == |batches| && ConditionsBacked(src, fragments, batches, conds)
    ensures FilterEvaluates(src, fragments, conds)
  {
    hide Read, ScalarType, HasType, Filterable, RowsOf;
    forall i, j | 0 <= i < |fragments| && 0 <= j < |conds| ensures Evaluates(src, fragments[i], conds[j]) {
      assert ConditionBacked(src, fragments, batches, conds[j]);
      var field := FieldByName(src.schema, conds[j].column).value;
      TypedIsFilterable(batches[i].columns[field.id], field.dataType);
    }
  }

  /** A filter selects exactly the positions of the table whose values meet the conditions. */
  lemma {:induction false} FilterSeesTable(
    num: Arithmetic, src: Source, fragments: seq<Fragment>, batches: seq<RecordBatch>, conds: seq<Condition>, p: int)
    requires |fragments| == |batches| && conds != [] && ConditionsBacked(src, fragments, batches, conds)
    ensures FilterEvaluates(src, fragments, conds)
    ensures p in MatchingRows(num, src, fragments, conds) <==>
            0 <= p < TotalRows(batches) && TableRowPasses(num, src.schema, batches, conds, p)
  {
    hide ConditionBacked, TableRowPasses, RowPasses, RowsOf, FilterEvaluates;
    FilterCanRun(src, fragments, batches, conds);
    if fragments != [] {
      var n := |fragments| - 1;
      PassesInOneBatch(num, src, fragments, batches, conds, p);
      FilterSeesTable(num, src, fragments[..n], batches[..n], conds, p);
      assert ConditionBacked(src, fragments, batches, conds[0]);
      RowsAgree(src, fragments, batches, conds[0]);
      OffsetIsRows(fragments, batches, n);
      PassingRowsMeaning(num, src, fragments[n], conds, TotalRows(batches[..n]), RowsOf(fragments[n]));
    }
  }

  lemma RowsAgree(src: Source, fragments: seq<Fragment>, batches: seq<RecordBatch>, cond: Condition)
    requires ConditionBacked(src, fragments, batches, cond)
    ensures forall j :: 0 <= j < |fragments| ==> RowsOf(fragments[j]) == batches[j].numRows
  {
  }

  // ---------- Vectors ----------

  function Component(num: Arithmetic, v: Element): real {
    if v.Number? && 0 <= v.n < 0x1_0000_0000 then num.ofFloat32(v.n) else 0.0
  }

  /** The vector of row p of the table. */
  function TableVector(num: Arithmetic, values: seq<Element>, dim: nat, p: nat): Vector {
    if p * dim + dim <= |values|
    then seq(dim, j requires 0 <= j < dim => Component(num, values[p * dim..p * dim + dim][j]))
    else []
  }

  ghost predicate TableRowMeasurable(num: Arithmetic, q: VectorQuery, values: seq<Element>, p: nat)
    requires IsSqrt(num.sqrt)
  {
    Distance(num.sqrt, q.vector, TableVector(num, values, |q.vector|, p), q.metric).Success?
  }

  ghost function TableScore(num: Arithmetic, q: VectorQuery, values: seq<Element>, p: nat): real
    requires IsSqrt(num.sqrt)
  {
    if TableRowMeasurable(num, q, values, p)
    then Distance(num.sqrt, q.vector, TableVector(num, values, |q.vector|, p), q.metric).value
    else 0.0
  }

  /** The distances of the wanted rows among the first n of the table. */
  ghost function TableDistances(
    num: Arithmetic, q: VectorQuery, values: seq<Element>, rows: Rows, n: nat): seq<SearchResult>
    requires IsSqrt(num.sqrt)
  {
    if n == 0 then []
    else
      TableDistances(num, q, values, rows, n - 1) +
      if Wanted(rows, n - 1) then [SearchResult(n - 1, TableScore(num, q, values, n - 1))] else []
  }

  ghost predicate TableMeasurable(num: Arithmetic, q: VectorQuery, values: seq<Element>, rows: Rows, n: nat)
    requires IsSqrt(num.sqrt)
  {
    forall p: nat :: p < n && Wanted(rows, p) ==> TableRowMeasurable(num, q, values, p)
  }

  lemma RowInRange(dim: nat, p: nat, n: nat)
    requires p < n
    ensures p * dim + dim <= n * dim
  {
    Distribute(p + 1, n - p - 1, dim);
    Distribute(p, 1, dim);
  }

  /** Rows of the front of a table have the same vectors there. */
  lemma VectorInFront(num: Arithmetic, front: seq<Element>, more: seq<Element>, dim: nat, p: nat, n: nat)
    requires |front| == n * dim && p < n
    ensures TableVector(num, front + more, dim, p) == TableVector(num, front, dim, p)
  {
    RowInRange(dim, p, n);
    assert (front + more)[p * dim..p * dim + dim] == front[p * dim..p * dim + dim];
  }

  /** Rows behind the front have the vectors of the fragment that holds them. */
  lemma VectorBehind(num: Arithmetic, front: seq<Element>, words: seq<Word32>, dim: nat, i: nat, n: nat, m: nat)
    requires |front| == n * dim && |words| == m * dim && i < m
    ensures HasVector(words, dim, i)
    ensures TableVector(num, front + Values(Float32s(words)), dim, n + i) == VectorAt(num, words, dim, i)
  {
    RowInRange(dim, i, m);
    Distribute(n, i, dim);
    var values := Values(Float32s(words));
    var from := (n + i) * dim;
    assert (front + values)[from..from + dim] == values[i * dim..i * dim + dim];
  }

  lemma {:induction false} DistancesInFront(
    num: Arithmetic, q: VectorQuery, front: seq<Element>, more: seq<Element>, rows: Rows, k: nat, n: nat)
    requires IsSqrt(num.sqrt) && |front| == n * |q.vector| && k <= n
    ensures TableDistances(num, q, front + more, rows, k) == TableDistances(num, q, front, rows, k)
    ensures TableMeasurable(num, q, front + more, rows, k) <==> TableMeasurable(num, q, front, rows, k)
  {
    hide IsSqrt, TableVector, Distance;
    forall p: nat | p < k
      ensures TableVector(num, front + more, |q.vector|, p) == TableVector(num, front, |q.vector|, p)
    {
      VectorInFront(num, front, more, |q.vector|, p, n);
    }
    if k > 0 {
      DistancesInFront(num, q, front, more, rows, k - 1, n);
    }
  }

  /** The distances of the first n + i rows are those of the front and those of the fragment. */
  lemma {:induction false} DistancesBehind(
    num: Arithmetic, q: VectorQuery, front: seq<Element>, words: seq<Word32>, rows: Rows, n: nat, i: nat, m: nat)
    requires IsSqrt(num.sqrt) && |front| == n * |q.vector| && |words| == m * |q.vector| && i <= m
    ensures var values := front + Values(Float32s(words));
      && TableDistances(num, q, values, rows, n + i)
         == TableDistances(num, q, front, rows, n) + FragmentHits(num, q, words, n, rows, i)
      && (TableMeasurable(num, q, values, rows, n + i) <==>
          TableMeasurable(num, q, front, rows, n) && FragmentMeasurable(num, q, words, n, rows, i))
  {
    hide IsSqrt, TableVector, VectorAt, Distance, Values, HasVector;
    var values := front + Values(Float32s(words));
    if i == 0 {
      DistancesInFront(num, q, front, Values(Float32s(words)), rows, n, n);
    } else {
      DistancesBehind(num, q, front, words, rows, n, i - 1, m);
      VectorBehind(num, front, words, |q.vector|, i - 1, n, m);
      assert TableRowMeasurable(num, q, values, n + i - 1) <==> RowMeasurable(num, q, words, i - 1);
    }
  }

  /** A scan of the fragments computes the distances of the wanted rows of the table, and fails
      exactly when one of them has none. */
  lemma {:induction false} ScanSeesTable(
    num: Arithmetic, src: Source, q: VectorQuery, c: int, fragments: seq<Fragment>, batches: seq<RecordBatch>,
    rows: Rows)
    requires IsSqrt(num.sqrt)
    requires Backs(src, fragments, batches, c, TypeFixedSizeList) && FullColumn(batches, c, |q.vector|)
    ensures TableHits(num, src, q, c, fragments, rows) ==
            TableDistances(num, q, ValuesOf(batches, c), rows, TotalRows(batches))
    ensures ScansTable(num, src, q, c, fragments, rows) <==>
            TableMeasurable(num, q, ValuesOf(batches, c), rows, TotalRows(batches))
  {
    assert |fragments| == |batches|;
    hide *;
    if fragments == [] {
      NothingScanned(num, src, q, c, rows);
      NoDistances(num, q, batches, c, rows);
    } else {
      var n := |fragments| - 1;
      FrontIsBacked(src, fragments, batches, c, TypeFixedSizeList, |q.vector|);
      ScanSeesTable(num, src, q, c, fragments[..n], batches[..n], rows);
      LastDistances(num, src, q, c, fragments, batches, rows);
      WithLastFragment(num, src, q, c, fragments, rows);
    }
  }

  /** The last fragment adds its own distances. */
  lemma LastDistances(
    num: Arithmetic, src: Source, q: VectorQuery, c: int, fragments: seq<Fragment>, batches: seq<RecordBatch>,
    rows: Rows)
    requires IsSqrt(num.sqrt)
    requires Backs(src, fragments, batches, c, TypeFixedSizeList) && FullColumn(batches, c, |q.vector|) &&
      fragments != []
    ensures |fragments| == |batches|
    ensures var n := |fragments| - 1;
      && TableDistances(num, q, ValuesOf(batches, c), rows, TotalRows(batches)) ==
         TableDistances(num, q, ValuesOf(batches[..n], c), rows, TotalRows(batches[..n])) +
         FragmentHits(num, q, WordsOf(src, fragments[n], c), RowOffset(fragments, n), rows, RowsOf(fragments[n]))
      && (TableMeasurable(num, q, ValuesOf(batches, c), rows, TotalRows(batches)) <==>
          TableMeasurable(num, q, ValuesOf(batches[..n], c), rows, TotalRows(batches[..n])) &&
          ScansFragment(num, src, q, c, fragments[n], RowOffset(fragments, n), rows))
  {
    assert |fragments| == |batches|;
    hide *;
    var n := |fragments| - 1;
    var words := LastFragment(num, src, q, fragments, batches, c, rows);
    FrontIsBacked(src, fragments, batches, c, TypeFixedSizeList, |q.vector|);
    FullColumnLength(batches[..n], c, |q.vector|);
    WholeFragment(num, q, ValuesOf(batches[..n], c), words, ValuesOf(batches, c), rows,
                  TotalRows(batches[..n]), batches[n].numRows, TotalRows(batches));
  }

  lemma WholeFragment(
    num: Arithmetic, q: VectorQuery, front: seq<Element>, words: seq<Word32>, values: seq<Element>, rows: Rows,
    n: nat, m: nat, total: nat)
    requires IsSqrt(num.sqrt) && values == front + Values(Float32s(words)) && total == n + m
    requires |front| == n * |q.vector| && |words| == m * |q.vector|
    ensures TableDistances(num, q, values, rows, total) ==
            TableDistances(num, q, front, rows, n) + FragmentHits(num, q, words, n, rows, m)
    ensures TableMeasurable(num, q, values, rows, total) <==>
            TableMeasurable(num, q, front, rows, n) && FragmentMeasurable(num, q, words, n, rows, m)
  {
    hide *;
    DistancesBehind(num, q, front, words, rows, n, m, m);
  }

  lemma WithLastFragment(
    num: Arithmetic, src: Source, q: VectorQuery, c: int, fragments: seq<Fragment>, rows: Rows)
    requires IsSqrt(num.sqrt) && fragments != []
    ensures var n := |fragments| - 1;
      && (ScansTable(num, src, q, c, fragments, rows) <==>
          ScansTable(num, src, q, c, fragments[..n], rows) &&
          ScansFragment(num, src, q, c, fragments[n], RowOffset(fragments, n), rows))
      && TableHits(num, src, q, c, fragments, rows) ==
         TableHits(num, src, q, c, fragments[..n], rows) +
         FragmentHits(num, q, WordsOf(src, fragments[n], c), RowOffset(fragments, n), rows, RowsOf(fragments[n]))
  {
    hide *;
    assert fragments[..|fragments|] == fragments;
    OneMoreFragment(num, src, q, c, fragments, rows, |fragments| - 1);
  }

  lemma LastFragment(
    num: Arithmetic, src: Source, q: VectorQuery, fragments: seq<Fragment>, batches: seq<RecordBatch>, c: int,
    rows: Rows)
    returns (words: seq<Word32>)
    requires IsSqrt(num.sqrt)
    requires Backs(src, fragments, batches, c, TypeFixedSizeList) && FullColumn(batches, c, |q.vector|) &&
      fragments != []
    ensures |fragments| == |batches|
    ensures var n := |fragments| - 1; var offset := TotalRows(batches[..n]);
      && WordsOf(src, fragments[n], c) == words && |words| == batches[n].numRows * |q.vector|
      && RowsOf(fragments[n]) == batches[n].numRows && RowOffset(fragments, n) == offset
      && ValuesOf(batches, c) == ValuesOf(batches[..n], c) + Values(Float32s(words))
      && TotalRows(batches) == offset + batches[n].numRows
      && (ScansFragment(num, src, q, c, fragments[n], offset, rows) <==>
          FragmentMeasurable(num, q, words, offset, rows, batches[n].numRows))
  {
    hide IsSqrt, Read, FragmentMeasurable, Values;
    var n := |fragments| - 1;
    words := batches[n].columns[c].float32s;
    assert batches[n].columns[c] == Float32s(words);
    OffsetIsRows(fragments, batches, n);
  }

  lemma NoDistances(num: Arithmetic, q: VectorQuery, batches: seq<RecordBatch>, c: int, rows: Rows)
    requires IsSqrt(num.sqrt) && batches == []
    ensures TableDistances(num, q, ValuesOf(batches, c), rows, TotalRows(batches)) == []
    ensures TableMeasurable(num, q, ValuesOf(batches, c), rows, TotalRows(batches))
  {
  }

  // ---------- Queries ----------

  /** The fragments hold the batches as far as the query looks at them. */
  ghost predicate QueryBacked(h: Engine, fragments: seq<Fragment>, batches: seq<RecordBatch>, q: Query) {
    && |fragments| == |batches|
    && (q.filter.Some? ==> ConditionsBacked(h.scanFilter, fragments, batches, q.filter.value))
    && (q.vector.Some? ==> VectorBacked(h.bruteForce, fragments, batches, q.vector.value))
  }

  ghost predicate VectorBacked(src: Source, fragments: seq<Fragment>, batches: seq<RecordBatch>, v: VectorQuery) {
    && QueryFits(src, v)
    && var c := VectorField(src.schema, v.column).value.id;
       Backs(src, fragments, batches, c, TypeFixedSizeList) && FullColumn(batches, c, |v.vector|)
  }

  /** The positions of the table that a filter selects. */
  ghost function TableMatches(
    num: Arithmetic, schema: Schema, batches: seq<RecordBatch>, conds: seq<Condition>): set<int> {
    if conds == [] then {}
    else set p | 0 <= p < TotalRows(batches) && TableRowPasses(num, schema, batches, conds, p)
  }

  /** The rows of the table whose distance a query asks for. */
  ghost function TableRows(
    num: Arithmetic, schema: Schema, batches: seq<RecordBatch>, filter: Option<seq<Condition>>): Rows {
    if filter.None? then AllRows else Only(TableMatches(num, schema, batches, filter.value))
  }

  /** The values of the query's vector column, over the whole table. */
  ghost function VectorValues(schema: Schema, batches: seq<RecordBatch>, v: VectorQuery): seq<Element> {
    if VectorField(schema, v.column).None? then []
    else ValuesOf(batches, VectorField(schema, v.column).value.id)
  }

  /** All rows that a vector query asks for, by distance. */
  ghost function Ranking(
    num: Arithmetic, vectors: Schema, scalars: Schema, batches: seq<RecordBatch>, v: VectorQuery,
    filter: Option<seq<Condition>>): seq<SearchResult>
    requires IsSqrt(num.sqrt)
  {
    var rows := TableRows(num, scalars, batches, filter);
    SortByScore(TableDistances(num, v, VectorValues(vectors, batches, v), rows, TotalRows(batches)))
  }

  /** The answers to a query over the table in memory: for vectors, rows of the ranking with their
      distances, as many and with the same scores as its first ones up to the limit, so only tied
      rows can stand for each other, and all of them without a limit; without vectors, the matching
      positions in ascending order. */
  ghost predicate IsTableAnswer(
    num: Arithmetic, vectors: Schema, scalars: Schema, batches: seq<RecordBatch>, q: Query, answer: seq<SearchResult>)
    requires IsSqrt(num.sqrt)
  {
    match (q.vector, q.filter)
    case (Some(v), _) =>
      var ranking := Ranking(num, vectors, scalars, batches, v, q.filter);
      && Scores(answer) == Scores(ApplyLimit(ranking, q.limit))
      && multiset(answer) <= multiset(ranking)
      && (q.limit <= 0 ==> multiset(answer) == multiset(ranking))
    case (None, Some(conds)) =>
      exists ids ::
        && Increasing(ids) && (set id | id in ids) == TableMatches(num, scalars, batches, conds)
        && answer == ApplyLimit(Unscored(ids), q.limit)
    case (None, None) => answer == []
  }

  /** The ranking holds, for each wanted row of the table, its position and its distance, and
      nothing else. */
  lemma RankingMeaning(
    num: Arithmetic, vectors: Schema, scalars: Schema, batches: seq<RecordBatch>, v: VectorQuery,
    filter: Option<seq<Condition>>, r: SearchResult)
    requires IsSqrt(num.sqrt)
    requires var rows := TableRows(num, scalars, batches, filter);
      TableMeasurable(num, v, VectorValues(vectors, batches, v), rows, TotalRows(batches))
    ensures r in Ranking(num, vectors, scalars, batches, v, filter) <==>
            && 0 <= r.rowId < TotalRows(batches)
            && Wanted(TableRows(num, scalars, batches, filter), r.rowId)
            && Distance(num.sqrt, v.vector,
                        TableVector(num, VectorValues(vectors, batches, v), |v.vector|, r.rowId), v.metric)
               == Success(r.score)
  {
    hide IsSqrt, Distance, TableVector, VectorValues;
    var rows, values := TableRows(num, scalars, batches, filter), VectorValues(vectors, batches, v);
    var all := TableDistances(num, v, values, rows, TotalRows(batches));
    DistancesMeaning(num, v, values, rows, TotalRows(batches), r);
    assert r in multiset(SortByScore(all)) <==> r in multiset(all);
  }

  lemma {:induction false} DistancesMeaning(
    num: Arithmetic, v: VectorQuery, values: seq<Element>, rows: Rows, n: nat, r: SearchResult)
    requires IsSqrt(num.sqrt) && TableMeasurable(num, v, values, rows, n)
    ensures r in TableDistances(num, v, values, rows, n) <==>
            && 0 <= r.rowId < n && Wanted(rows, r.rowId)
            && Distance(num.sqrt, v.vector, TableVector(num, values, |v.vector|, r.rowId), v.metric) == Success(r.score)
  {
    hide IsSqrt, Distance, TableVector;
    if n > 0 {
      DistancesMeaning(num, v, values, rows, n - 1, r);
      assert Wanted(rows, n - 1) ==> TableRowMeasurable(num, v, values, n - 1);
    }
  }

  lemma MatchesAgree(h: Engine, fragments: seq<Fragment>, batches: seq<RecordBatch>, conds: seq<Condition>)
    requires |fragments| == |batches| && ConditionsBacked(h.scanFilter, fragments, batches, conds)
    ensures FilterSucceeds(h.scanFilter, fragments, Some(conds))
    ensures MatchingIds(h, fragments, Some(conds)) == TableMatches(h.num, h.scanFilter.schema, batches, conds)
    ensures var ids := Selected(h.num, h.scanFilter, fragments, Some(conds));
      Increasing(ids) && (set id | id in ids) == MatchingIds(h, fragments, Some(conds))
  {
    hide ConditionsBacked, TableRowPasses, MatchingRows, FilterEvaluates, RowPasses;
    if conds != [] {
      forall p: int
        ensures p in MatchingIds(h, fragments, Some(conds)) <==>
          p in TableMatches(h.num, h.scanFilter.schema, batches, conds)
      {
        FilterSeesTable(h.num, h.scanFilter, fragments, batches, conds, p);
      }
      FilterSeesTable(h.num, h.scanFilter, fragments, batches, conds, 0);
      FilterMeaning(h.num, h.scanFilter, fragments, conds, 0);
    }
  }

  lemma CandidatesAgree(h: Engine, fragments: seq<Fragment>, batches: seq<RecordBatch>, v: VectorQuery, rows: Rows)
    requires IsSqrt(h.num.sqrt) && VectorBacked(h.bruteForce, fragments, batches, v)
    ensures Candidates(h.num, h.bruteForce, v, fragments, rows) ==
            TableDistances(h.num, v, VectorValues(h.bruteForce.schema, batches, v), rows, TotalRows(batches))
    ensures ScanSucceeds(h.num, h.bruteForce, v, fragments, rows) <==>
            TableMeasurable(h.num, v, VectorValues(h.bruteForce.schema, batches, v), rows, TotalRows(batches))
  {
    hide IsSqrt, Backs, FullColumn, ConditionsBacked, TableHits, TableDistances, TableMeasurable, ScansTable, ValuesOf;
    ScanSeesTable(h.num, h.bruteForce, v, VectorField(h.bruteForce.schema, v.column).value.id, fragments, batches,
      rows);
  }

  /** A query over the fragments, with a vector, a filter, both or neither, and by either plan,
      answers like the same query over the table. */
  lemma QuerySeesBatches(
    h: Engine, fragments: seq<Fragment>, batches: seq<RecordBatch>, q: Query, strategy: Strategy,
    answer: seq<SearchResult>)
    requires IsSqrt(h.num.sqrt) && QueryBacked(h, fragments, batches, q)
    requires IsAnswer(h, fragments, q, strategy, answer)
    ensures IsTableAnswer(h.num, h.bruteForce.schema, h.scanFilter.schema, batches, q, answer)
  {
    hide IsSqrt, ConditionsBacked, VectorBacked, TableDistances, SortedPermutation, MatchingIds, TableMatches,
      IsSearchFirst, FilterSucceeds, Candidates, VectorValues, Selected, Increasing;
    if q.filter.Some? {
      MatchesAgree(h, fragments, batches, q.filter.value);
    }
    if q.vector.Some? {
      var v := q.vector.value;
      var rows := TableRows(h.num, h.scanFilter.schema, batches, q.filter);
      CandidatesAgree(h, fragments, batches, v, rows);
      var ranking := Ranking(h.num, h.bruteForce.schema, h.scanFilter.schema, batches, v, q.filter);
      RankedAnswer(h, fragments, q, strategy, answer, rows, ranking);
    } else if q.filter.Some? {
      var ids := Selected(h.num, h.scanFilter, fragments, q.filter);
      assert Increasing(ids) && (set id | id in ids) ==
        TableMatches(h.num, h.scanFilter.schema, batches, q.filter.value);
    } else {
      NothingSelected(h.num, h.scanFilter, fragments);
    }
  }

  lemma NothingSelected(num: Arithmetic, src: Source, fragments: seq<Fragment>)
    ensures Selected(num, src, fragments, None) == []
  {
  }

  /** Any answer of either plan is a cut of any ranking of the wanted candidates. */
  lemma RankedAnswer(
    h: Engine, fragments: seq<Fragment>, q: Query, strategy: Strategy, answer: seq<SearchResult>, rows: Rows,
    ranking: seq<SearchResult>)
    requires IsSqrt(h.num.sqrt) && q.vector.Some? && IsAnswer(h, fragments, q, strategy, answer)
    requires rows == if q.filter.None? then AllRows else Only(MatchingIds(h, fragments, q.filter))
    requires SortedPermutation(Candidates(h.num, h.bruteForce, q.vector.value, fragments, rows), ranking)
    ensures Scores(answer) == Scores(ApplyLimit(ranking, q.limit))
    ensures multiset(answer) <= multiset(ranking)
    ensures q.limit <= 0 ==> multiset(answer) == multiset(ranking)
  {
    hide IsSqrt, Candidates, MatchingIds, SortedByScore, IsSearchFirst;
    var v := q.vector.value;
    if q.filter.Some? && strategy.SearchFirst? {
      SearchFirstRefines(h, fragments, v, q.filter, q.limit, answer);
    }
    var sorted :| SortedPermutation(Candidates(h.num, h.bruteForce, v, fragments, rows), sorted) &&
      answer == ApplyLimit(sorted, q.limit);
    CutScores(sorted, ranking, q.limit);
    CutIsPart(sorted, q.limit);
  }

  lemma CutIsPart(results: seq<SearchResult>, limit: int)
    ensures multiset(ApplyLimit(results, limit)) <= multiset(results)
  {
    var n := |ApplyLimit(results, limit)|;
    assert results == results[..n] + results[n..];
  }

  /** Filter-first succeeds exactly when the matching rows have a distance; search-first and the
      plain vector query exactly when all rows of the table have one; a filter alone always. */
  lemma QuerySucceedsWhen(
    h: Engine, fragments: seq<Fragment>, batches: seq<RecordBatch>, q: Query, strategy: Strategy)
    requires IsSqrt(h.num.sqrt) && QueryBacked(h, fragments, batches, q)
    ensures Succeeds(h, fragments, q, strategy) <==>
      (q.vector.Some? ==>
        var v := q.vector.value;
        var rows := if strategy.SearchFirst? then AllRows else TableRows(h.num, h.scanFilter.schema, batches, q.filter);
        TableMeasurable(h.num, v, VectorValues(h.bruteForce.schema, batches, v), rows, TotalRows(batches)))
  {
    hide IsSqrt, ConditionsBacked, VectorBacked, TableRowMeasurable, MatchingIds, TableMatches, FilterSucceeds,
      ScanSucceeds, VectorValues;
    if q.filter.Some? {
      MatchesAgree(h, fragments, batches, q.filter.value);
    }
    if q.vector.Some? {
      CandidatesAgree(h, fragments, batches, q.vector.value, TableRows(h.num, h.scanFilter.schema, batches, q.filter));
      CandidatesAgree(h, fragments, batches, q.vector.value, AllRows);
    }
  }

  ghost predicate HasColumn(s: Schema, name: string) {
    exists f :: f in s.fields && f.name == name
  }

  ghost predicate HasVectorColumn(s: Schema, name: string, dim: int) {
    exists f :: f in s.fields && f.name == name && f.dataType.TypeFixedSizeList? && f.dimension == dim > 0
  }

  /** No query succeeds that does not fit the schemas: over a table with fragments, a filter must
      name columns that there are, and a vector query that is carried out a vector column of its own
      dimension. */
  lemma QueryMustFit(h: Engine, fragments: seq<Fragment>, q: Query, strategy: Strategy)
    requires IsSqrt(h.num.sqrt) && fragments != [] && Succeeds(h, fragments, q, strategy)
    ensures q.filter.Some? ==>
      forall j :: 0 <= j < |q.filter.value| ==> HasColumn(h.scanFilter.schema, q.filter.value[j].column)
    ensures q.vector.Some? && (q.filter.None? || strategy.SearchFirst? || MatchingIds(h, fragments, q.filter) != {}) ==>
      HasVectorColumn(h.bruteForce.schema, q.vector.value.column, |q.vector.value.vector|)
  {
    hide IsSqrt, Read, Filterable, ScansTable, MatchingIds;
    if q.filter.Some? {
      forall j | 0 <= j < |q.filter.value| ensures HasColumn(h.scanFilter.schema, q.filter.value[j].column) {
        assert FragmentEvaluates(h.scanFilter, fragments[0], q.filter.value);
        assert Evaluates(h.scanFilter, fragments[0], q.filter.value[j]);
      }
    }
  }

  /** The distance from the query vector to row p is defined. */
  ghost predicate HasDistance(num: Arithmetic, v: VectorQuery, values: seq<Element>, p: nat) {
    !v.metric.Unknown? &&
    (v.metric.Cosine? ==> !IsZero(v.vector) && !IsZero(TableVector(num, values, |v.vector|, p)))
  }

  lemma MeasurableWhen(num: Arithmetic, v: VectorQuery, values: seq<Element>, rows: Rows, n: nat)
    requires IsSqrt(num.sqrt) && |values| == n * |v.vector|
    ensures TableMeasurable(num, v, values, rows, n) <==>
            forall p: nat :: p < n && Wanted(rows, p) ==> HasDistance(num, v, values, p)
  {
    hide IsSqrt, IsZero, Wanted, Distance;
    forall p: nat | p < n ensures TableRowMeasurable(num, v, values, p) <==> HasDistance(num, v, values, p) {
      RowInRange(|v.vector|, p, n);
      DistanceFailsWhen(num.sqrt, v.vector, TableVector(num, values, |v.vector|, p), v.metric);
    }
  }

  /** The plans part company, filter-first with an answer and search-first with an error, exactly
      when every matching row of the table has a distance and some other row has none. */
  lemma PlansPartWhen(
    h: Engine, fragments: seq<Fragment>, batches: seq<RecordBatch>, v: VectorQuery, conds: seq<Condition>, limit: int)
    requires IsSqrt(h.num.sqrt) && QueryBacked(h, fragments, batches, Query(Some(v), Some(conds), limit))
    ensures var q := Query(Some(v), Some(conds), limit);
      var values := VectorValues(h.bruteForce.schema, batches, v);
      var matches := TableMatches(h.num, h.scanFilter.schema, batches, conds);
      Succeeds(h, fragments, q, FilterFirst) && !Succeeds(h, fragments, q, SearchFirst) <==>
        && (forall p: nat :: p < TotalRows(batches) && p in matches ==> HasDistance(h.num, v, values, p))
        && (exists p: nat :: p < TotalRows(batches) && !HasDistance(h.num, v, values, p))
  {
    hide IsSqrt, Succeeds, Backs, ConditionsBacked, FullColumn, HasDistance, TableMatches, TableMeasurable, ValuesOf;
    var q := Query(Some(v), Some(conds), limit);
    var c := VectorField(h.bruteForce.schema, v.column).value.id;
    FullColumnLength(batches, c, |v.vector|);
    QuerySucceedsWhen(h, fragments, batches, q, FilterFirst);
    QuerySucceedsWhen(h, fragments, batches, q, SearchFirst);
    var matches := TableMatches(h.num, h.scanFilter.schema, batches, conds);
    MeasurableWhen(h.num, v, ValuesOf(batches, c), Only(matches), TotalRows(batches));
    MeasurableWhen(h.num, v, ValuesOf(batches, c), AllRows, TotalRows(batches));
  }

  // ---------- Versions of runs ----------

  /** The entries that were committed up to a version. */
  ghost function CommittedUpTo(s: System, m: Manifest): seq<LogEntry> {
    if |m.fragments| <= |s.log| then s.log[..|m.fragments|] else []
  }

  /** Column c was written for every row of the entries, with this type and width, and the
      reader's schema still has it. */
  ghost predicate Kept(e: M.Encoder, entries: seq<LogEntry>, reader: Schema, c: int, t: DataType, width: nat) {
    && FieldByID(reader, c).Some? && FieldByID(reader, c).value.dataType == t
    && FullColumn(BatchesOf(entries), c, width)
    && forall k :: 0 <= k < |entries| ==> KeepsColumn(entries[k], e, c, t)
  }

  ghost predicate AllRectangular(entries: seq<LogEntry>) {
    forall k :: 0 <= k < |entries| ==> Rectangular(entries[k])
  }

  /** m is the manifest of a version in state i of a run. */
  ghost predicate VersionOfRun(
    e: M.Encoder, initial: Files, states: seq<System>, events: seq<SystemEvent>, i: nat, version: int, m: Manifest)
  {
    IsRun(e, initial, states, events) && i < |states| && ReadManifest(states[i].files, version) == Some(m)
  }

  lemma StoredHasType(files: Files, e: M.Encoder, entry: LogEntry, id: int, c: int, t: DataType)
    requires ColumnsStored(files, e, entry.schema, id, entry.batch.columns) && KeepsColumn(entry, e, c, t)
    ensures HasType(entry.batch.columns[c], t)
  {
    hide M.Encode, FitsPage;
    assert c in entry.batch.columns.Keys;
    assert StoredForm(e, entry.schema, c, entry.batch.columns[c]).Success?;
  }

  /** The fragments of any version of any run hold the batches committed up to it. */
  lemma VersionIsBacked(
    e: M.Encoder, initial: Files, states: seq<System>, events: seq<SystemEvent>, i: nat,
    version: int, m: Manifest, src: Source, c: int, t: DataType, width: nat)
    requires VersionOfRun(e, initial, states, events, i, version, m) && M.Lossless(e.compressor)
    requires src.files == states[i].files && src.encoder == e
    requires AllRectangular(CommittedUpTo(states[i], m))
    requires Kept(e, CommittedUpTo(states[i], m), src.readerSchema, c, t, width)
    ensures Backs(src, m.fragments, BatchesOf(CommittedUpTo(states[i], m)), c, t)
  {
    hide M.Lossless, IsRun, Inv, DiskInv, IsFragmentOf, ColumnsStored, KeepsColumn, Rectangular, HasType, ReadColumn,
      RowsOf, FullColumn, ReadManifest;
    RunKeepsInv(e, initial, states, events, i);
    var s := states[i];
    var v, f := DiskOf(e, s);
    VersionIsLogPrefix(s.files, e, s.log, v, f, version, m);
    var entries := CommittedUpTo(s, m);
    assert forall k :: 0 <= k < |entries| ==> entries[k] == s.log[k];
    VersionReadsLog(s.files, e, s.log, v, f, version, m, src.readerSchema, c, t);
    forall k | 0 <= k < |m.fragments|
      ensures RowsOf(m.fragments[k]) == s.log[k].batch.numRows
      ensures HasType(s.log[k].batch.columns[c], t)
    {
      assert Rectangular(entries[k]) && KeepsColumn(entries[k], e, c, t);
      RectangularRows(m.fragments[k], e, s.log[k]);
      StoredHasType(s.files, e, s.log[k], m.fragments[k].id, c, t);
    }
  }

  /** The columns of the query were kept, and both search components read these files. */
  ghost predicate QueryKept(e: M.Encoder, files: Files, entries: seq<LogEntry>, h: Engine, q: Query) {
    && h.bruteForce.files == files && h.bruteForce.encoder == e
    && h.scanFilter.files == files && h.scanFilter.encoder == e
    && AllRectangular(entries)
    && (q.vector.Some? ==> VectorKept(e, entries, h.bruteForce, q.vector.value))
    && (q.filter.Some? ==>
          forall j :: 0 <= j < |q.filter.value| ==> ConditionKept(e, entries, h.scanFilter, q.filter.value[j]))
  }

  ghost predicate VectorKept(e: M.Encoder, entries: seq<LogEntry>, src: Source, v: VectorQuery) {
    && QueryFits(src, v)
    && Kept(e, entries, src.readerSchema, VectorField(src.schema, v.column).value.id, TypeFixedSizeList, |v.vector|)
  }

  ghost predicate ConditionKept(e: M.Encoder, entries: seq<LogEntry>, src: Source, cond: Condition) {
    && FieldByName(src.schema, cond.column).Some?
    && var field := FieldByName(src.schema, cond.column).value;
       ScalarType(field.dataType) && Kept(e, entries, src.readerSchema, field.id, field.dataType, 1)
  }

  /** A version has one fragment for each batch committed up to it. */
  lemma VersionCount(
    e: M.Encoder, initial: Files, states: seq<System>, events: seq<SystemEvent>, i: nat, version: int, m: Manifest)
    requires VersionOfRun(e, initial, states, events, i, version, m)
    ensures i < |states| && |m.fragments| <= |states[i].log| && |CommittedUpTo(states[i], m)| == |m.fragments|
  {
    hide IsRun, Inv, DiskInv, ReadManifest;
    RunKeepsInv(e, initial, states, events, i);
    var v, f := DiskOf(e, states[i]);
    VersionIsLogPrefix(states[i].files, e, states[i].log, v, f, version, m);
  }

  lemma QueryOfVersion(
    e: M.Encoder, initial: Files, states: seq<System>, events: seq<SystemEvent>, i: nat,
    version: int, m: Manifest, h: Engine, q: Query)
    requires VersionOfRun(e, initial, states, events, i, version, m) && M.Lossless(e.compressor)
    requires QueryKept(e, states[i].files, CommittedUpTo(states[i], m), h, q)
    ensures QueryBacked(h, m.fragments, BatchesOf(CommittedUpTo(states[i], m)), q)
  {
    VersionCount(e, initial, states, events, i, version, m);
    var entries := CommittedUpTo(states[i], m);
    hide M.Lossless, VersionOfRun, Backs, FullColumn, ScalarType, AllRectangular, KeepsColumn, CommittedUpTo;
    if q.vector.Some? {
      var c := VectorField(h.bruteForce.schema, q.vector.value.column).value.id;
      VersionIsBacked(e, initial, states, events, i, version, m, h.bruteForce, c, TypeFixedSizeList,
        |q.vector.value.vector|);
    }
    if q.filter.Some? {
      forall j | 0 <= j < |q.filter.value|
        ensures ConditionBacked(h.scanFilter, m.fragments, BatchesOf(entries), q.filter.value[j])
      {
        assert ConditionKept(e, entries, h.scanFilter, q.filter.value[j]);
        var field := FieldByName(h.scanFilter.schema, q.filter.value[j].column).value;
        VersionIsBacked(e, initial, states, events, i, version, m, h.scanFilter, field.id, field.dataType, 1);
      }
    }
  }

  /** End to end: at any version of any run, whatever the strategy, a query over columns that were
      kept answers like the same query over one table in memory, the batches committed up to that
      version, where a row's ID is its position. */
  lemma QuerySeesTable(
    e: M.Encoder, initial: Files, states: seq<System>, events: seq<SystemEvent>, i: nat, version: int, m: Manifest,
    h: Engine, q: Query, strategy: Strategy, answer: seq<SearchResult>)
    requires VersionOfRun(e, initial, states, events, i, version, m) && M.Lossless(e.compressor) && IsSqrt(h.num.sqrt)
    requires QueryKept(e, states[i].files, CommittedUpTo(states[i], m), h, q)
    requires IsAnswer(h, m.fragments, q, strategy, answer)
    ensures IsTableAnswer(
      h.num, h.bruteForce.schema, h.scanFilter.schema, BatchesOf(CommittedUpTo(states[i], m)), q, answer)
  {
    var batches := BatchesOf(CommittedUpTo(states[i], m));
    hide *;
    QueryOfVersion(e, initial, states, events, i, version, m, h, q);
    QuerySeesBatches(h, m.fragments, batches, q, strategy, answer);
  }

  /** The same components over the files of another state. */
  function Over(h: Engine, files: Files): Engine {
    Engine(h.num, h.bruteForce.(files := files), h.scanFilter.(files := files))
  }

  lemma VersionStays(
    e: M.Encoder, initial: Files, states: seq<System>, events: seq<SystemEvent>, i: nat, j: nat, version: int,
    m: Manifest)
    requires VersionOfRun(e, initial, states, events, i, version, m) && i <= j < |states|
    ensures VersionOfRun(e, initial, states, events, j, version, m)
    ensures CommittedUpTo(states[j], m) == CommittedUpTo(states[i], m)
  {
    VersionCount(e, initial, states, events, i, version, m);
    assert version in VersionsOf(states[i].files);
    hide IsRun;
    SnapshotIsolation(e, initial, states, events, i, j);
    LogGrows(e, initial, states, events, i, j);
  }

  /** A query at a version is repeatable: in every later state of the run, by whatever plan, it
      has the same scores, and without a limit the same results. */
  lemma QueryIsRepeatable(
    e: M.Encoder, initial: Files, states: seq<System>, events: seq<SystemEvent>, i: nat, j: nat, version: int,
    m: Manifest,
    h: Engine, q: Query, s: Strategy, t: Strategy, now: seq<SearchResult>, later: seq<SearchResult>)
    requires VersionOfRun(e, initial, states, events, i, version, m) && i <= j < |states|
    requires M.Lossless(e.compressor) && IsSqrt(h.num.sqrt)
    requires QueryKept(e, states[i].files, CommittedUpTo(states[i], m), h, q)
    requires IsAnswer(h, m.fragments, q, s, now) && IsAnswer(Over(h, states[j].files), m.fragments, q, t, later)
    ensures Scores(now) == Scores(later)
    ensures q.limit <= 0 ==> multiset(now) == multiset(later)
  {
    VersionStays(e, initial, states, events, i, j, version, m);
    StillKept(e, states[i].files, states[j].files, CommittedUpTo(states[i], m), h, q);
    var batches := BatchesOf(CommittedUpTo(states[i], m));
    hide *;
    QuerySeesTable(e, initial, states, events, i, version, m, h, q, s, now);
    QuerySeesTable(e, initial, states, events, j, version, m, Over(h, states[j].files), q, t, later);
    SameAnswers(h.num, h.bruteForce.schema, h.scanFilter.schema, batches, q, now, later);
  }

  lemma StillKept(e: M.Encoder, before: Files, after: Files, entries: seq<LogEntry>, h: Engine, q: Query)
    requires QueryKept(e, before, entries, h, q)
    ensures QueryKept(e, after, entries, Over(h, after), q)
    ensures Over(h, after).num == h.num && Over(h, after).bruteForce.schema == h.bruteForce.schema
    ensures Over(h, after).scanFilter.schema == h.scanFilter.schema
  {
    hide Kept, AllRectangular, ScalarType;
    var h' := Over(h, after);
    if q.filter.Some? {
      forall j | 0 <= j < |q.filter.value| ensures ConditionKept(e, entries, h'.scanFilter, q.filter.value[j]) {
        assert ConditionKept(e, entries, h.scanFilter, q.filter.value[j]);
      }
    }
  }

  lemma SameAnswers(
    num: Arithmetic, vectors: Schema, scalars: Schema, batches: seq<RecordBatch>, q: Query,
    a: seq<SearchResult>, b: seq<SearchResult>)
    requires IsSqrt(num.sqrt)
    requires IsTableAnswer(num, vectors, scalars, batches, q, a) && IsTableAnswer(num, vectors, scalars, batches, q, b)
    ensures Scores(a) == Scores(b)
    ensures q.limit <= 0 ==> multiset(a) == multiset(b)
  {
    hide Ranking, TableMatches, IsSqrt;
    if q.vector.None? && q.filter.Some? {
      var matches := TableMatches(num, scalars, batches, q.filter.value);
      var x :| Increasing(x) && (set id | id in x) == matches && a == ApplyLimit(Unscored(x), q.limit);
      var y :| Increasing(y) && (set id | id in y) == matches && b == ApplyLimit(Unscored(y), q.limit);
      forall id: int ensures (id in x) == (id in y) {
        assert id in x <==> id in matches;
        assert id in y <==> id in matches;
      }
      IncreasingUnique(x, y);
    }
  }

  lemma LastOfIncreasing(x: seq<int>)
    requires Increasing(x) && x != []
    ensures forall id :: id in x ==> id <= x[|x| - 1]
    ensures forall id :: id in x[..|x| - 1] <==> id in x && id != x[|x| - 1]
  {
    var n := |x| - 1;
    assert x == x[..n] + [x[n]];
    forall id | id in x[..n] ensures id in x && id != x[n] {
      var i :| 0 <= i < n && x[i] == id;
    }
  }

  /** Strictly increasing sequences with the same members are the same. */
  lemma {:induction false} IncreasingUnique(x: seq<int>, y: seq<int>)
    requires Increasing(x) && Increasing(y) && forall id: int :: (id in x) == (id in y)
    ensures x == y
  {
    assert x != [] ==> x[0] in x;
    assert y != [] ==> y[0] in y;
    if x != [] && y != [] {
      var n, m := |x| - 1, |y| - 1;
      LastOfIncreasing(x);
      LastOfIncreasing(y);
      assert x[n] in x && y[m] in y;
      assert x[n] == y[m];
      forall id: int ensures (id in x[..n]) == (id in y[..m]) {
        assert (id in x) == (id in y);
      }
      IncreasingUnique(x[..n], y[..m]);
      assert x == x[..n] + [x[n]] && y == y[..m] + [y[m]];
    }
  }
}
