/** Exhaustive vector search over the fragments of a manifest. */
module BruteForce {
  import opened Common
  import opened Sequences
  import opened ByteOrder
  import opened Store
  import opened Fragments
  import opened Vectors
  import opened Metrics
  import opened SearchResults
  import opened ScanFilter
  import M = MiniBlock

  datatype VectorQuery = VectorQuery(vector: Vector, column: string, metric: Metric)

  /** The rows whose distance a plan computes. */
  datatype Rows = AllRows | Only(ids: set<int>)

  predicate Wanted(rows: Rows, id: int) {
    rows.AllRows? || id in rows.ids
  }

  /** The vector column of a query, if the schema has one of that name. */
  function VectorField(schema: Schema, column: string): Option<Field> {
    match FieldByName(schema, column)
    case None => None
    case Some(field) => if field.dataType.TypeFixedSizeList? && field.dimension > 0 then Some(field) else None
  }

  /** The column exists and has the dimension of the query. */
  predicate QueryFits(src: Source, q: VectorQuery) {
    VectorField(src.schema, q.column).Some? && |q.vector| == VectorField(src.schema, q.column).value.dimension
  }

  /** Row i has all its components in the column data. */
  predicate HasVector(words: seq<Word32>, dim: nat, i: nat) {
    i * dim + dim <= |words|
  }

  lemma LaterVectorsMissing(words: seq<Word32>, dim: nat, i: nat, j: nat)
    requires i <= j && !HasVector(words, dim, i)
    ensures !HasVector(words, dim, j)
  {
    assert j * dim == i * dim + (j - i) * dim;
  }

  function VectorAt(num: Arithmetic, words: seq<Word32>, dim: nat, i: nat): (v: Vector)
    requires HasVector(words, dim, i)
    ensures |v| == dim
  {
    Map(num.ofFloat32, words[i * dim..i * dim + dim])
  }

  predicate ReadsVectors(src: Source, f: Fragment, columnId: int) {
    Read(src, f, columnId).Value? && Read(src, f, columnId).value.Float32s?
  }

  /** The components a fragment holds for a column. */
  function WordsOf(src: Source, f: Fragment, columnId: int): seq<Word32> {
    if ReadsVectors(src, f, columnId) then Read(src, f, columnId).value.float32s else []
  }

  ghost predicate RowMeasurable(num: Arithmetic, q: VectorQuery, words: seq<Word32>, i: nat)
    requires IsSqrt(num.sqrt) && HasVector(words, |q.vector|, i)
  {
    Distance(num.sqrt, q.vector, VectorAt(num, words, |q.vector|, i), q.metric).Success?
  }

  /** The distance of row i, if it has one. */
  ghost function ScoreOf(num: Arithmetic, q: VectorQuery, words: seq<Word32>, i: nat): real
    requires IsSqrt(num.sqrt) && HasVector(words, |q.vector|, i)
  {
    if RowMeasurable(num, q, words, i)
    then Distance(num.sqrt, q.vector, VectorAt(num, words, |q.vector|, i), q.metric).value
    else 0.0
  }

  /** Every wanted row among the first n that has a vector has a distance. */
  ghost predicate FragmentMeasurable(
    num: Arithmetic, q: VectorQuery, words: seq<Word32>, offset: int, rows: Rows, n: nat)
    requires IsSqrt(num.sqrt)
  {
    forall i: nat :: i < n && Wanted(rows, offset + i) && HasVector(words, |q.vector|, i) ==>
      RowMeasurable(num, q, words, i)
  }

  /** The hits of the wanted rows among the first n of a fragment that starts at offset. */
  ghost function FragmentHits(
    num: Arithmetic, q: VectorQuery, words: seq<Word32>, offset: int, rows: Rows, n: nat): seq<SearchResult>
    requires IsSqrt(num.sqrt)
  {
    if n == 0 then []
    else
      FragmentHits(num, q, words, offset, rows, n - 1) +
      if Wanted(rows, offset + n - 1) && HasVector(words, |q.vector|, n - 1)
      then [SearchResult(offset + n - 1, ScoreOf(num, q, words, n - 1))] else []
  }

  /** A scan may stop at the first row without a vector: no later row has one. */
  lemma {:induction false} NothingAfterMissing(
    num: Arithmetic, q: VectorQuery, words: seq<Word32>, offset: int, rows: Rows, i: nat, n: nat)
    requires IsSqrt(num.sqrt) && i <= n && !HasVector(words, |q.vector|, i)
    ensures FragmentHits(num, q, words, offset, rows, n) == FragmentHits(num, q, words, offset, rows, i)
    ensures FragmentMeasurable(num, q, words, offset, rows, n) <==> FragmentMeasurable(num, q, words, offset, rows, i)
  {
    hide IsSqrt, HasVector, RowMeasurable, ScoreOf;
    forall j: nat | i <= j ensures !HasVector(words, |q.vector|, j) {
      LaterVectorsMissing(words, |q.vector|, i, j);
    }
    if i < n {
      NothingAfterMissing(num, q, words, offset, rows, i, n - 1);
    }
  }

  /** The hits of the wanted rows of all fragments, in RowID order. */
  ghost function TableHits(
    num: Arithmetic, src: Source, q: VectorQuery, columnId: int, fragments: seq<Fragment>,
    rows: Rows): seq<SearchResult>
    requires IsSqrt(num.sqrt)
  {
    if fragments == [] then []
    else
      var n := |fragments| - 1;
      TableHits(num, src, q, columnId, fragments[..n], rows) +
      FragmentHits(num, q, WordsOf(src, fragments[n], columnId), RowOffset(fragments, n), rows, RowsOf(fragments[n]))
  }

  /** Fragment i can be scanned. */
  ghost predicate ScansFragment(
    num: Arithmetic, src: Source, q: VectorQuery, columnId: int, f: Fragment, offset: int, rows: Rows)
    requires IsSqrt(num.sqrt)
  {
    && ReadsVectors(src, f, columnId)
    && FragmentMeasurable(num, q, WordsOf(src, f, columnId), offset, rows, RowsOf(f))
  }

  ghost predicate ScansTable(
    num: Arithmetic, src: Source, q: VectorQuery, columnId: int, fragments: seq<Fragment>, rows: Rows)
    requires IsSqrt(num.sqrt)
  {
    forall i :: 0 <= i < |fragments| ==>
      ScansFragment(num, src, q, columnId, fragments[i], RowOffset(fragments, i), rows)
  }

  /** A scan of the wanted rows succeeds. */
  ghost predicate ScanSucceeds(num: Arithmetic, src: Source, q: VectorQuery, fragments: seq<Fragment>, rows: Rows)
    requires IsSqrt(num.sqrt)
  {
    QueryFits(src, q) && ScansTable(num, src, q, VectorField(src.schema, q.column).value.id, fragments, rows)
  }

  /** The candidates of a plan that scans the wanted rows, before sorting. */
  ghost function Candidates(
    num: Arithmetic, src: Source, q: VectorQuery, fragments: seq<Fragment>, rows: Rows): seq<SearchResult>
    requires IsSqrt(num.sqrt)
  {
    if VectorField(src.schema, q.column).None? then []
    else TableHits(num, src, q, VectorField(src.schema, q.column).value.id, fragments, rows)
  }

  lemma {:induction false} OneMoreFragment(
    num: Arithmetic, src: Source, q: VectorQuery, columnId: int, fragments: seq<Fragment>, rows: Rows, k: nat)
    requires IsSqrt(num.sqrt) && k < |fragments|
    ensures ScansTable(num, src, q, columnId, fragments[..k + 1], rows) <==>
            ScansTable(num, src, q, columnId, fragments[..k], rows) &&
            ScansFragment(num, src, q, columnId, fragments[k], RowOffset(fragments, k), rows)
    ensures TableHits(num, src, q, columnId, fragments[..k + 1], rows) ==
            TableHits(num, src, q, columnId, fragments[..k], rows) +
            FragmentHits(num, q, WordsOf(src, fragments[k], columnId), RowOffset(fragments, k), rows,
                         RowsOf(fragments[k]))
  {
    hide ScansFragment, FragmentHits, WordsOf, IsSqrt, RowOffset;
    var front := fragments[..k + 1];
    assert front[..k] == fragments[..k];
    forall i: nat | i <= k ensures RowOffset(front, i) == RowOffset(fragments, i) {
      OffsetOfPrefix(fragments, k + 1, i);
    }
    forall i: nat | i < k ensures RowOffset(fragments[..k], i) == RowOffset(fragments, i) {
      OffsetOfPrefix(fragments, k, i);
    }
    if ScansTable(num, src, q, columnId, front, rows) {
      forall i | 0 <= i < k
        ensures ScansFragment(num, src, q, columnId, fragments[..k][i], RowOffset(fragments[..k], i), rows)
      {
        assert front[i] == fragments[..k][i];
      }
      assert front[k] == fragments[k];
    }
    if ScansTable(num, src, q, columnId, fragments[..k], rows) &&
       ScansFragment(num, src, q, columnId, fragments[k], RowOffset(fragments, k), rows) {
      forall i | 0 <= i < |front| ensures ScansFragment(num, src, q, columnId, front[i], RowOffset(front, i), rows) {
        if i < k {
          assert front[i] == fragments[..k][i];
        }
      }
    }
  }

  lemma {:induction false} FailsEarly(
    num: Arithmetic, src: Source, q: VectorQuery, columnId: int, fragments: seq<Fragment>, rows: Rows, k: nat)
    requires IsSqrt(num.sqrt) && k < |fragments|
    requires !ScansFragment(num, src, q, columnId, fragments[k], RowOffset(fragments, k), rows)
    ensures !ScansTable(num, src, q, columnId, fragments, rows)
  {
  }

  /** The components of one fragment, or why there are none. */
  method ReadVectors(src: Source, f: Fragment, columnId: int) returns (r: M.Outcome<seq<Word32>>)
    ensures r.Value? <==> ReadsVectors(src, f, columnId)
    ensures r.Value? ==> r.value == WordsOf(src, f, columnId)
    ensures r.Panic? ==> ReadPanics(src, [f])
  {
    hide ReadColumn;
    var data := Read(src, f, columnId);
    if !data.Value? {
      if data.Panic? {
        assert Read(src, [f][0], columnId).Panic?;
        return M.Panic;
      }
      return M.Error;
    }
    if !data.value.Float32s? {
      return M.Error;
    }
    return M.Value(data.value.float32s);
  }

  /** The inner loop of the full scan: stops at the first row without a vector. */
  method ScanFragment(num: Arithmetic, q: VectorQuery, words: seq<Word32>, rowOffset: int, numRows: nat)
    returns (r: Option<seq<SearchResult>>)
    requires IsSqrt(num.sqrt)
    ensures r.Some? <==> FragmentMeasurable(num, q, words, rowOffset, AllRows, numRows)
    ensures r.Some? ==> r.value == FragmentHits(num, q, words, rowOffset, AllRows, numRows)
  {
    hide IsSqrt, Distance;
    var dim := |q.vector|;
    var hits: seq<SearchResult> := [];
    for i := 0 to numRows
      invariant FragmentMeasurable(num, q, words, rowOffset, AllRows, i)
      invariant hits == FragmentHits(num, q, words, rowOffset, AllRows, i)
    {
      var start := i * dim;
      var end := start + dim;
      if end > |words| {
        NothingAfterMissing(num, q, words, rowOffset, AllRows, i, numRows);
        return Some(hits);
      }
      var d := Measure(num.sqrt, q.vector, VectorAt(num, words, dim, i), q.metric);
      if d.Failure? {
        assert HasVector(words, |q.vector|, i) && !RowMeasurable(num, q, words, i);
        return None;
      }
      hits := hits + [SearchResult(rowOffset + i, d.value)];
    }
    return Some(hits);
  }

  /** Search: the hits of all rows, sorted by score. */
  method Search(num: Arithmetic, src: Source, fragments: seq<Fragment>, q: VectorQuery)
    returns (r: M.Outcome<array<SearchResult>>)
    requires IsSqrt(num.sqrt)
    ensures r.Value? <==> ScanSucceeds(num, src, q, fragments, AllRows)
    ensures r.Panic? ==> ReadPanics(src, fragments)
    ensures r.Value? ==> fresh(r.value)
    ensures r.Value? ==> SortedPermutation(Candidates(num, src, q, fragments, AllRows), r.value[..])
  {
    hide IsSqrt, ScansTable, TableHits, FragmentHits, FragmentMeasurable, ReadsVectors, WordsOf, ReadPanics;
    var field := VectorField(src.schema, q.column);
    if field.None? {
      return M.Error;
    }
    if |q.vector| != field.value.dimension {
      return M.Error;
    }
    var id := field.value.id;
    var candidates: seq<SearchResult> := [];
    var rowOffset := 0;
    NothingScanned(num, src, q, id, AllRows);
    for k := 0 to |fragments|
      invariant rowOffset == RowOffset(fragments, k)
      invariant ScansTable(num, src, q, id, fragments[..k], AllRows)
      invariant candidates == TableHits(num, src, q, id, fragments[..k], AllRows)
    {
      OneMoreFragment(num, src, q, id, fragments, AllRows, k);
      var words := ReadVectors(src, fragments[k], id);
      if !words.Value? {
        FailsEarly(num, src, q, id, fragments, AllRows, k);
        if words.Panic? {
          PanicIsHere(src, fragments, k);
          return M.Panic;
        }
        return M.Error;
      }
      var numRows := RowsOf(fragments[k]);
      var hits := ScanFragment(num, q, words.value, rowOffset, numRows);
      if hits.None? {
        FailsEarly(num, src, q, id, fragments, AllRows, k);
        return M.Error;
      }
      candidates := candidates + hits.value;
      rowOffset := rowOffset + numRows;
    }
    assert fragments[..|fragments|] == fragments;
    var buffer := new SearchResult[|candidates|](i requires 0 <= i < |candidates| => candidates[i]);
    assert buffer[..] == candidates;
    SortSlice(buffer);
    return M.Value(buffer);
  }

  lemma NothingScanned(num: Arithmetic, src: Source, q: VectorQuery, columnId: int, rows: Rows)
    requires IsSqrt(num.sqrt)
    ensures ScansTable(num, src, q, columnId, [], rows) && TableHits(num, src, q, columnId, [], rows) == []
  {
  }
}
