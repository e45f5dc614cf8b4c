/** Exhaustive vector search, the reference for the IVF index. */
module FlatIndex {
  import opened Common
  import opened Vectors
  import opened Metrics
  import opened KMeans
  import opened SearchResults

  /** Every distance call of a scan of the vectors succeeds. */
  ghost predicate AllMeasurable(sqrt: real -> real, query: Vector, vectors: seq<VectorRecord>, metric: Metric)
    requires IsSqrt(sqrt)
  {
    forall i :: 0 <= i < |vectors| ==> Distance(sqrt, query, vectors[i].vector, metric).Success?
  }

  /** The result a scan records for one vector. */
  ghost function Hit(sqrt: real -> real, query: Vector, v: VectorRecord, metric: Metric): SearchResult
    requires IsSqrt(sqrt) && Distance(sqrt, query, v.vector, metric).Success?
  {
    SearchResult(v.rowId, Distance(sqrt, query, v.vector, metric).value)
  }

  ghost function Hits(
    sqrt: real -> real, query: Vector, vectors: seq<VectorRecord>, metric: Metric): (r: seq<SearchResult>)
    requires IsSqrt(sqrt) && AllMeasurable(sqrt, query, vectors, metric)
    ensures |r| == |vectors|
  {
    seq(|vectors|, i requires 0 <= i < |vectors| => Hit(sqrt, query, vectors[i], metric))
  }

  /** What both indexes require of the vectors they are built from. */
  ghost predicate WellShaped(vectors: seq<VectorRecord>) {
    vectors != [] && |vectors[0].vector| > 0 && SameDimension(vectors, |vectors[0].vector|)
  }

  /** The checks both indexes make before they build. */
  method CheckShape(input: seq<VectorRecord>) returns (r: Result<nat>)
    ensures r.Success? <==> WellShaped(input)
    ensures r.Success? ==> r.value == |input[0].vector|
  {
    if |input| == 0 {
      return Failure("cannot build from empty vectors");
    }
    var dim := |input[0].vector|;
    if dim == 0 {
      return Failure("vector dimension must be > 0");
    }
    for i := 0 to |input|
      invariant forall j :: 0 <= j < i ==> |input[j].vector| == dim
    {
      if |input[i].vector| != dim {
        return Failure("vector has another dimension");
      }
    }
    return Success(dim);
  }

  class FlatIndex {
    var vectors: seq<VectorRecord>
    var dim: nat

    constructor ()
      ensures vectors == []
    {
      vectors, dim := [], 0;
    }

    method Build(input: seq<VectorRecord>) returns (r: Result<()>)
      modifies this
      ensures r.Success? <==> WellShaped(input)
      ensures r.Success? ==> vectors == input && dim == |input[0].vector|
      ensures r.Failure? ==> vectors == old(vectors) && dim == old(dim)
    {
      var shape := CheckShape(input);
      if shape.Failure? {
        return Failure(shape.error);
      }
      vectors, dim := input, shape.value;
      return Success(());
    }

    method Search(sqrt: real -> real, query: Vector, k: int, metric: Metric) returns (r: Result<seq<SearchResult>>)
      requires IsSqrt(sqrt)
      ensures r.Success? <==> vectors != [] && |query| == dim && (k <= 0 || AllMeasurable(sqrt, query, vectors, metric))
      ensures r.Success? && k <= 0 ==> r.value == []
      ensures r.Success? && k > 0 ==> IsTopK(Hits(sqrt, query, vectors, metric), k, r.value)
    {
      hide IsSqrt, Distance;
      if |vectors| == 0 {
        return Failure("index not built or empty");
      }
      if |query| != dim {
        return Failure("query dimension does not match");
      }
      if k <= 0 {
        return Success([]);
      }
      var results := new SearchResult[|vectors|](_ => SearchResult(0, 0.0));
      for i := 0 to |vectors|
        invariant forall j :: 0 <= j < i ==> Distance(sqrt, query, vectors[j].vector, metric).Success?
        invariant forall j :: 0 <= j < i ==> results[j] == Hit(sqrt, query, vectors[j], metric)
      {
        var d := Measure(sqrt, query, vectors[i].vector, metric);
        if d.Failure? {
          return Failure(d.error);
        }
        results[i] := SearchResult(vectors[i].rowId, d.value);
      }
      assert results[..] == Hits(sqrt, query, vectors, metric);
      var top := TopK(results[..], k);
      return Success(top);
    }
  }
}
