/** What searches of both indexes return in terms of the indexed vectors: which rows, a vector's own
    row first, and what the first of equally near centroids means. */
module IndexLaws {
  import opened Common
  import opened Sequences
  import opened Vectors
  import opened Metrics
  import opened MetricLaws
  import opened KMeans
  import opened SearchResults
  import opened FlatIndex
  import opened IvfFlatIndex

  // ---------- Rows ----------

  /** r is the row and the distance of vector i. */
  ghost predicate IsHitOf(
    sqrt: real -> real, query: Vector, metric: Metric, vectors: seq<VectorRecord>, i: nat, r: SearchResult)
    requires IsSqrt(sqrt)
  {
    i < |vectors| && r.rowId == vectors[i].rowId &&
    Distance(sqrt, query, vectors[i].vector, metric) == Success(r.score)
  }

  /** Every result of a search over some vectors is the row of one of them with its distance. */
  lemma ResultIsVector(
    sqrt: real -> real, query: Vector, metric: Metric, vectors: seq<VectorRecord>, ids: seq<nat>, k: int,
    top: seq<SearchResult>, j: nat)
    requires IsSqrt(sqrt) && ProbesMeasurable(sqrt, query, metric, vectors, ids)
    requires IsTopK(Map(HitAt(sqrt, query, metric, vectors), ids), k, top) && j < |top|
    ensures exists i :: i in ids && IsHitOf(sqrt, query, metric, vectors, i, top[j])
  {
    hide IsSqrt, Distance, IsTopK;
    var hits := Map(HitAt(sqrt, query, metric, vectors), ids);
    TopKIsPart(hits, k, top);
    assert top[j] in multiset(hits);
    var m :| 0 <= m < |hits| && hits[m] == top[j];
    assert ids[m] in ids && IsHitOf(sqrt, query, metric, vectors, ids[m], top[j]);
  }

  lemma TopKIsPart(results: seq<SearchResult>, k: int, top: seq<SearchResult>)
    requires IsTopK(results, k, top)
    ensures multiset(top) <= multiset(results)
  {
    if k > 0 {
      TopKCounts(results, k, top, 0.0);
    }
  }

  /** So is every result of exhaustive search. */
  lemma FlatResultIsVector(
    sqrt: real -> real, query: Vector, metric: Metric, vectors: seq<VectorRecord>, k: int,
    top: seq<SearchResult>, j: nat)
    requires IsSqrt(sqrt) && AllMeasurable(sqrt, query, vectors, metric)
    requires IsTopK(Hits(sqrt, query, vectors, metric), k, top) && j < |top|
    ensures exists i :: IsHitOf(sqrt, query, metric, vectors, i, top[j])
  {
    hide IsSqrt, Distance, IsTopK;
    HitsByIndex(sqrt, query, metric, vectors);
    ResultIsVector(sqrt, query, metric, vectors, Indices(|vectors|), k, top, j);
  }

  ghost predicate DistinctRows(vectors: seq<VectorRecord>) {
    forall i, j :: 0 <= i < j < |vectors| ==> vectors[i].rowId != vectors[j].rowId
  }

  /** If rows are distinct, no search returns one twice. */
  lemma NoRowTwice(
    sqrt: real -> real, query: Vector, metric: Metric, k: int, vectors: seq<VectorRecord>,
    partitions: seq<seq<nat>>, assignments: seq<nat>, order: seq<nat>, p: nat, top: seq<SearchResult>, a: nat, b: nat)
    requires IsSqrt(sqrt) && |assignments| == |vectors| && DistinctRows(vectors)
    requires Partitioned(partitions, assignments) && IsRanking(order, |partitions|) && p <= |order|
    requires ProbeResult(sqrt, query, metric, k, vectors, partitions, order, p, top) && a < b < |top|
    ensures top[a].rowId != top[b].rowId
  {
    hide IsSqrt, Distance, IsTopK, Members, Probed;
    var f, ids := HitAt(sqrt, query, metric, vectors), Probed(partitions, order, p);
    if top[a].rowId == top[b].rowId {
      ResultIsVector(sqrt, query, metric, vectors, ids, k, top, a);
      ResultIsVector(sqrt, query, metric, vectors, ids, k, top, b);
      var i: nat :| i in ids && IsHitOf(sqrt, query, metric, vectors, i, top[a]);
      var j: nat :| j in ids && IsHitOf(sqrt, query, metric, vectors, j, top[b]);
      assert i == j && top[a] == top[b];
      TopKIsPart(Map(f, ids), k, top);
      TwiceCounts(top, a, b);
      ProbedAreDistinct(partitions, assignments, order, p);
      OnceCounts(sqrt, query, metric, vectors, ids, top[a]);
    }
  }

  lemma TwiceCounts(s: seq<SearchResult>, a: nat, b: nat)
    requires a < b < |s| && s[a] == s[b]
    ensures multiset(s)[s[a]] >= 2
  {
    assert s == s[..a] + [s[a]] + s[a + 1..b] + [s[b]] + s[b + 1..];
  }

  lemma ProbedAreDistinct(partitions: seq<seq<nat>>, assignments: seq<nat>, order: seq<nat>, p: nat)
    requires Partitioned(partitions, assignments) && IsRanking(order, |partitions|) && p <= |order|
    ensures forall i, j :: 0 <= i < j < |Probed(partitions, order, p)| ==>
      Probed(partitions, order, p)[i] != Probed(partitions, order, p)[j]
  {
    hide Members, Probed, Partitioned;
    forall i, j | 0 <= i < j < |Probed(partitions, order, p)|
      ensures Probed(partitions, order, p)[i] != Probed(partitions, order, p)[j]
    {
      if Probed(partitions, order, p)[i] == Probed(partitions, order, p)[j] {
        ProbedOnce(partitions, assignments, order, p, Probed(partitions, order, p)[i]);
        TwiceCountsIds(Probed(partitions, order, p), i, j);
      }
    }
  }

  lemma TwiceCountsIds(s: seq<nat>, a: nat, b: nat)
    requires a < b < |s| && s[a] == s[b]
    ensures multiset(s)[s[a]] >= 2
  {
    assert s == s[..a] + [s[a]] + s[a + 1..b] + [s[b]] + s[b + 1..];
  }

  lemma DifferentHits(
    sqrt: real -> real, query: Vector, metric: Metric, vectors: seq<VectorRecord>, ids: seq<nat>, a: nat, b: nat)
    requires IsSqrt(sqrt) && ProbesMeasurable(sqrt, query, metric, vectors, ids) && DistinctRows(vectors)
    requires a < b < |ids| && ids[a] != ids[b]
    ensures HitAt(sqrt, query, metric, vectors)(ids[a]) != HitAt(sqrt, query, metric, vectors)(ids[b])
  {
    hide IsSqrt, Distance;
    assert vectors[ids[a]].rowId != vectors[ids[b]].rowId;
  }

  /** Distinct vectors with distinct rows give distinct hits. */
  lemma {:induction false} OnceCounts(
    sqrt: real -> real, query: Vector, metric: Metric, vectors: seq<VectorRecord>, ids: seq<nat>, r: SearchResult)
    requires IsSqrt(sqrt) && ProbesMeasurable(sqrt, query, metric, vectors, ids) && DistinctRows(vectors)
    requires forall i, j :: 0 <= i < j < |ids| ==> ids[i] != ids[j]
    ensures multiset(Map(HitAt(sqrt, query, metric, vectors), ids))[r] <= 1
  {
    hide IsSqrt, Distance, HitAt;
    if ids != [] {
      var f, front, last := HitAt(sqrt, query, metric, vectors), ids[..|ids| - 1], ids[|ids| - 1];
      OnceCounts(sqrt, query, metric, vectors, front, r);
      assert Map(f, ids) == Map(f, front) + [f(last)];
      if f(last) == r {
        forall m | 0 <= m < |front| ensures Map(f, front)[m] != r {
          DifferentHits(sqrt, query, metric, vectors, ids, m, |ids| - 1);
        }
        assert r !in Map(f, front);
      }
    }
  }

  // ---------- A vector finds itself ----------

  lemma {:induction false} CountsMember(s: seq<SearchResult>, m: nat, x: real)
    requires m < |s| && s[m].score <= x
    ensures CountAtMost(s, x) >= 1
  {
    if m > 0 {
      CountsMember(s[1..], m - 1, x);
    }
  }

  /** A hit among the candidates bounds the best score. */
  lemma BestIsBelow(results: seq<SearchResult>, k: int, top: seq<SearchResult>, m: nat)
    requires IsTopK(results, k, top) && k > 0 && m < |results|
    ensures top != [] && top[0].score <= results[m].score
  {
    hide IsTopK;
    var x := results[m].score;
    CountsMember(results, m, x);
    TopKCounts(results, k, top, x);
    CountAtMostLength(top, x);
    RankByCount(top, 0, x);
  }

  /** All other centroids are farther from v than centroid c. */
  ghost predicate OnlyNearest(sqrt: real -> real, v: Vector, metric: Metric, centroids: seq<Vector>, c: nat)
    requires IsSqrt(sqrt) && c < |centroids| && Measurable(sqrt, v, centroids, metric)
  {
    forall d :: 0 <= d < |centroids| && d != c ==>
      Distance(sqrt, v, centroids[c], metric).value < Distance(sqrt, v, centroids[d], metric).value
  }

  lemma FirstIsLeast(sqrt: real -> real, v: Vector, metric: Metric, centroids: seq<Vector>, order: seq<nat>, m: nat)
    requires IsSqrt(sqrt) && Measurable(sqrt, v, centroids, metric)
    requires NearestFirst(sqrt, v, metric, centroids, order) && m < |order|
    ensures Distance(sqrt, v, centroids[order[0]], metric).value <= Distance(sqrt, v, centroids[order[m]], metric).value
  {
    hide IsSqrt, Distance;
  }

  /** The nearest centroid comes first, unless others are as near. */
  lemma NearestComesFirst(
    sqrt: real -> real, v: Vector, metric: Metric, centroids: seq<Vector>, order: seq<nat>, c: nat)
    requires IsSqrt(sqrt) && c < |centroids| && Measurable(sqrt, v, centroids, metric)
    requires NearestFirst(sqrt, v, metric, centroids, order) && OnlyNearest(sqrt, v, metric, centroids, c)
    ensures |order| > 0 && order[0] == c
  {
    hide IsSqrt, Distance;
    var m := PositionOf(order, |centroids|, c);
    FirstIsLeast(sqrt, v, metric, centroids, order, m);
  }

  /** A search for an indexed vector, with the metric of the build, scans that vector, so that its
      best score is no worse than the distance of the vector to itself. */
  lemma FindsSelf(
    sqrt: real -> real, metric: Metric, k: int, vectors: seq<VectorRecord>, centroids: seq<Vector>,
    partitions: seq<seq<nat>>, assignments: seq<nat>, nProbes: int, order: seq<nat>, top: seq<SearchResult>, i: nat)
    requires IsSqrt(sqrt) && i < |vectors| && k > 0
    requires Assigned(sqrt, vectors, centroids, metric, assignments) && Partitioned(partitions, assignments)
    requires IsAnswer(sqrt, vectors[i].vector, metric, k, vectors, centroids, partitions, nProbes, order, top)
    requires assignments[i] < |centroids| && Measurable(sqrt, vectors[i].vector, centroids, metric)
    requires CoversAll(nProbes, |centroids|) ||
      OnlyNearest(sqrt, vectors[i].vector, metric, centroids, assignments[i])
    ensures Distance(sqrt, vectors[i].vector, vectors[i].vector, metric).Success?
    ensures top != [] && top[0].score <= Distance(sqrt, vectors[i].vector, vectors[i].vector, metric).value
  {
    hide IsSqrt, Distance, Members, Probed, IsTopK, NearestFirst, OnlyNearest, FirstNearest, Measurable;
    var v, n := vectors[i].vector, |centroids|;
    ScansAsSet(sqrt, v, metric, k, vectors, centroids, partitions, nProbes, order, top);
    var p := if CoversAll(nProbes, n) then n else if nProbes > 0 then nProbes else 10;
    if CoversAll(nProbes, n) {
      IsRanked(sqrt, v, metric, centroids, order);
      RankingComplete(order, n, assignments[i]);
      assert order[..p] == order;
    } else {
      NearestComesFirst(sqrt, v, metric, centroids, order, assignments[i]);
      assert order[..p][0] == order[0];
    }
    IsRanked(sqrt, v, metric, centroids, order);
    ProbedOnce(partitions, assignments, order, p, i);
    var ids := Probed(partitions, order, p);
    assert i in multiset(ids);
    var m :| 0 <= m < |ids| && ids[m] == i;
    BestIsBelow(Map(HitAt(sqrt, v, metric, vectors), ids), k, top, m);
  }

  lemma IsRanked(sqrt: real -> real, v: Vector, metric: Metric, centroids: seq<Vector>, order: seq<nat>)
    requires IsSqrt(sqrt) && Measurable(sqrt, v, centroids, metric) && NearestFirst(sqrt, v, metric, centroids, order)
    ensures IsRanking(order, |centroids|)
  {
  }

  /** No other vector is as near to vector i as it is itself. */
  ghost predicate StrictlyNearest(sqrt: real -> real, metric: Metric, vectors: seq<VectorRecord>, i: nat)
    requires IsSqrt(sqrt) && i < |vectors|
  {
    var v := vectors[i].vector;
    forall j ::
      (0 <= j < |vectors| && j != i &&
       Distance(sqrt, v, vectors[j].vector, metric).Success? && Distance(sqrt, v, v, metric).Success?) ==>
        Distance(sqrt, v, vectors[j].vector, metric).value > Distance(sqrt, v, v, metric).value
  }

  /** If no other vector is as near, its own row comes first. */
  lemma OwnRowFirst(
    sqrt: real -> real, metric: Metric, k: int, vectors: seq<VectorRecord>, centroids: seq<Vector>,
    partitions: seq<seq<nat>>, assignments: seq<nat>, nProbes: int, order: seq<nat>, top: seq<SearchResult>, i: nat)
    requires IsSqrt(sqrt) && i < |vectors| && k > 0
    requires Assigned(sqrt, vectors, centroids, metric, assignments) && Partitioned(partitions, assignments)
    requires IsAnswer(sqrt, vectors[i].vector, metric, k, vectors, centroids, partitions, nProbes, order, top)
    requires assignments[i] < |centroids| && Measurable(sqrt, vectors[i].vector, centroids, metric)
    requires CoversAll(nProbes, |centroids|) ||
      OnlyNearest(sqrt, vectors[i].vector, metric, centroids, assignments[i])
    requires StrictlyNearest(sqrt, metric, vectors, i)
    ensures top != [] && top[0].rowId == vectors[i].rowId
  {
    hide IsSqrt, Distance, Members, Probed, IsTopK, NearestFirst, OnlyNearest, Assigned, Measurable, Partitioned;
    FindsSelf(sqrt, metric, k, vectors, centroids, partitions, assignments, nProbes, order, top, i);
    var v := vectors[i].vector;
    ScansAsSet(sqrt, v, metric, k, vectors, centroids, partitions, nProbes, order, top);
    var ids := Probed(partitions, order, Probes(nProbes, |centroids|));
    ResultIsVector(sqrt, v, metric, vectors, ids, k, top, 0);
    var j: nat :| j in ids && IsHitOf(sqrt, v, metric, vectors, j, top[0]);
  }

  // ---------- Ties and convergence ----------

  /** Of two equal centroids the later one gets no vectors. */
  lemma DuplicateIsEmpty(
    sqrt: real -> real, vectors: seq<VectorRecord>, centroids: seq<Vector>, metric: Metric,
    assignments: seq<nat>, partitions: seq<seq<nat>>, c: nat, d: nat)
    requires IsSqrt(sqrt) && Assigned(sqrt, vectors, centroids, metric, assignments)
    requires Partitioned(partitions, assignments) && |partitions| == |centroids|
    requires c < d < |centroids| && centroids[c] == centroids[d]
    ensures partitions[d] == []
  {
    hide IsSqrt, Distance, Members;
    if partitions[d] != [] {
      var i := partitions[d][0];
      assert i in partitions[d];
      PartitionByNearest(sqrt, vectors, centroids, metric, assignments, partitions, d, i);
    }
  }

  /** A step moves the centroids by nothing exactly if it leaves every centroid with members in place. */
  lemma {:induction false} MovedNothing(
    sqrt: real -> real, assignments: seq<nat>, centroids: seq<Vector>, next: seq<Vector>, k: nat)
    requires IsSqrt(sqrt) && k <= |centroids| && k <= |next|
    requires forall c :: 0 <= c < k ==> |centroids[c]| == |next[c]|
    ensures MovedTo(sqrt, assignments, centroids, next, k) >= 0.0
    ensures MovedTo(sqrt, assignments, centroids, next, k) == 0.0 <==>
            forall c :: 0 <= c < k && MemberCount(assignments, c, |assignments|) > 0 ==> centroids[c] == next[c]
  {
    hide IsSqrt, MemberCount, Squared;
    if k > 0 {
      MovedNothing(sqrt, assignments, centroids, next, k - 1);
      EuclideanSquare(sqrt, centroids[k - 1], next[k - 1]);
      EuclideanZero(sqrt, centroids[k - 1], next[k - 1]);
    }
  }

  /** If one centroid alone leaves its place, a step moves by the distance it goes, or by nothing if
      its cluster has no members. */
  lemma {:induction false} MovedOne(
    sqrt: real -> real, assignments: seq<nat>, centroids: seq<Vector>, next: seq<Vector>, k: nat, c: nat)
    requires IsSqrt(sqrt) && c < k <= |centroids| && k <= |next|
    requires forall d :: 0 <= d < k ==> |centroids[d]| == |next[d]| && (d != c ==> centroids[d] == next[d])
    ensures MovedTo(sqrt, assignments, centroids, next, k) ==
            if MemberCount(assignments, c, |assignments|) == 0 then 0.0
            else Distance(sqrt, centroids[c], next[c], Euclidean).value
  {
    hide IsSqrt, MemberCount, Squared;
    if c == k - 1 {
      MovedNothing(sqrt, assignments, centroids, next, k - 1);
    } else {
      MovedOne(sqrt, assignments, centroids, next, k - 1, c);
      EuclideanZero(sqrt, centroids[k - 1], next[k - 1]);
    }
  }
}
