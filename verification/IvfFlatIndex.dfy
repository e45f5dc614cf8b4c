/** IVF search over K-Means partitions: construction, probing, and comparison with
    exhaustive search. */
module IvfFlatIndex {
  import opened Common
  import opened Sequences
  import opened Vectors
  import opened Metrics
  import opened KMeans
  import opened SearchResults
  import opened FlatIndex

  const MAX_ITERATIONS := 25
  const CONVERGENCE_THRESHOLD: real := 0.000001

  // ---------- Partitions ----------

  /** The indices below n that are assigned to cluster c, in ascending order. */
  function Members(assignments: seq<nat>, c: nat, n: nat): (r: seq<nat>)
    requires n <= |assignments|
    ensures forall i :: 0 <= i < |r| ==> r[i] < n
  {
    if n == 0 then [] else Members(assignments, c, n - 1) + if assignments[n - 1] == c then [n - 1] else []
  }

  lemma AppendOnce(s: seq<nat>, x: nat, i: nat)
    ensures multiset(s + [x])[i] == multiset(s)[i] + if i == x then 1 else 0
  {
  }

  lemma MembersUnfold(assignments: seq<nat>, c: nat, n: nat)
    requires n <= |assignments|
    ensures Members(assignments, c, n) ==
            if n == 0 then []
            else if assignments[n - 1] == c then Members(assignments, c, n - 1) + [n - 1]
            else Members(assignments, c, n - 1)
  {
  }

  lemma {:induction false} MemberOnce(assignments: seq<nat>, c: nat, n: nat, i: nat)
    requires n <= |assignments|
    ensures multiset(Members(assignments, c, n))[i] == if i < n && assignments[i] == c then 1 else 0
  {
    hide Members;
    MembersUnfold(assignments, c, n);
    if n > 0 {
      MemberOnce(assignments, c, n - 1, i);
      if assignments[n - 1] == c {
        AppendOnce(Members(assignments, c, n - 1), n - 1, i);
      }
    }
  }

  /** The candidate indices of a search that probes the first p partitions of a ranking. */
  function Probed(partitions: seq<seq<nat>>, order: seq<nat>, p: nat): seq<nat>
    requires p <= |order| && forall i :: 0 <= i < |order| ==> order[i] < |partitions|
  {
    if p == 0 then [] else Probed(partitions, order, p - 1) + partitions[order[p - 1]]
  }

  /** partitions lists, per cluster, exactly the vectors assigned to it. */
  ghost predicate Partitioned(partitions: seq<seq<nat>>, assignments: seq<nat>) {
    && (forall i :: 0 <= i < |assignments| ==> assignments[i] < |partitions|)
    && (forall c :: 0 <= c < |partitions| ==> partitions[c] == Members(assignments, c, |assignments|))
  }

  /** order visits every partition exactly once. */
  ghost predicate IsRanking(order: seq<nat>, k: nat) {
    && |order| == k
    && (forall i :: 0 <= i < k ==> order[i] < k)
    && (forall i, j :: 0 <= i < j < k ==> order[i] != order[j])
  }

  function Indices(n: nat): (r: seq<nat>)
    ensures |r| == n && forall i :: 0 <= i < n ==> r[i] == i
  {
    seq(n, i => i)
  }

  lemma {:induction false} IndexOnce(n: nat, i: nat)
    ensures multiset(Indices(n))[i] == if i < n then 1 else 0
  {
    if n > 0 {
      IndexOnce(n - 1, i);
      assert Indices(n) == Indices(n - 1) + [n - 1];
    }
  }

  lemma ConcatCount(a: seq<nat>, b: seq<nat>, i: nat)
    ensures multiset(a + b)[i] == multiset(a)[i] + multiset(b)[i]
  {
  }

  /** A probe of p partitions sees vector i once if its cluster is probed, and not at all otherwise. */
  lemma {:induction false} ProbedOnce(partitions: seq<seq<nat>>, assignments: seq<nat>, order: seq<nat>, p: nat, i: nat)
    requires Partitioned(partitions, assignments) && IsRanking(order, |partitions|) && p <= |order|
    ensures multiset(Probed(partitions, order, p))[i] ==
            if i < |assignments| && assignments[i] in order[..p] then 1 else 0
  {
    hide Members;
    if p > 0 {
      ProbedOnce(partitions, assignments, order, p - 1, i);
      ProbedStep(partitions, assignments, order, p, i);
      assert order[..p] == order[..p - 1] + [order[p - 1]];
    }
  }

  lemma ProbedStep(partitions: seq<seq<nat>>, assignments: seq<nat>, order: seq<nat>, p: nat, i: nat)
    requires Partitioned(partitions, assignments) && IsRanking(order, |partitions|) && 0 < p <= |order|
    ensures multiset(Probed(partitions, order, p))[i] ==
            multiset(Probed(partitions, order, p - 1))[i] +
            if i < |assignments| && assignments[i] == order[p - 1] then 1 else 0
  {
    hide Members;
    var c := order[p - 1];
    MemberOnce(assignments, c, |assignments|, i);
    ConcatCount(Probed(partitions, order, p - 1), partitions[c], i);
  }

  function Below(k: nat): (r: set<nat>)
    ensures |r| == k && forall x: nat :: x in r <==> x < k
  {
    if k == 0 then {} else Below(k - 1) + {k - 1}
  }

  lemma {:induction false} DistinctSize(s: seq<nat>) returns (elements: set<nat>)
    requires forall i, j :: 0 <= i < j < |s| ==> s[i] != s[j]
    ensures |elements| == |s| && forall x :: x in elements <==> x in s
  {
    elements := {};
    if s != [] {
      var front, last := s[..|s| - 1], s[|s| - 1];
      assert s == front + [last];
      elements := DistinctSize(front);
      elements := elements + {last};
    }
  }

  lemma {:induction false} SubsetSize(a: set<nat>, b: set<nat>)
    requires a <= b
    ensures |a| <= |b|
  {
    if a != {} {
      var x :| x in a;
      SubsetSize(a - {x}, b - {x});
    }
  }

  /** A ranking of k partitions leaves none out: k distinct numbers below k are all of them. */
  lemma RankingComplete(order: seq<nat>, k: nat, c: nat)
    requires IsRanking(order, k) && c < k
    ensures c in order
  {
    var elements := DistinctSize(order);
    if c !in order {
      SubsetSize(elements + {c}, Below(k));
    }
  }

  /** Probing every partition, in any ranking, visits every vector exactly once. */
  lemma PartitionsCoverOnce(partitions: seq<seq<nat>>, assignments: seq<nat>, order: seq<nat>)
    requires Partitioned(partitions, assignments) && IsRanking(order, |partitions|)
    ensures multiset(Probed(partitions, order, |order|)) == multiset(Indices(|assignments|))
  {
    forall i: nat
      ensures multiset(Probed(partitions, order, |order|))[i] == multiset(Indices(|assignments|))[i]
    {
      ProbedOnce(partitions, assignments, order, |order|, i);
      IndexOnce(|assignments|, i);
      assert order[..|order|] == order;
      if i < |assignments| {
        RankingComplete(order, |partitions|, assignments[i]);
      }
    }
  }

  lemma {:induction false} ProbedGrows(partitions: seq<seq<nat>>, order: seq<nat>, p: nat, q: nat)
    requires p <= q <= |order| && forall i :: 0 <= i < |order| ==> order[i] < |partitions|
    ensures multiset(Probed(partitions, order, p)) <= multiset(Probed(partitions, order, q))
    decreases q
  {
    if p < q {
      ProbedGrows(partitions, order, p, q - 1);
    }
  }

  // ---------- Comparison with exhaustive search ----------

  /** The result recorded for the vector with a given index. */
  ghost function HitAt(
    sqrt: real -> real, query: Vector, metric: Metric, vectors: seq<VectorRecord>): nat -> SearchResult
    requires IsSqrt(sqrt)
  {
    (i: nat) =>
      if i < |vectors| && Distance(sqrt, query, vectors[i].vector, metric).Success?
      then Hit(sqrt, query, vectors[i], metric)
      else SearchResult(0, 0.0)
  }

  lemma HitsByIndex(sqrt: real -> real, query: Vector, metric: Metric, vectors: seq<VectorRecord>)
    requires IsSqrt(sqrt) && AllMeasurable(sqrt, query, vectors, metric)
    ensures Map(HitAt(sqrt, query, metric, vectors), Indices(|vectors|)) == Hits(sqrt, query, vectors, metric)
  {
    hide Distance;
  }

  /** Every distance call of a scan of these vectors succeeds. */
  ghost predicate ProbesMeasurable(
    sqrt: real -> real, query: Vector, metric: Metric, vectors: seq<VectorRecord>, ids: seq<nat>)
    requires IsSqrt(sqrt)
  {
    forall i :: 0 <= i < |ids| ==>
      ids[i] < |vectors| && Distance(sqrt, query, vectors[ids[i]].vector, metric).Success?
  }

  /** The results of a search that scans the first p partitions of a ranking. */
  ghost predicate ProbeResult(
    sqrt: real -> real, query: Vector, metric: Metric, k: int,
    vectors: seq<VectorRecord>, partitions: seq<seq<nat>>, order: seq<nat>, p: nat, top: seq<SearchResult>)
    requires IsSqrt(sqrt) && p <= |order| && forall i :: 0 <= i < |order| ==> order[i] < |partitions|
  {
    var ids := Probed(partitions, order, p);
    ProbesMeasurable(sqrt, query, metric, vectors, ids) &&
    IsTopK(Map(HitAt(sqrt, query, metric, vectors), ids), k, top)
  }

  /** Scanning more partitions of one ranking never makes the i-th score worse. */
  lemma MoreProbesNeverWorse(
    sqrt: real -> real, query: Vector, metric: Metric, k: int,
    vectors: seq<VectorRecord>, partitions: seq<seq<nat>>, order: seq<nat>,
    p: nat, q: nat, topP: seq<SearchResult>, topQ: seq<SearchResult>)
    requires IsSqrt(sqrt) && p <= q <= |order| && forall i :: 0 <= i < |order| ==> order[i] < |partitions|
    requires ProbeResult(sqrt, query, metric, k, vectors, partitions, order, p, topP)
    requires ProbeResult(sqrt, query, metric, k, vectors, partitions, order, q, topQ)
    ensures NeverBetter(topP, topQ)
  {
    hide Distance, Probed, IsTopK, HitAt;
    var f := HitAt(sqrt, query, metric, vectors);
    var few, many := Probed(partitions, order, p), Probed(partitions, order, q);
    ProbedGrows(partitions, order, p, q);
    MapPart(f, few, many);
    TopKOfPartDominated(Map(f, few), Map(f, many), k, topP, topQ);
  }

  /** An IVF search never ranks a result better than exhaustive search does, and over all
      partitions it returns exactly the score sequence of exhaustive search. */
  lemma RankDomination(
    sqrt: real -> real, query: Vector, metric: Metric, k: int,
    vectors: seq<VectorRecord>, partitions: seq<seq<nat>>, assignments: seq<nat>, order: seq<nat>,
    p: nat, top: seq<SearchResult>, flat: seq<SearchResult>)
    requires IsSqrt(sqrt) && |assignments| == |vectors| && p <= |order|
    requires Partitioned(partitions, assignments) && IsRanking(order, |partitions|)
    requires ProbeResult(sqrt, query, metric, k, vectors, partitions, order, p, top)
    requires AllMeasurable(sqrt, query, vectors, metric)
    requires IsTopK(Hits(sqrt, query, vectors, metric), k, flat)
    ensures NeverBetter(top, flat)
    ensures p == |order| ==> Scores(top) == Scores(flat)
  {
    hide Distance, Probed, IsTopK, Members, HitAt;
    var f := HitAt(sqrt, query, metric, vectors);
    var few, all := Probed(partitions, order, p), Indices(|vectors|);
    ProbedGrows(partitions, order, p, |order|);
    PartitionsCoverOnce(partitions, assignments, order);
    HitsByIndex(sqrt, query, metric, vectors);
    MapPart(f, few, all);
    TopKOfPartDominated(Map(f, few), Map(f, all), k, top, flat);
    if p == |order| {
      MapPart(f, all, few);
      TopKScoresUnique(Map(f, few), Map(f, all), k, top, flat);
    }
  }

  // ---------- The index ----------

  /** The evenly spread starting centroids. */
  function Spread(vectors: seq<VectorRecord>, k: nat): seq<Vector>
    requires k <= |vectors|
  {
    seq(k, i requires 0 <= i < k => SpreadIndex(i, |vectors|, k); vectors[i * |vectors| / k].vector)
  }

  lemma SpreadIndex(i: nat, n: nat, k: nat)
    requires i < k
    ensures 0 <= i * n / k <= n
    ensures n > 0 ==> i * n / k < n
  {
    BelowProduct(i, k, n);
    BelowProduct(i, k, n + 1);
    Distribute(i, n);
    QuotientBelow(i * n, k, n + 1);
    if n > 0 {
      QuotientBelow(i * n, k, n);
    }
  }

  lemma BelowProduct(i: nat, k: nat, n: nat)
    requires i < k
    ensures n > 0 ==> 0 <= i * n < k * n
  {
    Scaled(i + 1, k, n);
    Distribute(n, i);
  }

  lemma Distribute(i: nat, n: nat)
    ensures i * (n + 1) == i * n + i
  {
  }

  lemma QuotientBelow(a: nat, k: nat, n: nat)
    requires k > 0 && a < k * n
    ensures 0 <= a / k < n
  {
    if a / k >= n {
      Scaled(n, a / k, k);
    }
  }

  lemma Scaled(a: int, b: int, k: nat)
    requires a <= b
    ensures a * k <= b * k
  {
  }

  lemma QuotientStep(a: nat, n: nat, k: nat)
    requires k > 0
    ensures n / k <= (a + n) / k - a / k <= n / k + 1
    ensures (a / k) * k <= a < (a / k) * k + k
  {
    var p, q, r := a / k, n / k, (a + n) / k;
    assert a == k * p + a % k && n == k * q + n % k && a + n == k * r + (a + n) % k;
    if r < p + q {
      Scaled(r + 1, p + q, k);
    } else if r > p + q + 1 {
      Scaled(p + q + 2, r, k);
    }
  }

  /** K-Means starts from evenly spread vectors: cut into as many groups as there are partitions,
      whose sizes differ by at most one, the input gives the first vector of each group. */
  lemma SpreadEvenly(vectors: seq<VectorRecord>, k: nat) returns (starts: seq<nat>)
    requires 0 < k <= |vectors|
    ensures |starts| == k + 1 && starts[0] == 0 && starts[k] == |vectors|
    ensures forall i :: 0 <= i < k ==>
      |vectors| / k <= starts[i + 1] - starts[i] <= |vectors| / k + 1 && starts[i] < |vectors|
    ensures forall i :: 0 <= i < k ==>
      starts[i] * k <= i * |vectors| < starts[i] * k + k && Spread(vectors, k)[i] == vectors[starts[i]].vector
  {
    var n := |vectors|;
    starts := seq(k + 1, i requires 0 <= i < k + 1 => i * n / k);
    forall i: nat | i < k
      ensures n / k <= starts[i + 1] - starts[i] <= n / k + 1 && starts[i] < n
      ensures starts[i] * k <= i * n < starts[i] * k + k && Spread(vectors, k)[i] == vectors[starts[i]].vector
    {
      SpreadIndex(i, n, k);
      QuotientStep(i * n, n, k);
      assert (i + 1) * n == i * n + n;
    }
    WholeQuotient(n, k);
  }

  lemma WholeQuotient(n: nat, k: nat)
    requires k > 0
    ensures k * n / k == n && 0 * n / k == 0
  {
    QuotientStep(k * n, 0, k);
    if k * n / k < n {
      Scaled(k * n / k + 1, n, k);
    } else if k * n / k > n {
      Scaled(n + 1, k * n / k, k);
    }
  }

  ghost predicate Shaped(trace: seq<seq<Vector>>, k: nat, dim: nat) {
    forall t :: 0 <= t < |trace| ==> |trace[t]| == k && CentroidDimension(trace[t], dim)
  }

  /** How far step t of a run moved the centroids of clusters with members. */
  ghost function StepMoved(
    sqrt: real -> real, trace: seq<seq<Vector>>, labels: seq<seq<nat>>, k: nat, dim: nat, t: nat): real
    requires IsSqrt(sqrt) && t < |labels| && t + 1 < |trace| && Shaped(trace, k, dim)
  {
    MovedTo(sqrt, labels[t], trace[t], trace[t + 1], k)
  }

  /** None of the first n steps of a run moved the centroids less than the threshold. */
  ghost predicate KeptMoving(
    sqrt: real -> real, trace: seq<seq<Vector>>, labels: seq<seq<nat>>, k: nat, dim: nat, n: nat)
    requires IsSqrt(sqrt) && n <= |labels| && n + 1 <= |trace| && Shaped(trace, k, dim)
  {
    forall t :: 0 <= t < n ==> StepMoved(sqrt, trace, labels, k, dim, t) >= CONVERGENCE_THRESHOLD
  }

  /** How K-Means stopped: with the first step that moves the centroids less than the
      threshold, or when the iterations ran out. */
  ghost predicate StoppedWhen(
    sqrt: real -> real, trace: seq<seq<Vector>>, labels: seq<seq<nat>>, k: nat, dim: nat)
    requires IsSqrt(sqrt) && |trace| == |labels| >= 2 && Shaped(trace, k, dim)
  {
    var last := |trace| - 2;
    && last < MAX_ITERATIONS
    && KeptMoving(sqrt, trace, labels, k, dim, last)
    && (last + 1 == MAX_ITERATIONS || StepMoved(sqrt, trace, labels, k, dim, last) < CONVERGENCE_THRESHOLD)
  }

  /** Everything a finished K-Means run leaves behind. */
  ghost predicate FinishedRun(
    sqrt: real -> real, vectors: seq<VectorRecord>, dim: nat, k: nat, metric: Metric,
    trace: seq<seq<Vector>>, labels: seq<seq<nat>>, centroids: seq<Vector>, assignments: seq<nat>)
    requires IsSqrt(sqrt)
  {
    && k <= |vectors| && SameDimension(vectors, dim)
    && |trace| == |labels| >= 2 && Shaped(trace, k, dim)
    && LloydRun(sqrt, vectors, dim, metric, trace, labels)
    && StoppedWhen(sqrt, trace, labels, k, dim)
    && trace[0] == Spread(vectors, k)
    && trace[|trace| - 1] == centroids && labels[|labels| - 1] == assignments
  }

  /** Why a build fails on well-shaped input: K-Means went on from the evenly spread start until
      a distance call to the centroids it had reached failed. */
  ghost predicate BrokenRun(
    sqrt: real -> real, vectors: seq<VectorRecord>, dim: nat, k: nat, metric: Metric,
    trace: seq<seq<Vector>>, labels: seq<seq<nat>>)
    requires IsSqrt(sqrt)
  {
    && k <= |vectors| && SameDimension(vectors, dim)
    && |trace| == |labels| + 1 <= MAX_ITERATIONS + 1 && Shaped(trace, k, dim)
    && LloydRun(sqrt, vectors, dim, metric, trace, labels)
    && trace[0] == Spread(vectors, k)
    && exists i :: 0 <= i < |vectors| && !Measurable(sqrt, vectors[i].vector, trace[|labels|], metric)
  }

  /** A build into at most numPartitions partitions failed: on misshapen input, or so. */
  ghost predicate BuildBroke(
    sqrt: real -> real, input: seq<VectorRecord>, numPartitions: int, metric: Metric,
    trace: seq<seq<Vector>>, labels: seq<seq<nat>>)
    requires IsSqrt(sqrt) && numPartitions >= 1
  {
    WellShaped(input) ==>
      BrokenRun(sqrt, input, |input[0].vector|, Min(numPartitions, |input|), metric, trace, labels)
  }

  /** The number of partitions a search scans. */
  function Probes(nProbes: int, numPartitions: nat): (p: nat)
    ensures p <= numPartitions
  {
    if nProbes <= 0 then Min(numPartitions, 10) else Min(nProbes, numPartitions)
  }

  /** The centroids as search results: index and distance to the query. */
  ghost function Ranked(
    sqrt: real -> real, query: Vector, metric: Metric, centroids: seq<Vector>): (r: seq<SearchResult>)
    requires IsSqrt(sqrt) && Measurable(sqrt, query, centroids, metric)
    ensures |r| == |centroids|
  {
    seq(|centroids|, i requires 0 <= i < |centroids| =>
      SearchResult(i, Distance(sqrt, query, centroids[i], metric).value))
  }

  /** order lists the centroids by distance to the query, ties in any order. */
  ghost predicate NearestFirst(
    sqrt: real -> real, query: Vector, metric: Metric, centroids: seq<Vector>, order: seq<nat>)
    requires IsSqrt(sqrt) && Measurable(sqrt, query, centroids, metric)
  {
    && IsRanking(order, |centroids|)
    && forall i, j :: 0 <= i < j < |order| ==> (
         Distance(sqrt, query, centroids[order[i]], metric).value
      <= Distance(sqrt, query, centroids[order[j]], metric).value)
  }

  // ---------- Searches that break ties differently ----------

  /** The p nearest centroids are nearer than the others. */
  ghost predicate NoTieAcross(
    sqrt: real -> real, query: Vector, metric: Metric, centroids: seq<Vector>, order: seq<nat>, p: nat)
    requires IsSqrt(sqrt) && Measurable(sqrt, query, centroids, metric)
    requires NearestFirst(sqrt, query, metric, centroids, order)
  {
    0 < p < |order| ==>
      Distance(sqrt, query, centroids[order[p - 1]], metric).value <
        Distance(sqrt, query, centroids[order[p]], metric).value
  }

  lemma PositionOf(order: seq<nat>, k: nat, c: nat) returns (i: nat)
    requires IsRanking(order, k) && c < k
    ensures i < k && order[i] == c
  {
    RankingComplete(order, k, c);
    i :| i < |order| && order[i] == c;
  }

  /** Without a tie across the p-th place, whatever one ranking probes first, any other ranking
      probes among its first p too. */
  lemma SameNearest(
    sqrt: real -> real, query: Vector, metric: Metric, centroids: seq<Vector>, a: seq<nat>, b: seq<nat>, p: nat, i: nat)
    requires IsSqrt(sqrt) && Measurable(sqrt, query, centroids, metric)
    requires NearestFirst(sqrt, query, metric, centroids, a) && NearestFirst(sqrt, query, metric, centroids, b)
    requires NoTieAcross(sqrt, query, metric, centroids, a, p) && i < p <= |a|
    ensures a[i] in b[..p]
  {
    hide IsSqrt, Distance;
    var j := PositionOf(b, |centroids|, a[i]);
    if j >= p {
      var below := DistinctSize(b[..p]);
      var first := DistinctSize(a[..p]);
      forall m | 0 <= m < p ensures b[m] in a[..p] {
        var n := PositionOf(a, |centroids|, b[m]);
        if n >= p {
          assert false;
        }
      }
      assert a[i] in a[..p] && a[i] !in b[..p];
      SubsetSize(below + {a[i]}, first);
    }
  }

  /** Scanning more partitions never makes the i-th score worse, even if the two searches rank
      tied centroids differently, unless a tie runs across the p-th place. */
  lemma MoreProbesAnyRanking(
    sqrt: real -> real, query: Vector, metric: Metric, k: int,
    vectors: seq<VectorRecord>, centroids: seq<Vector>, partitions: seq<seq<nat>>, assignments: seq<nat>,
    a: seq<nat>, b: seq<nat>, p: nat, q: nat, topP: seq<SearchResult>, topQ: seq<SearchResult>)
    requires IsSqrt(sqrt) && Measurable(sqrt, query, centroids, metric) && p <= q <= |centroids| == |partitions|
    requires NearestFirst(sqrt, query, metric, centroids, a) && NearestFirst(sqrt, query, metric, centroids, b)
    requires NoTieAcross(sqrt, query, metric, centroids, a, p) && Partitioned(partitions, assignments)
    requires ProbeResult(sqrt, query, metric, k, vectors, partitions, a, p, topP)
    requires ProbeResult(sqrt, query, metric, k, vectors, partitions, b, q, topQ)
    ensures NeverBetter(topP, topQ)
  {
    hide IsSqrt, Distance, Probed, IsTopK, HitAt, Members, Measurable, NoTieAcross;
    var f := HitAt(sqrt, query, metric, vectors);
    forall x: nat ensures multiset(Probed(partitions, a, p))[x] <= multiset(Probed(partitions, b, q))[x] {
      ProbedOnce(partitions, assignments, a, p, x);
      ProbedOnce(partitions, assignments, b, q, x);
      if x < |assignments| && assignments[x] in a[..p] {
        var i: nat :| i < p && a[i] == assignments[x];
        SameNearest(sqrt, query, metric, centroids, a, b, p, i);
        assert b[..p] <= b[..q];
      }
    }
    MapPart(f, Probed(partitions, a, p), Probed(partitions, b, q));
    TopKOfPartDominated(Map(f, Probed(partitions, a, p)), Map(f, Probed(partitions, b, q)), k, topP, topQ);
  }

  // ---------- What NProbes promises ----------

  /** A search that answered: the k best of the partitions it probed, nearest centroids first. */
  ghost predicate IsAnswer(
    sqrt: real -> real, query: Vector, metric: Metric, k: int, vectors: seq<VectorRecord>, centroids: seq<Vector>,
    partitions: seq<seq<nat>>, nProbes: int, order: seq<nat>, top: seq<SearchResult>)
    requires IsSqrt(sqrt)
  {
    && |partitions| == |centroids| && Measurable(sqrt, query, centroids, metric)
    && NearestFirst(sqrt, query, metric, centroids, order)
    && ProbeResult(sqrt, query, metric, k, vectors, partitions, order, Probes(nProbes, |centroids|), top)
  }

  /** Set to at least the number of partitions, or not set with at most ten of them. */
  predicate CoversAll(nProbes: int, numPartitions: nat) {
    nProbes >= numPartitions || (nProbes <= 0 && numPartitions <= 10)
  }

  /** The number of nearest partitions that a search scans: all if NProbes covers them, else as
      many as it is set to, else ten. */
  lemma ScansAsSet(
    sqrt: real -> real, query: Vector, metric: Metric, k: int, vectors: seq<VectorRecord>, centroids: seq<Vector>,
    partitions: seq<seq<nat>>, nProbes: int, order: seq<nat>, top: seq<SearchResult>)
    requires IsSqrt(sqrt)
    requires IsAnswer(sqrt, query, metric, k, vectors, centroids, partitions, nProbes, order, top)
    ensures |order| == |centroids| == |partitions| && forall i :: 0 <= i < |order| ==> order[i] < |partitions|
    ensures CoversAll(nProbes, |centroids|) ==>
      ProbeResult(sqrt, query, metric, k, vectors, partitions, order, |centroids|, top)
    ensures 0 < nProbes <= |centroids| ==>
      ProbeResult(sqrt, query, metric, k, vectors, partitions, order, nProbes, top)
    ensures nProbes <= 0 && |centroids| > 10 ==>
      ProbeResult(sqrt, query, metric, k, vectors, partitions, order, 10, top)
  {
    hide IsSqrt, Distance, ProbeResult;
  }

  /** A search that covers all partitions is exact: exhaustive search succeeds too, and whatever it
      returns has the same scores. */
  lemma SearchIsExact(
    sqrt: real -> real, query: Vector, metric: Metric, k: int, vectors: seq<VectorRecord>, centroids: seq<Vector>,
    partitions: seq<seq<nat>>, assignments: seq<nat>, nProbes: int, order: seq<nat>, top: seq<SearchResult>)
    requires IsSqrt(sqrt) && |assignments| == |vectors| && Partitioned(partitions, assignments)
    requires IsAnswer(sqrt, query, metric, k, vectors, centroids, partitions, nProbes, order, top)
    requires CoversAll(nProbes, |centroids|)
    ensures AllMeasurable(sqrt, query, vectors, metric)
    ensures forall flat :: IsTopK(Hits(sqrt, query, vectors, metric), k, flat) ==> Scores(top) == Scores(flat)
  {
    hide IsSqrt, Distance, Members, Probed, IsTopK, HitAt;
    ScansAsSet(sqrt, query, metric, k, vectors, centroids, partitions, nProbes, order, top);
    ProbedAllMeasurable(sqrt, query, metric, vectors, partitions, assignments, order);
    forall flat | IsTopK(Hits(sqrt, query, vectors, metric), k, flat) ensures Scores(top) == Scores(flat) {
      RankDomination(sqrt, query, metric, k, vectors, partitions, assignments, order, |order|, top, flat);
    }
  }

  lemma ProbedAllMeasurable(
    sqrt: real -> real, query: Vector, metric: Metric, vectors: seq<VectorRecord>, partitions: seq<seq<nat>>,
    assignments: seq<nat>, order: seq<nat>)
    requires IsSqrt(sqrt) && |assignments| == |vectors| && Partitioned(partitions, assignments)
    requires IsRanking(order, |partitions|)
    requires ProbesMeasurable(sqrt, query, metric, vectors, Probed(partitions, order, |order|))
    ensures AllMeasurable(sqrt, query, vectors, metric)
  {
    hide IsSqrt, Distance, Members, Probed;
    var ids := Probed(partitions, order, |order|);
    forall i | 0 <= i < |vectors| ensures Distance(sqrt, query, vectors[i].vector, metric).Success? {
      PartitionsCoverOnce(partitions, assignments, order);
      IndexOnce(|vectors|, i);
      assert i in multiset(ids);
      var j :| 0 <= j < |ids| && ids[j] == i;
    }
  }

  /** Raising NProbes never makes the i-th score worse: from one setting to a larger one, or from
      the default to ten or more, if both searches rank the centroids alike or no tie crosses the
      last place that the first one probes. */
  lemma RaisingProbes(
    sqrt: real -> real, query: Vector, metric: Metric, k: int, vectors: seq<VectorRecord>, centroids: seq<Vector>,
    partitions: seq<seq<nat>>, assignments: seq<nat>, few: int, many: int, a: seq<nat>, b: seq<nat>,
    topFew: seq<SearchResult>, topMany: seq<SearchResult>)
    requires IsSqrt(sqrt) && Partitioned(partitions, assignments) && centroids != []
    requires IsAnswer(sqrt, query, metric, k, vectors, centroids, partitions, few, a, topFew)
    requires IsAnswer(sqrt, query, metric, k, vectors, centroids, partitions, many, b, topMany)
    requires 0 < few <= many || (few <= 0 && many >= 10)
    requires a == b || CoversAll(few, |centroids|) ||
      NoTieAcross(sqrt, query, metric, centroids, a, if few > 0 then few else 10)
    ensures NeverBetter(topFew, topMany)
  {
    hide IsSqrt, Distance, Members, ProbeResult, NoTieAcross, NearestFirst, Measurable;
    ScansAsSet(sqrt, query, metric, k, vectors, centroids, partitions, few, a, topFew);
    ScansAsSet(sqrt, query, metric, k, vectors, centroids, partitions, many, b, topMany);
    var n := |centroids|;
    var p := if CoversAll(few, n) then n else if few > 0 then few else 10;
    var q := if CoversAll(many, n) then n else many;
    if a == b {
      MoreProbesNeverWorse(sqrt, query, metric, k, vectors, partitions, a, p, q, topFew, topMany);
    } else {
      NoTieAtEnd(sqrt, query, metric, centroids, a);
      MoreProbesAnyRanking(sqrt, query, metric, k, vectors, centroids, partitions, assignments, a, b, p, q,
                           topFew, topMany);
    }
  }

  lemma NoTieAtEnd(sqrt: real -> real, query: Vector, metric: Metric, centroids: seq<Vector>, order: seq<nat>)
    requires IsSqrt(sqrt) && Measurable(sqrt, query, centroids, metric)
    requires NearestFirst(sqrt, query, metric, centroids, order)
    ensures NoTieAcross(sqrt, query, metric, centroids, order, |centroids|)
  {
  }

  /** When all results are asked for, a search finds what exhaustive search finds exactly if it
      probes the partition of every vector. */
  lemma FindsAllWhen(
    sqrt: real -> real, query: Vector, metric: Metric, k: int, vectors: seq<VectorRecord>,
    partitions: seq<seq<nat>>, assignments: seq<nat>, order: seq<nat>, p: nat,
    top: seq<SearchResult>, flat: seq<SearchResult>)
    requires IsSqrt(sqrt) && |assignments| == |vectors| && p <= |order| && k >= |vectors|
    requires Partitioned(partitions, assignments) && IsRanking(order, |partitions|)
    requires ProbeResult(sqrt, query, metric, k, vectors, partitions, order, p, top)
    requires AllMeasurable(sqrt, query, vectors, metric)
    requires IsTopK(Hits(sqrt, query, vectors, metric), k, flat)
    ensures Scores(top) == Scores(flat) <==> forall i :: 0 <= i < |vectors| ==> assignments[i] in order[..p]
  {
    hide IsSqrt, Distance, Members, Probed, HitAt, IsTopK, Partitioned;
    var f := HitAt(sqrt, query, metric, vectors);
    HitsByIndex(sqrt, query, metric, vectors);
    ProbedSize(partitions, assignments, order, p);
    TopKLength(Map(f, Probed(partitions, order, p)), k, top);
    TopKLength(Hits(sqrt, query, vectors, metric), k, flat);
    if i :| 0 <= i < |vectors| && assignments[i] !in order[..p] {
      MissesSome(partitions, assignments, order, p, i);
    } else {
      CoversProbed(partitions, assignments, order, p);
      MapPart(f, Probed(partitions, order, p), Indices(|vectors|));
      MapPart(f, Indices(|vectors|), Probed(partitions, order, p));
      TopKScoresUnique(Map(f, Probed(partitions, order, p)), Map(f, Indices(|vectors|)), k, top, flat);
    }
  }

  lemma ProbedSize(partitions: seq<seq<nat>>, assignments: seq<nat>, order: seq<nat>, p: nat)
    requires Partitioned(partitions, assignments) && IsRanking(order, |partitions|) && p <= |order|
    ensures |Probed(partitions, order, p)| <= |assignments|
  {
    hide Members, Probed;
    PartitionsCoverOnce(partitions, assignments, order);
    ProbedGrows(partitions, order, p, |order|);
    PartIsNotLonger(Probed(partitions, order, p), Indices(|assignments|));
  }

  lemma PartIsNotLonger(part: seq<nat>, all: seq<nat>)
    requires multiset(part) <= multiset(all)
    ensures |part| <= |all|
  {
    var rest := multiset(all) - multiset(part);
    assert multiset(all) == multiset(part) + rest;
    assert |multiset(all)| == |multiset(part)| + |rest|;
  }

  lemma MissesSome(partitions: seq<seq<nat>>, assignments: seq<nat>, order: seq<nat>, p: nat, i: nat)
    requires Partitioned(partitions, assignments) && IsRanking(order, |partitions|) && p <= |order|
    requires i < |assignments| && assignments[i] !in order[..p]
    ensures |Probed(partitions, order, p)| < |assignments|
  {
    hide Members, Probed;
    PartitionsCoverOnce(partitions, assignments, order);
    ProbedGrows(partitions, order, p, |order|);
    ProbedOnce(partitions, assignments, order, p, i);
    IndexOnce(|assignments|, i);
    MissingIsShorter(Probed(partitions, order, p), Indices(|assignments|), i);
  }

  lemma CoversProbed(partitions: seq<seq<nat>>, assignments: seq<nat>, order: seq<nat>, p: nat)
    requires Partitioned(partitions, assignments) && IsRanking(order, |partitions|) && p <= |order|
    requires forall i :: 0 <= i < |assignments| ==> assignments[i] in order[..p]
    ensures multiset(Probed(partitions, order, p)) == multiset(Indices(|assignments|))
  {
    hide Members, Probed, Partitioned;
    forall i: nat
      ensures multiset(Probed(partitions, order, p))[i] == multiset(Indices(|assignments|))[i]
    {
      ProbedOnce(partitions, assignments, order, p, i);
      IndexOnce(|assignments|, i);
    }
  }

  lemma MissingIsShorter(part: seq<nat>, all: seq<nat>, x: nat)
    requires multiset(part) <= multiset(all) && multiset(part)[x] < multiset(all)[x]
    ensures |part| < |all|
  {
    var rest := multiset(all) - multiset(part);
    assert multiset(all) == multiset(part) + rest && x in rest;
  }

  lemma TopKLength(results: seq<SearchResult>, k: int, top: seq<SearchResult>)
    requires IsTopK(results, k, top) && k >= |results|
    ensures |top| == |results|
  {
    if k > 0 {
      var sorted :| SortedPermutation(results, sorted) && top == sorted[..Min(k, |sorted|)];
      assert |multiset(sorted)| == |multiset(results)|;
    }
  }

  class IVFFlatIndex {
    var centroids: seq<Vector>
    var partitions: seq<seq<nat>>
    var vectors: seq<VectorRecord>
    var numPartitions: nat
    var dim: nat
    var nProbes: int
    const metric: Metric
    ghost var assignments: seq<nat>

    /** The index is empty, or holds a clustering of its vectors. */
    ghost predicate Valid()
      reads this
    {
      numPartitions >= 1 && (vectors == [] || Clustered())
    }

    ghost predicate Clustered()
      reads this
    {
      && WellShaped(vectors) && dim == |vectors[0].vector|
      && numPartitions == |centroids| == |partitions|
      && CentroidDimension(centroids, dim)
      && |assignments| == |vectors|
      && Partitioned(partitions, assignments)
    }

    constructor (numPartitions: int, metric: Metric)
      ensures Valid() && vectors == [] && this.metric == metric
      ensures this.numPartitions == Max(numPartitions, 1) && nProbes == 0
    {
      this.numPartitions := if numPartitions < 1 then 1 else numPartitions;
      this.metric := metric;
      centroids, partitions, vectors, dim, nProbes, assignments := [], [], [], 0, 0, [];
    }

    /** K-Means over the input, then one partition per final centroid. The ghost results record
        the centroids and assignments of every iteration. */
    method Build(sqrt: real -> real, input: seq<VectorRecord>)
      returns (r: Result<()>, ghost trace: seq<seq<Vector>>, ghost labels: seq<seq<nat>>)
      requires IsSqrt(sqrt) && Valid()
      modifies this
      ensures Valid() && nProbes == old(nProbes)
      ensures !WellShaped(input) ==> r.Failure?
      ensures WellShaped(input) && (metric.Euclidean? || metric.DotProduct?) ==> r.Success?
      ensures r.Failure? ==> BuildBroke(sqrt, input, old(numPartitions), metric, trace, labels)
      ensures r.Failure? ==> unchanged(this)
      ensures r.Success? ==> vectors == input && numPartitions == Min(old(numPartitions), |input|)
      ensures r.Success? ==> Assigned(sqrt, vectors, centroids, metric, assignments)
      ensures r.Success? ==>
        FinishedRun(sqrt, vectors, dim, numPartitions, metric, trace, labels, centroids, assignments)
    {
      trace, labels := [], [];
      assert numPartitions >= 1;
      hide *;
      r, trace, labels := Failure(""), [], [];
      var built, path, stamps := Construct(sqrt, input, numPartitions, metric);
      if built.Failure? {
        return Failure(built.error), path, stamps;
      }
      Adopt(sqrt, input, built.value);
      r, trace, labels := Success(()), path, stamps;
    }

    /** The assignments to the index fields that end a build. */
    method Adopt(ghost sqrt: real -> real, input: seq<VectorRecord>, c: Clustering)
      requires IsSqrt(sqrt) && IsClustering(sqrt, input, |c.centroids|, metric, c)
      modifies this
      ensures Valid() && nProbes == old(nProbes) && vectors == input && numPartitions == |c.centroids| && dim == c.dim
      ensures centroids == c.centroids && partitions == c.partitions && assignments == c.assignments
      ensures Assigned(sqrt, vectors, centroids, metric, assignments)
    {
      hide *;
      centroids, partitions, vectors, numPartitions, dim := c.centroids, c.partitions, input, |c.centroids|, c.dim;
      assignments := c.assignments;
      ClusteringIsValid(sqrt, c);
    }

    lemma ClusteringIsValid(sqrt: real -> real, c: Clustering)
      requires IsSqrt(sqrt) && IsClustering(sqrt, vectors, numPartitions, metric, c)
      requires c == Clustering(dim, centroids, assignments, partitions)
      ensures Valid() && Assigned(sqrt, vectors, centroids, metric, assignments)
    {
      hide IsSqrt, FirstNearest, Members;
    }

    /** Ranks the centroids, scans the nearest partitions and keeps the k best. The ghost
        result is the ranking the unstable sort produced. */
    method Search(sqrt: real -> real, query: Vector, k: int, metric: Metric)
      returns (r: Result<seq<SearchResult>>, ghost order: seq<nat>)
      requires IsSqrt(sqrt) && Valid()
      ensures vectors == [] || |query| != dim ==> r.Failure?
      ensures vectors != [] && |query| == dim && k <= 0 ==> r == Success([])
      ensures vectors != [] && |query| == dim && k > 0 ==>
        if !Measurable(sqrt, query, centroids, metric) then r.Failure?
        else
          && NearestFirst(sqrt, query, metric, centroids, order)
          && if r.Success?
             then IsAnswer(sqrt, query, metric, k, vectors, centroids, partitions, nProbes, order, r.value)
             else !ProbesMeasurable(sqrt, query, metric, vectors,
                                    Probed(partitions, order, Probes(nProbes, numPartitions)))
      ensures r.Success? && k > 0 && CoversAll(nProbes, numPartitions) ==>
        && AllMeasurable(sqrt, query, vectors, metric)
        && forall flat :: IsTopK(Hits(sqrt, query, vectors, metric), k, flat) ==> Scores(r.value) == Scores(flat)
    {
      hide IsSqrt, Distance, Members, IsTopK, Probed, HitAt;
      order := [];
      if |vectors| == 0 {
        return Failure("index not built or empty"), [];
      }
      if |query| != dim {
        return Failure("query dimension does not match"), [];
      }
      if k <= 0 {
        return Success([]), [];
      }
      var probes := nProbes;
      if probes <= 0 {
        probes := numPartitions;
        if probes > 10 {
          probes := 10;
        }
      }
      if probes > numPartitions {
        probes := numPartitions;
      }
      var ranking := RankCentroids(sqrt, query, centroids, metric);
      if ranking.Failure? {
        return Failure(ranking.error), [];
      }
      order := ranking.value;
      var results := ScanProbes(sqrt, query, metric, vectors, partitions, ranking.value, probes);
      if results.Failure? {
        return Failure(results.error), order;
      }
      var top := TopK(results.value, k);
      assert IsAnswer(sqrt, query, metric, k, vectors, centroids, partitions, nProbes, order, top);
      if CoversAll(nProbes, numPartitions) {
        SearchIsExact(sqrt, query, metric, k, vectors, centroids, partitions, assignments, nProbes, order, top);
      }
      return Success(top), order;
    }
  }

  method InitialCentroids(vectors: seq<VectorRecord>, k: nat) returns (centroids: seq<Vector>)
    requires 0 < k <= |vectors|
    ensures centroids == Spread(vectors, k)
  {
    centroids := [];
    for i := 0 to k
      invariant centroids == Spread(vectors, k)[..i]
    {
      SpreadIndex(i, |vectors|, k);
      var si := i * |vectors| / k;
      centroids := centroids + [vectors[si].vector];
    }
  }

  lemma CanMeasure(sqrt: real -> real, vectors: seq<VectorRecord>, centroids: seq<Vector>, metric: Metric, dim: nat)
    requires IsSqrt(sqrt) && SameDimension(vectors, dim) && CentroidDimension(centroids, dim)
    requires metric.Euclidean? || metric.DotProduct?
    ensures forall i :: 0 <= i < |vectors| ==> Measurable(sqrt, vectors[i].vector, centroids, metric)
  {
  }

  /** Adding one round to a run that kept moving. */
  lemma ExtendRun(
    sqrt: real -> real, trace: seq<seq<Vector>>, labels: seq<seq<nat>>, k: nat, dim: nat,
    next: seq<Vector>, marks: seq<nat>)
    requires IsSqrt(sqrt) && |trace| == |labels| + 1 && Shaped(trace, k, dim)
    requires |next| == k && CentroidDimension(next, dim)
    requires KeptMoving(sqrt, trace, labels, k, dim, |labels|)
    ensures Shaped(trace + [next], k, dim)
    ensures KeptMoving(sqrt, trace + [next], labels + [marks], k, dim, |labels|)
    ensures StepMoved(sqrt, trace + [next], labels + [marks], k, dim, |labels|)
         == MovedTo(sqrt, marks, trace[|labels|], next, k)
    ensures MovedTo(sqrt, marks, trace[|labels|], next, k) >= CONVERGENCE_THRESHOLD ==>
      KeptMoving(sqrt, trace + [next], labels + [marks], k, dim, |labels| + 1)
  {
    hide MovedTo, IsSqrt;
    forall t | 0 <= t < |labels|
      ensures StepMoved(sqrt, trace + [next], labels + [marks], k, dim, t) >= CONVERGENCE_THRESHOLD
    {
      assert StepMoved(sqrt, trace, labels, k, dim, t) >= CONVERGENCE_THRESHOLD;
    }
  }

  /** The final assignment changes nothing about how the run moved. */
  lemma CompleteRun(
    sqrt: real -> real, trace: seq<seq<Vector>>, labels: seq<seq<nat>>, k: nat, dim: nat, marks: seq<nat>)
    requires IsSqrt(sqrt) && |trace| == |labels| + 1 >= 2 && Shaped(trace, k, dim)
    requires KeptMoving(sqrt, trace, labels, k, dim, |labels| - 1)
    requires |labels| <= MAX_ITERATIONS
    requires |labels| == MAX_ITERATIONS || StepMoved(sqrt, trace, labels, k, dim, |labels| - 1) < CONVERGENCE_THRESHOLD
    ensures StoppedWhen(sqrt, trace, labels + [marks], k, dim)
  {
    hide MovedTo, IsSqrt;
    forall t | 0 <= t < |labels|
      ensures StepMoved(sqrt, trace, labels + [marks], k, dim, t) == StepMoved(sqrt, trace, labels, k, dim, t)
    {
    }
  }

  lemma AssignedInRange(
    sqrt: real -> real, vectors: seq<VectorRecord>, centroids: seq<Vector>, metric: Metric, assignments: seq<nat>)
    requires IsSqrt(sqrt) && Assigned(sqrt, vectors, centroids, metric, assignments)
    ensures |assignments| == |vectors| && forall i :: 0 <= i < |vectors| ==> assignments[i] < |centroids|
  {
    hide Distance;
    forall i | 0 <= i < |vectors| ensures assignments[i] < |centroids| {
      assert FirstNearest(sqrt, vectors[i].vector, centroids, metric, assignments[i]);
    }
  }

  /** One round: assign, then the mean step. */
  method Round(sqrt: real -> real, vectors: seq<VectorRecord>, centroids: seq<Vector>, dim: nat, metric: Metric)
    returns (r: Result<(seq<Vector>, real)>, ghost marks: seq<nat>)
    requires IsSqrt(sqrt) && |centroids| > 0 && |vectors| > 0
    requires SameDimension(vectors, dim) && CentroidDimension(centroids, dim)
    ensures metric.Euclidean? || metric.DotProduct? ==> r.Success?
    ensures r.Failure? ==> exists i :: 0 <= i < |vectors| && !Measurable(sqrt, vectors[i].vector, centroids, metric)
    ensures r.Success? ==>
      && Assigned(sqrt, vectors, centroids, metric, marks)
      && |r.value.0| == |centroids| && CentroidDimension(r.value.0, dim)
      && LloydStep(vectors, marks, centroids, dim, r.value.0)
      && r.value.1 == MovedTo(sqrt, marks, centroids, r.value.0, |centroids|)
  {
    marks := [];
    var nearest := AssignVectors(sqrt, vectors, centroids, metric);
    if nearest.Failure? {
      if metric.Euclidean? || metric.DotProduct? {
        CanMeasure(sqrt, vectors, centroids, metric, dim);
      }
      return Failure(nearest.error), [];
    }
    AssignedInRange(sqrt, vectors, centroids, metric, nearest.value);
    marks := nearest.value;
    var next, moved := MeanStep(sqrt, vectors, nearest.value, centroids, dim);
    r := Success((next, moved));
  }

  lemma StartRun(
    sqrt: real -> real, vectors: seq<VectorRecord>, dim: nat, metric: Metric, k: nat, centroids: seq<Vector>)
    requires IsSqrt(sqrt) && SameDimension(vectors, dim) && 0 < k <= |vectors| && centroids == Spread(vectors, k)
    ensures Shaped([centroids], k, dim) && LloydRun(sqrt, vectors, dim, metric, [centroids], [])
  {
    forall c | 0 <= c < k ensures |centroids[c]| == dim {
      SpreadIndex(c, |vectors|, k);
    }
  }

  lemma ExtendLloydRun(
    sqrt: real -> real, vectors: seq<VectorRecord>, dim: nat, metric: Metric,
    trace: seq<seq<Vector>>, labels: seq<seq<nat>>, marks: seq<nat>, next: seq<Vector>)
    requires IsSqrt(sqrt) && SameDimension(vectors, dim)
    requires LloydRun(sqrt, vectors, dim, metric, trace, labels) && |trace| == |labels| + 1
    requires Assigned(sqrt, vectors, trace[|labels|], metric, marks)
    requires LloydStep(vectors, marks, trace[|labels|], dim, next) && CentroidDimension(next, dim)
    ensures LloydRun(sqrt, vectors, dim, metric, trace + [next], labels + [marks])
  {
    hide IsSqrt, FirstNearest, Measurable, IsMean, MemberCount;
  }

  lemma CompleteLloydRun(
    sqrt: real -> real, vectors: seq<VectorRecord>, dim: nat, metric: Metric,
    trace: seq<seq<Vector>>, labels: seq<seq<nat>>, marks: seq<nat>)
    requires IsSqrt(sqrt) && SameDimension(vectors, dim)
    requires LloydRun(sqrt, vectors, dim, metric, trace, labels) && |trace| == |labels| + 1
    requires Assigned(sqrt, vectors, trace[|labels|], metric, marks)
    ensures LloydRun(sqrt, vectors, dim, metric, trace, labels + [marks])
  {
    hide IsSqrt, FirstNearest, Measurable, IsMean, MemberCount;
  }

  lemma FinishedShape(
    sqrt: real -> real, vectors: seq<VectorRecord>, dim: nat, k: nat, metric: Metric,
    trace: seq<seq<Vector>>, labels: seq<seq<nat>>, centroids: seq<Vector>, assignments: seq<nat>)
    requires IsSqrt(sqrt)
    requires FinishedRun(sqrt, vectors, dim, k, metric, trace, labels, centroids, assignments)
    ensures |centroids| == k && CentroidDimension(centroids, dim)
    ensures Assigned(sqrt, vectors, centroids, metric, assignments)
    ensures |assignments| == |vectors| && forall i :: 0 <= i < |vectors| ==> assignments[i] < k
  {
    hide FirstNearest, StoppedWhen, LloydStep;
    AssignedInRange(sqrt, vectors, centroids, metric, assignments);
  }

  /** At most 25 rounds, then the final assignment. */
  method Cluster(sqrt: real -> real, vectors: seq<VectorRecord>, dim: nat, k: nat, metric: Metric)
    returns (r: Result<(seq<Vector>, seq<nat>)>, ghost trace: seq<seq<Vector>>, ghost labels: seq<seq<nat>>)
    requires IsSqrt(sqrt) && 0 < k <= |vectors| && SameDimension(vectors, dim)
    ensures metric.Euclidean? || metric.DotProduct? ==> r.Success?
    ensures r.Failure? ==> BrokenRun(sqrt, vectors, dim, k, metric, trace, labels)
    ensures r.Success? ==>
      FinishedRun(sqrt, vectors, dim, k, metric, trace, labels, r.value.0, r.value.1)
  {
    hide IsSqrt, Distance, MemberCount, Assigned, LloydStep, LloydRun, MovedTo, StepMoved, Spread, StoppedWhen,
      Measurable;
    var centroids := InitialCentroids(vectors, k);
    trace, labels := [centroids], [];
    StartRun(sqrt, vectors, dim, metric, k, centroids);
    for iter := 0 to MAX_ITERATIONS
      invariant |trace| == |labels| + 1 == iter + 1 && trace[0] == Spread(vectors, k) && trace[iter] == centroids
      invariant Shaped(trace, k, dim)
      invariant LloydRun(sqrt, vectors, dim, metric, trace, labels)
      invariant KeptMoving(sqrt, trace, labels, k, dim, iter)
    {
      var round, marks := Round(sqrt, vectors, centroids, dim, metric);
      if round.Failure? {
        return Failure(round.error), trace, labels;
      }
      ExtendRun(sqrt, trace, labels, k, dim, round.value.0, marks);
      ExtendLloydRun(sqrt, vectors, dim, metric, trace, labels, marks, round.value.0);
      centroids := round.value.0;
      trace, labels := trace + [centroids], labels + [marks];
      if round.value.1 < CONVERGENCE_THRESHOLD {
        break;
      }
    }
    var final := AssignVectors(sqrt, vectors, centroids, metric);
    if final.Failure? {
      if metric.Euclidean? || metric.DotProduct? {
        CanMeasure(sqrt, vectors, centroids, metric, dim);
      }
      return Failure(final.error), trace, labels;
    }
    CompleteRun(sqrt, trace, labels, k, dim, final.value);
    CompleteLloydRun(sqrt, vectors, dim, metric, trace, labels, final.value);
    labels := labels + [final.value];
    r := Success((centroids, final.value));
  }

  /** A finished Euclidean K-Means run is no worse than its evenly spread start. */
  lemma BuildDescends(
    sqrt: real -> real, vectors: seq<VectorRecord>, dim: nat, k: nat,
    trace: seq<seq<Vector>>, labels: seq<seq<nat>>, centroids: seq<Vector>, assignments: seq<nat>)
    requires IsSqrt(sqrt)
    requires FinishedRun(sqrt, vectors, dim, k, Euclidean, trace, labels, centroids, assignments)
    ensures Inertia(vectors, centroids, assignments, dim) <= Inertia(vectors, Spread(vectors, k), labels[0], dim)
  {
    hide IsSqrt, FirstNearest, LloydStep, InertiaTo, Inertia;
    LloydRunDescends(sqrt, vectors, dim, trace, labels, 0, |labels| - 1);
  }

  /** A build makes at most 25 mean steps, and fewer only if the last one moved the centroids of all
      clusters with members by less than a millionth together. */
  lemma BuildStops(
    sqrt: real -> real, vectors: seq<VectorRecord>, dim: nat, k: nat, metric: Metric,
    trace: seq<seq<Vector>>, labels: seq<seq<nat>>, centroids: seq<Vector>, assignments: seq<nat>)
    requires IsSqrt(sqrt) && FinishedRun(sqrt, vectors, dim, k, metric, trace, labels, centroids, assignments)
    ensures |trace| == |labels| && 1 <= |trace| - 1 <= 25 && Shaped(trace, k, dim)
    ensures |trace| - 1 < 25 ==> StepMoved(sqrt, trace, labels, k, dim, |trace| - 2) < 0.000001
    ensures forall t :: 0 <= t < |trace| - 2 ==> StepMoved(sqrt, trace, labels, k, dim, t) >= 0.000001
  {
    hide IsSqrt, LloydRun, StepMoved, Spread;
  }

  /** A partition holds exactly the vectors whose first nearest centroid is its own. */
  lemma PartitionByNearest(
    sqrt: real -> real, vectors: seq<VectorRecord>, centroids: seq<Vector>, metric: Metric,
    assignments: seq<nat>, partitions: seq<seq<nat>>, c: nat, i: nat)
    requires IsSqrt(sqrt) && Assigned(sqrt, vectors, centroids, metric, assignments)
    requires Partitioned(partitions, assignments) && |partitions| == |centroids|
    requires c < |centroids| && i < |vectors|
    ensures i in partitions[c] <==> FirstNearest(sqrt, vectors[i].vector, centroids, metric, c)
  {
    hide IsSqrt, Distance, FirstNearest, Members;
    MemberOnce(assignments, c, |assignments|, i);
    assert i in partitions[c] <==> multiset(partitions[c])[i] > 0;
    if FirstNearest(sqrt, vectors[i].vector, centroids, metric, c) {
      FirstNearestUnique(sqrt, vectors[i].vector, centroids, metric, c, assignments[i]);
    }
  }

  /** What Build computes before it stores anything. */
  datatype Clustering = Clustering(dim: nat, centroids: seq<Vector>, assignments: seq<nat>, partitions: seq<seq<nat>>)

  ghost predicate IsClustering(sqrt: real -> real, input: seq<VectorRecord>, k: nat, metric: Metric, c: Clustering)
    requires IsSqrt(sqrt)
  {
    && WellShaped(input) && c.dim == |input[0].vector|
    && |c.centroids| == |c.partitions| == k >= 1 && CentroidDimension(c.centroids, c.dim)
    && |c.assignments| == |input| && Partitioned(c.partitions, c.assignments)
    && Assigned(sqrt, input, c.centroids, metric, c.assignments)
  }

  method Construct(sqrt: real -> real, input: seq<VectorRecord>, numPartitions: nat, metric: Metric)
    returns (r: Result<Clustering>, ghost trace: seq<seq<Vector>>, ghost labels: seq<seq<nat>>)
    requires IsSqrt(sqrt) && numPartitions >= 1
    ensures !WellShaped(input) ==> r.Failure?
    ensures WellShaped(input) && (metric.Euclidean? || metric.DotProduct?) ==> r.Success?
    ensures r.Failure? ==> BuildBroke(sqrt, input, numPartitions, metric, trace, labels)
    ensures r.Success? ==>
      var k := Min(numPartitions, |input|);
      |r.value.centroids| == k &&
      IsClustering(sqrt, input, k, metric, r.value) &&
      FinishedRun(sqrt, input, r.value.dim, k, metric, trace, labels, r.value.centroids, r.value.assignments)
  {
    hide IsSqrt, Distance, FinishedRun, BrokenRun, Assigned, Partitioned, CentroidDimension;
    trace, labels := [], [];
    var shape := CheckShape(input);
    if shape.Failure? {
      return Failure(shape.error), [], [];
    }
    var k := Min(numPartitions, |input|);
    var result, path, stamps := Cluster(sqrt, input, shape.value, k, metric);
    if result.Failure? {
      return Failure(result.error), path, stamps;
    }
    FinishedShape(sqrt, input, shape.value, k, metric, path, stamps, result.value.0, result.value.1);
    var partitions := Partition(result.value.1, k);
    trace, labels := path, stamps;
    r := Success(Clustering(shape.value, result.value.0, result.value.1, partitions));
  }

  /** Appends every vector index to the partition of its centroid. */
  method Partition(assignments: seq<nat>, k: nat) returns (partitions: seq<seq<nat>>)
    requires forall i :: 0 <= i < |assignments| ==> assignments[i] < k
    ensures |partitions| == k && Partitioned(partitions, assignments)
  {
    var lists := new seq<nat>[k](_ => []);
    for vi := 0 to |assignments|
      invariant forall c :: 0 <= c < k ==> lists[c] == Members(assignments, c, vi)
    {
      var c := assignments[vi];
      lists[c] := lists[c] + [vi];
    }
    partitions := lists[..];
  }

  /** Measures the distance of every centroid and sorts. */
  method RankCentroids(sqrt: real -> real, query: Vector, centroids: seq<Vector>, metric: Metric)
    returns (r: Result<seq<nat>>)
    requires IsSqrt(sqrt)
    ensures r.Success? <==> Measurable(sqrt, query, centroids, metric)
    ensures r.Success? ==> NearestFirst(sqrt, query, metric, centroids, r.value)
  {
    hide Distance;
    var cdist := new SearchResult[|centroids|](_ => SearchResult(0, 0.0));
    for i := 0 to |centroids|
      invariant forall j :: 0 <= j < i ==> Distance(sqrt, query, centroids[j], metric).Success?
      invariant forall j :: 0 <= j < i ==>
                  cdist[j] == SearchResult(j, Distance(sqrt, query, centroids[j], metric).value)
    {
      var d := Measure(sqrt, query, centroids[i], metric);
      if d.Failure? {
        return Failure(d.error);
      }
      cdist[i] := SearchResult(i, d.value);
    }
    ghost var unsorted := cdist[..];
    assert unsorted == Ranked(sqrt, query, metric, centroids);
    SortSlice(cdist);
    var sorted := cdist[..];
    RankingOfSorted(sqrt, query, metric, centroids, sorted);
    var order := seq(|sorted|, i requires 0 <= i < |sorted| => sorted[i].rowId);
    r := Success(order);
  }

  /** Sorting the ranked centroids yields each of them once, nearest first. */
  lemma RankingOfSorted(
    sqrt: real -> real, query: Vector, metric: Metric, centroids: seq<Vector>, sorted: seq<SearchResult>)
    requires IsSqrt(sqrt) && Measurable(sqrt, query, centroids, metric)
    requires SortedPermutation(Ranked(sqrt, query, metric, centroids), sorted)
    ensures |sorted| == |centroids|
    ensures forall i :: 0 <= i < |sorted| ==> 0 <= sorted[i].rowId < |centroids|
    ensures forall i :: 0 <= i < |sorted| ==>
      sorted[i].score == Distance(sqrt, query, centroids[sorted[i].rowId], metric).value
    ensures forall i, j :: 0 <= i < j < |sorted| ==> sorted[i].rowId != sorted[j].rowId
  {
    hide Distance;
    var ranked := Ranked(sqrt, query, metric, centroids);
    SameLength(ranked, sorted);
    forall i | 0 <= i < |sorted| ensures sorted[i] in ranked {
      assert sorted[i] in multiset(sorted);
    }
    forall i, j | 0 <= i < j < |sorted| ensures sorted[i].rowId != sorted[j].rowId {
      if sorted[i].rowId == sorted[j].rowId {
        assert sorted[i] == sorted[j];
        TwiceInSequence(sorted, i, j);
        OnceInRanked(ranked, sorted[i]);
      }
    }
  }

  lemma TwiceInSequence(s: seq<SearchResult>, i: nat, j: nat)
    requires i < j < |s| && s[i] == s[j]
    ensures multiset(s)[s[i]] >= 2
  {
    assert s == s[..j] + [s[j]] + s[j + 1..];
    assert s[i] in multiset(s[..j]) by {
      assert s[i] == s[..j][i];
    }
  }

  lemma {:induction false} OnceInRanked(s: seq<SearchResult>, x: SearchResult)
    requires forall i :: 0 <= i < |s| ==> s[i].rowId == i
    ensures multiset(s)[x] <= 1
  {
    if s != [] {
      var front, last := s[..|s| - 1], s[|s| - 1];
      assert s == front + [last];
      OnceInRanked(front, x);
      if x == last {
        assert x !in front;
        assert x !in multiset(front);
      }
    }
  }

  /** Scans one partition, after the partitions whose indices are in seen. */
  method ScanPartition(
    sqrt: real -> real, query: Vector, metric: Metric, vectors: seq<VectorRecord>,
    ids: seq<nat>, ghost seen: seq<nat>, before: seq<SearchResult>)
    returns (r: Result<seq<SearchResult>>)
    requires IsSqrt(sqrt) && forall i :: 0 <= i < |ids| ==> ids[i] < |vectors|
    requires before == Map(HitAt(sqrt, query, metric, vectors), seen)
    ensures r.Success? <==> ProbesMeasurable(sqrt, query, metric, vectors, ids)
    ensures r.Success? ==> r.value == Map(HitAt(sqrt, query, metric, vectors), seen + ids)
  {
    hide Distance;
    var results := before;
    assert seen + ids[..0] == seen;
    for j := 0 to |ids|
      invariant forall i :: 0 <= i < j ==> Distance(sqrt, query, vectors[ids[i]].vector, metric).Success?
      invariant results == Map(HitAt(sqrt, query, metric, vectors), seen + ids[..j])
    {
      var vi := ids[j];
      var d := Measure(sqrt, query, vectors[vi].vector, metric);
      if d.Failure? {
        return Failure(d.error);
      }
      results := results + [SearchResult(vectors[vi].rowId, d.value)];
      assert seen + ids[..j + 1] == seen + ids[..j] + [vi];
    }
    assert seen + ids[..|ids|] == seen + ids;
    r := Success(results);
  }

  /** Scans the first p partitions of the ranking. */
  method ScanProbes(
    sqrt: real -> real, query: Vector, metric: Metric, vectors: seq<VectorRecord>,
    partitions: seq<seq<nat>>, order: seq<nat>, p: nat)
    returns (r: Result<seq<SearchResult>>)
    requires IsSqrt(sqrt) && p <= |order|
    requires forall i :: 0 <= i < |order| ==> order[i] < |partitions|
    requires forall c, i :: 0 <= c < |partitions| && 0 <= i < |partitions[c]| ==> partitions[c][i] < |vectors|
    ensures r.Success? <==> ProbesMeasurable(sqrt, query, metric, vectors, Probed(partitions, order, p))
    ensures r.Success? ==> r.value == Map(HitAt(sqrt, query, metric, vectors), Probed(partitions, order, p))
  {
    hide Distance, HitAt;
    var results: seq<SearchResult> := [];
    for i := 0 to p
      invariant ProbesMeasurable(sqrt, query, metric, vectors, Probed(partitions, order, i))
      invariant results == Map(HitAt(sqrt, query, metric, vectors), Probed(partitions, order, i))
    {
      var ids := partitions[order[i]];
      ghost var seen := Probed(partitions, order, i);
      var scanned := ScanPartition(sqrt, query, metric, vectors, ids, seen, results);
      if scanned.Failure? {
        ghost var at: nat :| at < |ids| && Distance(sqrt, query, vectors[ids[at]].vector, metric).Failure?;
        assert Probed(partitions, order, i + 1)[|seen| + at] == ids[at];
        ProbeFails(sqrt, query, metric, vectors, partitions, order, i + 1, p, |seen| + at);
        return Failure(scanned.error);
      }
      results := scanned.value;
    }
    r := Success(results);
  }

  lemma {:induction false} ProbeFails(
    sqrt: real -> real, query: Vector, metric: Metric, vectors: seq<VectorRecord>,
    partitions: seq<seq<nat>>, order: seq<nat>, q: nat, p: nat, at: nat)
    requires IsSqrt(sqrt) && q <= p <= |order| && forall i :: 0 <= i < |order| ==> order[i] < |partitions|
    requires at < |Probed(partitions, order, q)|
    requires Probed(partitions, order, q)[at] < |vectors|
    requires Distance(sqrt, query, vectors[Probed(partitions, order, q)[at]].vector, metric).Failure?
    ensures !ProbesMeasurable(sqrt, query, metric, vectors, Probed(partitions, order, p))
    decreases p - q
  {
    hide Distance;
    if q < p {
      assert Probed(partitions, order, q + 1)[at] == Probed(partitions, order, q)[at];
      ProbeFails(sqrt, query, metric, vectors, partitions, order, q + 1, p, at);
    } else {
      var failing := Probed(partitions, order, p)[at];
    }
  }
}
