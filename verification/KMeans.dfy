/** K-Means clustering: nearest-centroid assignment, the mean step with re-seeding of
    empty clusters, and Lloyd's descent argument. */
module KMeans {
  import opened Common
  import opened Vectors
  import opened Metrics

  datatype VectorRecord = VectorRecord(rowId: int, vector: Vector)

  /** The running minimum of a scan; math.MaxFloat64 is above every distance. */
  datatype Bound = MaxFloat64 | Best(d: real)

  predicate Under(d: real, bound: Bound) {
    bound.MaxFloat64? || d < bound.d
  }

  ghost predicate SameDimension(vectors: seq<VectorRecord>, dim: nat) {
    forall i :: 0 <= i < |vectors| ==> |vectors[i].vector| == dim
  }

  ghost predicate CentroidDimension(centroids: seq<Vector>, dim: nat) {
    forall c :: 0 <= c < |centroids| ==> |centroids[c]| == dim
  }

  // ---------- Assignment ----------

  ghost predicate Measurable(sqrt: real -> real, v: Vector, centroids: seq<Vector>, metric: Metric)
    requires IsSqrt(sqrt)
  {
    forall c :: 0 <= c < |centroids| ==> Distance(sqrt, v, centroids[c], metric).Success?
  }

  /** c is the first of the centroids nearest to v. */
  ghost predicate FirstNearest(sqrt: real -> real, v: Vector, centroids: seq<Vector>, metric: Metric, c: nat)
    requires IsSqrt(sqrt)
  {
    && c < |centroids|
    && Measurable(sqrt, v, centroids, metric)
    && forall j :: 0 <= j < |centroids| ==>
         var dc, dj := Distance(sqrt, v, centroids[c], metric), Distance(sqrt, v, centroids[j], metric);
         dc.value <= dj.value && (j < c ==> dc.value < dj.value)
  }

  ghost predicate Assigned(
    sqrt: real -> real, vectors: seq<VectorRecord>, centroids: seq<Vector>, metric: Metric, assignments: seq<nat>)
    requires IsSqrt(sqrt)
  {
    |assignments| == |vectors| &&
    forall i :: 0 <= i < |vectors| ==>
      FirstNearest(sqrt, vectors[i].vector, centroids, metric, assignments[i])
  }

  lemma FirstNearestUnique(
    sqrt: real -> real, v: Vector, centroids: seq<Vector>, metric: Metric, c: nat, c': nat)
    requires IsSqrt(sqrt)
    requires FirstNearest(sqrt, v, centroids, metric, c) && FirstNearest(sqrt, v, centroids, metric, c')
    ensures c == c'
  {
    var near, near' := centroids[c], centroids[c'];
  }

  lemma NearestIsMeasurable(sqrt: real -> real, v: Vector, centroids: seq<Vector>, metric: Metric, c: nat)
    requires IsSqrt(sqrt) && FirstNearest(sqrt, v, centroids, metric, c)
    ensures Measurable(sqrt, v, centroids, metric)
  {
  }

  /** The inner loop of assignVectors. */
  method NearestCentroid(sqrt: real -> real, v: Vector, centroids: seq<Vector>, metric: Metric)
    returns (r: Result<nat>)
    requires IsSqrt(sqrt) && |centroids| > 0
    ensures r.Success? <==> Measurable(sqrt, v, centroids, metric)
    ensures r.Success? ==> FirstNearest(sqrt, v, centroids, metric, r.value)
  {
    var bestC, bestD := 0, MaxFloat64;
    for ci := 0 to |centroids|
      invariant forall j :: 0 <= j < ci ==> Distance(sqrt, v, centroids[j], metric).Success?
      invariant ci == 0 ==> bestC == 0 && bestD == MaxFloat64
      invariant ci > 0 ==> bestC < ci && bestD == Best(Distance(sqrt, v, centroids[bestC], metric).value)
      invariant forall j :: 0 <= j < ci ==>
                  bestD.d <= Distance(sqrt, v, centroids[j], metric).value &&
                  (j < bestC ==> bestD.d < Distance(sqrt, v, centroids[j], metric).value)
    {
      var d := Measure(sqrt, v, centroids[ci], metric);
      if d.Failure? {
        return Failure(d.error);
      }
      if Under(d.value, bestD) {
        bestD := Best(d.value);
        bestC := ci;
      }
    }
    return Success(bestC);
  }

  method AssignVectors(sqrt: real -> real, vectors: seq<VectorRecord>, centroids: seq<Vector>, metric: Metric)
    returns (r: Result<seq<nat>>)
    requires IsSqrt(sqrt) && |centroids| > 0
    ensures r.Success? <==> forall i :: 0 <= i < |vectors| ==> Measurable(sqrt, vectors[i].vector, centroids, metric)
    ensures r.Success? ==> Assigned(sqrt, vectors, centroids, metric, r.value)
  {
    hide IsSqrt, Distance, FirstNearest, Measurable;
    var assignments := new nat[|vectors|](_ => 0);
    for vi := 0 to |vectors|
      invariant forall i :: 0 <= i < vi ==>
                  FirstNearest(sqrt, vectors[i].vector, centroids, metric, assignments[i])
    {
      var best := NearestCentroid(sqrt, vectors[vi].vector, centroids, metric);
      if best.Failure? {
        assert !Measurable(sqrt, vectors[vi].vector, centroids, metric);
        return Failure(best.error);
      }
      assignments[vi] := best.value;
    }
    forall i | 0 <= i < |vectors| ensures Measurable(sqrt, vectors[i].vector, centroids, metric) {
      NearestIsMeasurable(sqrt, vectors[i].vector, centroids, metric, assignments[i]);
    }
    return Success(assignments[..]);
  }

  // ---------- The mean step ----------

  /** How many of the first n vectors are assigned to cluster c. */
  function MemberCount(assignments: seq<nat>, c: nat, n: nat): nat
    requires n <= |assignments|
  {
    if n == 0 then 0 else MemberCount(assignments, c, n - 1) + if assignments[n - 1] == c then 1 else 0
  }

  /** The sum of component d over the first n vectors, members of cluster c only. */
  function MemberSum(vectors: seq<VectorRecord>, assignments: seq<nat>, c: nat, d: nat, n: nat): real
    requires n <= |assignments| == |vectors|
    requires forall i :: 0 <= i < |vectors| ==> d < |vectors[i].vector|
  {
    if n == 0 then 0.0
    else MemberSum(vectors, assignments, c, d, n - 1) +
         if assignments[n - 1] == c then vectors[n - 1].vector[d] else 0.0
  }

  /** mean is the mean of the members of cluster c, which has members. */
  ghost predicate IsMean(vectors: seq<VectorRecord>, assignments: seq<nat>, c: nat, dim: nat, mean: Vector)
    requires |assignments| == |vectors| && SameDimension(vectors, dim)
  {
    var n := |vectors|;
    && |mean| == dim
    && MemberCount(assignments, c, n) > 0
    && forall d :: 0 <= d < dim ==>
         MemberCount(assignments, c, n) as real * mean[d] == MemberSum(vectors, assignments, c, d, n)
  }

  /** One K-Means iteration: means for the clusters with members, any data vector for the others. */
  ghost predicate LloydStep(
    vectors: seq<VectorRecord>, assignments: seq<nat>, centroids: seq<Vector>, dim: nat, next: seq<Vector>)
    requires |assignments| == |vectors| && SameDimension(vectors, dim)
  {
    |next| == |centroids| &&
    forall c :: 0 <= c < |centroids| ==>
      if MemberCount(assignments, c, |vectors|) == 0
      then exists r :: 0 <= r < |vectors| && next[c] == vectors[r].vector
      else IsMean(vectors, assignments, c, dim, next[c])
  }

  // ---------- Lloyd's descent ----------

  /** The sum of squared distances of the first n vectors to their centroids. */
  function InertiaTo(vectors: seq<VectorRecord>, centroids: seq<Vector>, assignments: seq<nat>, dim: nat, n: nat): real
    requires n <= |assignments| == |vectors|
    requires SameDimension(vectors, dim) && CentroidDimension(centroids, dim)
    requires forall i :: 0 <= i < n ==> assignments[i] < |centroids|
  {
    if n == 0 then 0.0
    else InertiaTo(vectors, centroids, assignments, dim, n - 1) +
         Squared(vectors[n - 1].vector, centroids[assignments[n - 1]])
  }

  function Inertia(vectors: seq<VectorRecord>, centroids: seq<Vector>, assignments: seq<nat>, dim: nat): real
    requires |assignments| == |vectors|
    requires SameDimension(vectors, dim) && CentroidDimension(centroids, dim)
    requires forall i :: 0 <= i < |vectors| ==> assignments[i] < |centroids|
  {
    InertiaTo(vectors, centroids, assignments, dim, |vectors|)
  }

  /** The share of cluster c in the inertia if its centroid were y. */
  function MemberCost(vectors: seq<VectorRecord>, assignments: seq<nat>, c: nat, y: Vector, n: nat): real
    requires n <= |assignments| == |vectors| && SameDimension(vectors, |y|)
  {
    if n == 0 then 0.0
    else MemberCost(vectors, assignments, c, y, n - 1) +
         if assignments[n - 1] == c then Squared(vectors[n - 1].vector, y) else 0.0
  }

  function CrossAt(v: Vector, m: Vector, y: Vector, d: nat): real
    requires d < |v| && d < |m| && d < |y|
  {
    (v[d] - m[d]) * (m[d] - y[d])
  }

  function CrossTo(v: Vector, m: Vector, y: Vector, n: nat): real
    requires n <= |v| && n <= |m| && n <= |y|
  {
    if n == 0 then 0.0 else CrossTo(v, m, y, n - 1) + CrossAt(v, m, y, n - 1)
  }

  lemma {:induction false} SquaredThroughMean(v: Vector, m: Vector, y: Vector, n: nat)
    requires n <= |v| && n <= |m| && n <= |y|
    ensures SquaredTo(v, y, n) == SquaredTo(v, m, n) + SquaredTo(m, y, n) + 2.0 * CrossTo(v, m, y, n)
  {
    if n > 0 {
      SquaredThroughMean(v, m, y, n - 1);
      var p, q := v[n - 1] - m[n - 1], m[n - 1] - y[n - 1];
      assert v[n - 1] - y[n - 1] == p + q;
      assert (p + q) * (p + q) == p * p + q * q + 2.0 * (p * q);
    }
  }

  /** (sum of members - count * m[d]) * (m[d] - y[d]), for the members among the first n vectors. */
  function DeviationAt(
    vectors: seq<VectorRecord>, assignments: seq<nat>, c: nat, m: Vector, y: Vector, n: nat, d: nat): real
    requires n <= |assignments| == |vectors| && SameDimension(vectors, |m|) && d < |m| == |y|
  {
    (MemberSum(vectors, assignments, c, d, n) - MemberCount(assignments, c, n) as real * m[d]) * (m[d] - y[d])
  }

  function DeviationTo(
    vectors: seq<VectorRecord>, assignments: seq<nat>, c: nat, m: Vector, y: Vector, n: nat, k: nat): real
    requires n <= |assignments| == |vectors| && SameDimension(vectors, |m|) && k <= |m| == |y|
  {
    if k == 0 then 0.0
    else DeviationTo(vectors, assignments, c, m, y, n, k - 1) +
         DeviationAt(vectors, assignments, c, m, y, n, k - 1)
  }

  lemma {:induction false} DeviationOfNone(
    vectors: seq<VectorRecord>, assignments: seq<nat>, c: nat, m: Vector, y: Vector, k: nat)
    requires |assignments| == |vectors| && SameDimension(vectors, |m|) && k <= |m| == |y|
    ensures DeviationTo(vectors, assignments, c, m, y, 0, k) == 0.0
  {
    if k > 0 {
      DeviationOfNone(vectors, assignments, c, m, y, k - 1);
    }
  }

  lemma DeviationAtGrows(
    vectors: seq<VectorRecord>, assignments: seq<nat>, c: nat, m: Vector, y: Vector, n: nat, d: nat)
    requires 0 < n <= |assignments| == |vectors| && SameDimension(vectors, |m|) && d < |m| == |y|
    ensures DeviationAt(vectors, assignments, c, m, y, n, d) ==
            DeviationAt(vectors, assignments, c, m, y, n - 1, d) +
            if assignments[n - 1] == c then CrossAt(vectors[n - 1].vector, m, y, d) else 0.0
  {
    if assignments[n - 1] == c {
      DeviationTerm(MemberSum(vectors, assignments, c, d, n - 1), vectors[n - 1].vector[d],
                    MemberCount(assignments, c, n - 1) as real, m[d], m[d] - y[d]);
    }
  }

  lemma DeviationTerm(sum: real, v: real, count: real, m: real, w: real)
    ensures (sum + v - (count + 1.0) * m) * w == (sum - count * m) * w + (v - m) * w
  {
  }

  lemma {:induction false} DeviationGrows(
    vectors: seq<VectorRecord>, assignments: seq<nat>, c: nat, m: Vector, y: Vector, n: nat, k: nat)
    requires 0 < n <= |assignments| == |vectors| && SameDimension(vectors, |m|) && k <= |m| == |y|
    ensures DeviationTo(vectors, assignments, c, m, y, n, k) ==
            DeviationTo(vectors, assignments, c, m, y, n - 1, k) +
            if assignments[n - 1] == c then CrossTo(vectors[n - 1].vector, m, y, k) else 0.0
  {
    hide DeviationAt, CrossAt;
    if k > 0 {
      DeviationGrows(vectors, assignments, c, m, y, n, k - 1);
      DeviationAtGrows(vectors, assignments, c, m, y, n, k - 1);
    }
  }

  lemma {:induction false} DeviationOfMean(
    vectors: seq<VectorRecord>, assignments: seq<nat>, c: nat, m: Vector, y: Vector, k: nat)
    requires |assignments| == |vectors| && SameDimension(vectors, |m|) && k <= |m| == |y|
    requires IsMean(vectors, assignments, c, |m|, m)
    ensures DeviationTo(vectors, assignments, c, m, y, |vectors|, k) == 0.0
  {
    if k > 0 {
      DeviationOfMean(vectors, assignments, c, m, y, k - 1);
    }
  }

  lemma ParallelAxisTerm(costY: real, costM: real, count: real, spread: real, dev: real, toM: real, cross: real)
    requires costY == costM + count * spread + 2.0 * dev
    ensures costY + (toM + spread + 2.0 * cross) ==
            (costM + toM) + (count + 1.0) * spread + 2.0 * (dev + cross)
  {
    assert (count + 1.0) * spread == count * spread + spread;
  }

  /** What moving a centroid from m to y costs its cluster, before it is known that m is the mean. */
  ghost predicate ShiftCost(
    vectors: seq<VectorRecord>, assignments: seq<nat>, c: nat, m: Vector, y: Vector, n: nat)
    requires n <= |assignments| == |vectors| && SameDimension(vectors, |m|) && |m| == |y|
  {
    MemberCost(vectors, assignments, c, y, n) ==
    MemberCost(vectors, assignments, c, m, n) +
    MemberCount(assignments, c, n) as real * Squared(m, y) +
    2.0 * DeviationTo(vectors, assignments, c, m, y, n, |m|)
  }

  lemma ParallelAxisMember(
    vectors: seq<VectorRecord>, assignments: seq<nat>, c: nat, m: Vector, y: Vector, n: nat)
    requires 0 < n <= |assignments| == |vectors| && SameDimension(vectors, |m|) && |m| == |y|
    requires assignments[n - 1] == c
    requires ShiftCost(vectors, assignments, c, m, y, n - 1)
    ensures ShiftCost(vectors, assignments, c, m, y, n)
  {
    hide DeviationTo, DeviationAt, CrossTo, CrossAt, SquaredTo, MemberSum;
    var v := vectors[n - 1].vector;
    DeviationGrows(vectors, assignments, c, m, y, n, |m|);
    SquaredThroughMean(v, m, y, |m|);
    ParallelAxisTerm(
      MemberCost(vectors, assignments, c, y, n - 1), MemberCost(vectors, assignments, c, m, n - 1),
      MemberCount(assignments, c, n - 1) as real, Squared(m, y),
      DeviationTo(vectors, assignments, c, m, y, n - 1, |m|), Squared(v, m), CrossTo(v, m, y, |m|));
    assert MemberCount(assignments, c, n) as real == MemberCount(assignments, c, n - 1) as real + 1.0;
  }

  /** Moving cluster c's centroid from m to y: the parallel axis identity. */
  lemma {:induction false} ParallelAxis(
    vectors: seq<VectorRecord>, assignments: seq<nat>, c: nat, m: Vector, y: Vector, n: nat)
    requires n <= |assignments| == |vectors| && SameDimension(vectors, |m|) && |m| == |y|
    ensures ShiftCost(vectors, assignments, c, m, y, n)
  {
    if n == 0 {
      DeviationOfNone(vectors, assignments, c, m, y, |m|);
    } else {
      ParallelAxis(vectors, assignments, c, m, y, n - 1);
      if assignments[n - 1] == c {
        ParallelAxisMember(vectors, assignments, c, m, y, n);
      } else {
        DeviationGrows(vectors, assignments, c, m, y, n, |m|);
      }
    }
  }

  /** No point serves the members of a cluster better than their mean. */
  lemma MeanIsOptimal(
    vectors: seq<VectorRecord>, assignments: seq<nat>, c: nat, mean: Vector, y: Vector)
    requires |assignments| == |vectors| && SameDimension(vectors, |mean|) && |mean| == |y|
    requires IsMean(vectors, assignments, c, |mean|, mean)
    ensures MemberCost(vectors, assignments, c, mean, |vectors|)
         <= MemberCost(vectors, assignments, c, y, |vectors|)
  {
    ParallelAxis(vectors, assignments, c, mean, y, |vectors|);
    DeviationOfMean(vectors, assignments, c, mean, y, |mean|);
    var count, spread := MemberCount(assignments, c, |vectors|) as real, Squared(mean, y);
    assert count * spread >= 0.0;
  }

  lemma {:induction false} CostOfNoMembers(
    vectors: seq<VectorRecord>, assignments: seq<nat>, c: nat, y: Vector, n: nat)
    requires n <= |assignments| == |vectors| && SameDimension(vectors, |y|)
    requires MemberCount(assignments, c, n) == 0
    ensures MemberCost(vectors, assignments, c, y, n) == 0.0
  {
    if n > 0 {
      CostOfNoMembers(vectors, assignments, c, y, n - 1);
    }
  }

  /** Replacing one centroid changes the inertia by the change of its cluster's share. */
  lemma {:induction false} ReplaceCentroid(
    vectors: seq<VectorRecord>, centroids: seq<Vector>, assignments: seq<nat>, dim: nat, c: nat, y: Vector, n: nat)
    requires n <= |assignments| == |vectors|
    requires SameDimension(vectors, dim) && CentroidDimension(centroids, dim)
    requires forall i :: 0 <= i < n ==> assignments[i] < |centroids|
    requires c < |centroids| && |y| == dim
    ensures InertiaTo(vectors, centroids[c := y], assignments, dim, n) -
            InertiaTo(vectors, centroids, assignments, dim, n) ==
            MemberCost(vectors, assignments, c, y, n) - MemberCost(vectors, assignments, c, centroids[c], n)
  {
    if n > 0 {
      ReplaceCentroid(vectors, centroids, assignments, dim, c, y, n - 1);
    }
  }

  /** The centroids while the mean step is at cluster k: new ones before k, old ones from k on. */
  function HalfReplaced(centroids: seq<Vector>, next: seq<Vector>, k: nat): seq<Vector>
    requires k <= |centroids| == |next|
  {
    next[..k] + centroids[k..]
  }

  /** The mean step never increases the inertia under the assignments it started from. */
  lemma {:induction false} MeanStepDescends(
    vectors: seq<VectorRecord>, centroids: seq<Vector>, assignments: seq<nat>, dim: nat, next: seq<Vector>, k: nat)
    requires |assignments| == |vectors|
    requires SameDimension(vectors, dim) && CentroidDimension(centroids, dim)
    requires forall i :: 0 <= i < |vectors| ==> assignments[i] < |centroids|
    requires LloydStep(vectors, assignments, centroids, dim, next) && CentroidDimension(next, dim)
    requires k <= |centroids|
    ensures Inertia(vectors, HalfReplaced(centroids, next, k), assignments, dim)
         <= Inertia(vectors, centroids, assignments, dim)
  {
    if k == 0 {
      assert HalfReplaced(centroids, next, 0) == centroids;
    } else {
      MeanStepDescends(vectors, centroids, assignments, dim, next, k - 1);
      var before := HalfReplaced(centroids, next, k - 1);
      var c := k - 1;
      assert HalfReplaced(centroids, next, k) == before[c := next[c]];
      ReplaceCentroid(vectors, before, assignments, dim, c, next[c], |vectors|);
      if MemberCount(assignments, c, |vectors|) == 0 {
        CostOfNoMembers(vectors, assignments, c, next[c], |vectors|);
        CostOfNoMembers(vectors, assignments, c, before[c], |vectors|);
      } else {
        MeanIsOptimal(vectors, assignments, c, next[c], before[c]);
      }
    }
  }

  /** Under the Euclidean metric, assigning to the nearest centroid minimises the inertia. */
  lemma {:induction false} NearestIsOptimal(
    sqrt: real -> real, vectors: seq<VectorRecord>, centroids: seq<Vector>, dim: nat,
    nearest: seq<nat>, other: seq<nat>, n: nat)
    requires IsSqrt(sqrt) && n <= |vectors| == |nearest| == |other|
    requires SameDimension(vectors, dim) && CentroidDimension(centroids, dim)
    requires Assigned(sqrt, vectors, centroids, Euclidean, nearest)
    requires forall i :: 0 <= i < |vectors| ==> other[i] < |centroids|
    ensures InertiaTo(vectors, centroids, nearest, dim, n) <= InertiaTo(vectors, centroids, other, dim, n)
  {
    if n > 0 {
      NearestIsOptimal(sqrt, vectors, centroids, dim, nearest, other, n - 1);
      var v, near, far := vectors[n - 1].vector, centroids[nearest[n - 1]], centroids[other[n - 1]];
      assert FirstNearest(sqrt, v, centroids, Euclidean, nearest[n - 1]);
      EuclideanOrder(sqrt, v, near, far);
    }
  }

  /** Lloyd's descent, one iteration: mean step, re-seeding of empty clusters, re-assignment. */
  lemma LloydDescent(
    sqrt: real -> real, vectors: seq<VectorRecord>, dim: nat,
    centroids: seq<Vector>, assignments: seq<nat>, next: seq<Vector>, nextAssignments: seq<nat>)
    requires IsSqrt(sqrt) && SameDimension(vectors, dim) && CentroidDimension(centroids, dim)
    requires Assigned(sqrt, vectors, centroids, Euclidean, assignments)
    requires LloydStep(vectors, assignments, centroids, dim, next)
    requires Assigned(sqrt, vectors, next, Euclidean, nextAssignments)
    ensures CentroidDimension(next, dim)
    ensures Inertia(vectors, next, nextAssignments, dim) <= Inertia(vectors, centroids, assignments, dim)
  {
    MeanStepDescends(vectors, centroids, assignments, dim, next, |centroids|);
    assert HalfReplaced(centroids, next, |centroids|) == next;
    NearestIsOptimal(sqrt, vectors, next, dim, nextAssignments, assignments, |vectors|);
  }

  // ---------- Whole runs ----------

  /** A record of K-Means: the centroids before each iteration and at the end, and the
      assignments to each of them. While K-Means runs, the last centroids are not assigned yet. */
  ghost predicate LloydRun(
    sqrt: real -> real, vectors: seq<VectorRecord>, dim: nat, metric: Metric,
    centroids: seq<seq<Vector>>, assignments: seq<seq<nat>>)
    requires IsSqrt(sqrt) && SameDimension(vectors, dim)
  {
    && |assignments| <= |centroids| <= |assignments| + 1
    && (forall t :: 0 <= t < |centroids| ==> CentroidDimension(centroids[t], dim))
    && (forall t :: 0 <= t < |assignments| ==> Assigned(sqrt, vectors, centroids[t], metric, assignments[t]))
    && (forall t :: 0 <= t < |centroids| - 1 ==>
          LloydStep(vectors, assignments[t], centroids[t], dim, centroids[t + 1]))
  }

  lemma LloydRunStepDescends(
    sqrt: real -> real, vectors: seq<VectorRecord>, dim: nat,
    centroids: seq<seq<Vector>>, assignments: seq<seq<nat>>, t: nat)
    requires IsSqrt(sqrt) && SameDimension(vectors, dim)
    requires LloydRun(sqrt, vectors, dim, Euclidean, centroids, assignments)
    requires t + 1 < |assignments|
    ensures Inertia(vectors, centroids[t + 1], assignments[t + 1], dim)
         <= Inertia(vectors, centroids[t], assignments[t], dim)
  {
    LloydDescent(sqrt, vectors, dim, centroids[t], assignments[t], centroids[t + 1], assignments[t + 1]);
  }

  lemma {:induction false} NonIncreasing(costs: seq<real>, s: nat, t: nat)
    requires forall i :: 0 <= i < |costs| - 1 ==> costs[i + 1] <= costs[i]
    requires s <= t < |costs|
    ensures costs[t] <= costs[s]
  {
    if s < t {
      NonIncreasing(costs, s, t - 1);
      assert costs[t - 1 + 1] <= costs[t - 1];
    }
  }

  /** The inertia never increases from any point of a run to any later one. */
  lemma LloydRunDescends(
    sqrt: real -> real, vectors: seq<VectorRecord>, dim: nat,
    centroids: seq<seq<Vector>>, assignments: seq<seq<nat>>, s: nat, t: nat)
    requires IsSqrt(sqrt) && SameDimension(vectors, dim)
    requires LloydRun(sqrt, vectors, dim, Euclidean, centroids, assignments)
    requires s <= t < |assignments|
    ensures Inertia(vectors, centroids[t], assignments[t], dim)
         <= Inertia(vectors, centroids[s], assignments[s], dim)
  {
    hide InertiaTo, Inertia;
    var costs := seq(|assignments|, i requires 0 <= i < |assignments| =>
      assert Assigned(sqrt, vectors, centroids[i], Euclidean, assignments[i]);
      Inertia(vectors, centroids[i], assignments[i], dim));
    forall i | 0 <= i < |costs| - 1 ensures costs[i + 1] <= costs[i] {
      LloydRunStepDescends(sqrt, vectors, dim, centroids, assignments, i);
    }
    NonIncreasing(costs, s, t);
  }

  // ---------- The iteration as it is computed ----------

  /** The total distance the first k centroids of clusters with members move in a step. */
  ghost function MovedTo(
    sqrt: real -> real, assignments: seq<nat>, centroids: seq<Vector>, next: seq<Vector>, k: nat): real
    requires IsSqrt(sqrt) && k <= |centroids| && k <= |next|
    requires forall c :: 0 <= c < k ==> |centroids[c]| == |next[c]|
  {
    if k == 0 then 0.0
    else MovedTo(sqrt, assignments, centroids, next, k - 1) +
         if MemberCount(assignments, k - 1, |assignments|) == 0 then 0.0
         else sqrt(Squared(centroids[k - 1], next[k - 1]))
  }

  /** Component sums and sizes of all clusters over the first n vectors. */
  ghost predicate Accumulated(
    vectors: seq<VectorRecord>, assignments: seq<nat>, dim: nat, n: nat, sums: seq<Vector>, counts: seq<nat>)
    requires n <= |assignments| == |vectors| && SameDimension(vectors, dim)
  {
    && |sums| == |counts|
    && (forall c :: 0 <= c < |counts| ==> counts[c] == MemberCount(assignments, c, n))
    && (forall c :: 0 <= c < |sums| ==> |sums[c]| == dim)
    && (forall c, d :: 0 <= c < |sums| && 0 <= d < dim ==> sums[c][d] == MemberSum(vectors, assignments, c, d, n))
  }

  /** Adds vector vi, component by component, to the sum of its cluster. */
  method AddToCluster(
    vectors: seq<VectorRecord>, assignments: seq<nat>, dim: nat, vi: nat, sums: array<Vector>, counts: array<nat>)
    requires vi < |assignments| == |vectors| && SameDimension(vectors, dim)
    requires assignments[vi] < sums.Length && sums.Length == counts.Length
    requires Accumulated(vectors, assignments, dim, vi, sums[..], counts[..])
    modifies sums, counts
    ensures Accumulated(vectors, assignments, dim, vi + 1, sums[..], counts[..])
  {
    var c := assignments[vi];
    for d := 0 to dim
      invariant counts[..] == old(counts[..])
      invariant forall e :: 0 <= e < sums.Length && e != c ==> sums[e] == old(sums[e])
      invariant |sums[c]| == dim
      invariant forall e :: 0 <= e < dim ==>
                  sums[c][e] == old(sums[c])[e] + if e < d then vectors[vi].vector[e] else 0.0
    {
      sums[c] := sums[c][d := sums[c][d] + vectors[vi].vector[d]];
    }
    counts[c] := counts[c] + 1;
  }

  method SumClusters(vectors: seq<VectorRecord>, assignments: seq<nat>, dim: nat, k: nat)
    returns (sums: array<Vector>, counts: array<nat>)
    requires |assignments| == |vectors| && SameDimension(vectors, dim)
    requires forall i :: 0 <= i < |vectors| ==> assignments[i] < k
    ensures fresh(sums) && fresh(counts) && sums.Length == counts.Length == k
    ensures Accumulated(vectors, assignments, dim, |vectors|, sums[..], counts[..])
  {
    var zero: Vector := seq(dim, _ => 0.0);
    sums := new Vector[k](_ => zero);
    counts := new nat[k](_ => 0);
    for vi := 0 to |vectors|
      invariant Accumulated(vectors, assignments, dim, vi, sums[..], counts[..])
    {
      AddToCluster(vectors, assignments, dim, vi, sums, counts);
    }
  }

  /** Divides the sum of a cluster by its size. */
  method DivideByCount(
    vectors: seq<VectorRecord>, assignments: seq<nat>, dim: nat, c: nat, sum: Vector, count: nat)
    returns (mean: Vector)
    requires |assignments| == |vectors| && SameDimension(vectors, dim)
    requires |sum| == dim && count == MemberCount(assignments, c, |vectors|) && count > 0
    requires forall d :: 0 <= d < dim ==> sum[d] == MemberSum(vectors, assignments, c, d, |vectors|)
    ensures IsMean(vectors, assignments, c, dim, mean)
  {
    mean := sum;
    for d := 0 to dim
      invariant |mean| == dim
      invariant forall e :: 0 <= e < dim ==>
                  if e < d then count as real * mean[e] == sum[e] else mean[e] == sum[e]
    {
      var quotient := mean[d] / count as real;
      assert count as real * quotient == sum[d];
      mean := mean[d := quotient];
    }
  }

  /** The new centroid of one cluster and how far it moved from the old one. An empty cluster
      gets some data vector and does not count as moved. */
  method NewCentroid(
    sqrt: real -> real, vectors: seq<VectorRecord>, assignments: seq<nat>, dim: nat, c: nat,
    current: Vector, sum: Vector, count: nat)
    returns (y: Vector, moved: real)
    requires IsSqrt(sqrt) && |vectors| > 0 && |assignments| == |vectors| && SameDimension(vectors, dim)
    requires |current| == |sum| == dim && count == MemberCount(assignments, c, |vectors|)
    requires forall d :: 0 <= d < dim ==> sum[d] == MemberSum(vectors, assignments, c, d, |vectors|)
    ensures |y| == dim
    ensures if count == 0 then moved == 0.0 && exists r :: 0 <= r < |vectors| && y == vectors[r].vector
            else moved == sqrt(Squared(current, y)) && IsMean(vectors, assignments, c, dim, y)
  {
    hide MemberSum, MemberCount, SquaredTo;
    if count == 0 {
      var pick: nat :| pick < |vectors|;
      y, moved := vectors[pick].vector, 0.0;
    } else {
      y := DivideByCount(vectors, assignments, dim, c, sum, count);
      var md := Measure(sqrt, current, y, Euclidean);
      moved := md.value;
    }
  }

  /** The mean step of one iteration. */
  method MeanStep(
    sqrt: real -> real, vectors: seq<VectorRecord>, assignments: seq<nat>, centroids: seq<Vector>, dim: nat)
    returns (next: seq<Vector>, moved: real)
    requires IsSqrt(sqrt) && |vectors| > 0 && |assignments| == |vectors|
    requires SameDimension(vectors, dim) && CentroidDimension(centroids, dim)
    requires forall i :: 0 <= i < |vectors| ==> assignments[i] < |centroids|
    ensures LloydStep(vectors, assignments, centroids, dim, next) && CentroidDimension(next, dim)
    ensures moved == MovedTo(sqrt, assignments, centroids, next, |centroids|)
  {
    hide IsSqrt, MemberSum, MemberCount, SquaredTo, IsMean;
    var sums, counts := SumClusters(vectors, assignments, dim, |centroids|);
    ghost var allSums, allCounts := sums[..], counts[..];
    next, moved := [], 0.0;
    for ci := 0 to |centroids|
      invariant sums[..] == allSums && counts[..] == allCounts
      invariant |next| == ci && CentroidDimension(next, dim)
      invariant forall c :: 0 <= c < ci ==>
                  if MemberCount(assignments, c, |vectors|) == 0
                  then exists r :: 0 <= r < |vectors| && next[c] == vectors[r].vector
                  else IsMean(vectors, assignments, c, dim, next[c])
      invariant moved == MovedTo(sqrt, assignments, centroids, next, ci)
    {
      ghost var before := next;
      assert sums[ci] == allSums[ci] && counts[ci] == allCounts[ci];
      var y, md := NewCentroid(sqrt, vectors, assignments, dim, ci, centroids[ci], sums[ci], counts[ci]);
      next, moved := next + [y], moved + md;
      MovedToPrefix(sqrt, assignments, centroids, before, next, ci);
    }
  }

  lemma {:induction false} MovedToPrefix(
    sqrt: real -> real, assignments: seq<nat>, centroids: seq<Vector>, a: seq<Vector>, b: seq<Vector>, k: nat)
    requires IsSqrt(sqrt) && k <= |centroids| && k <= |a| && k <= |b| && a[..k] == b[..k]
    requires forall c :: 0 <= c < k ==> |centroids[c]| == |a[c]| == |b[c]|
    ensures MovedTo(sqrt, assignments, centroids, a, k) == MovedTo(sqrt, assignments, centroids, b, k)
  {
    if k > 0 {
      assert a[..k][k - 1] == b[..k][k - 1];
      assert a[..k - 1] == a[..k][..k - 1] == b[..k - 1];
      MovedToPrefix(sqrt, assignments, centroids, a, b, k - 1);
    }
  }
}
