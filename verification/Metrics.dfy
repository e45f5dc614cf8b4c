/** The distance metrics of vector search, over reals. */
module Metrics {
  import opened Common
  import opened Vectors

  datatype Metric = Cosine | Euclidean | DotProduct | Unknown(code: int)

  /** What is assumed of math.Sqrt: the non-negative square root. */
  ghost predicate IsSqrt(sqrt: real -> real) {
    forall x: real :: x >= 0.0 ==> sqrt(x) >= 0.0 && sqrt(x) * sqrt(x) == x
  }

  lemma SqrtPositive(sqrt: real -> real, x: real)
    requires IsSqrt(sqrt) && x > 0.0
    ensures sqrt(x) > 0.0 && sqrt(x) * sqrt(x) == x
  {
    assert sqrt(x) != 0.0;
  }

  /** The cosine distance from a dot product and two squared norms. */
  function CosineScore(sqrt: real -> real, dot: real, normA: real, normB: real): Result<real>
    requires IsSqrt(sqrt) && normA >= 0.0 && normB >= 0.0
  {
    if normA == 0.0 || normB == 0.0 then Failure("zero-norm vector in cosine distance")
    else
      SqrtPositive(sqrt, normA);
      SqrtPositive(sqrt, normB);
      ProductPositive(sqrt(normA), sqrt(normB));
      Success(1.0 - dot / (sqrt(normA) * sqrt(normB)))
  }

  lemma ProductPositive(x: real, y: real)
    requires x > 0.0 && y > 0.0
    ensures x * y > 0.0
  {
  }

  /** The distance of two vectors: what Measure computes, in closed form. */
  ghost function Distance(sqrt: real -> real, a: Vector, b: Vector, metric: Metric): (r: Result<real>)
    requires IsSqrt(sqrt)
  {
    if |a| != |b| then Failure("vector length mismatch")
    else match metric
      case Cosine =>
        DotSelfNonNegative(a, |a|);
        DotSelfNonNegative(b, |b|);
        CosineScore(sqrt, Dot(a, b), Dot(a, a), Dot(b, b))
      case Euclidean => Success(sqrt(Squared(a, b)))
      case DotProduct => Success(-Dot(a, b))
      case Unknown(_) => Failure("unknown metric")
  }

  /** The end of the cosine case, for norms that are not zero. */
  method MeasureCosine(sqrt: real -> real, dot: real, normA: real, normB: real) returns (r: Result<real>)
    requires IsSqrt(sqrt) && normA > 0.0 && normB > 0.0
    ensures r == CosineScore(sqrt, dot, normA, normB)
  {
    SqrtPositive(sqrt, normA);
    SqrtPositive(sqrt, normB);
    ProductPositive(sqrt(normA), sqrt(normB));
    var sim := dot / (sqrt(normA) * sqrt(normB));
    return Success(1.0 - sim);
  }

  /** Distance, with the accumulating loops of the three metrics. */
  method Measure(sqrt: real -> real, a: Vector, b: Vector, metric: Metric) returns (r: Result<real>)
    requires IsSqrt(sqrt)
    ensures r == Distance(sqrt, a, b, metric)
  {
    if |a| != |b| {
      return Failure("vector length mismatch");
    }
    match metric {
      case Cosine =>
        var dot, normA, normB := 0.0, 0.0, 0.0;
        for i := 0 to |a|
          invariant dot == DotTo(a, b, i)
          invariant normA == DotTo(a, a, i) && normB == DotTo(b, b, i)
        {
          dot := dot + a[i] * b[i];
          normA := normA + a[i] * a[i];
          normB := normB + b[i] * b[i];
        }
        DotSelfNonNegative(a, |a|);
        DotSelfNonNegative(b, |b|);
        if normA == 0.0 || normB == 0.0 {
          return Failure("zero-norm vector in cosine distance");
        }
        r := MeasureCosine(sqrt, dot, normA, normB);
      case Euclidean =>
        var sum := 0.0;
        for i := 0 to |a|
          invariant sum == SquaredTo(a, b, i)
        {
          var d := a[i] - b[i];
          sum := sum + d * d;
        }
        return Success(sqrt(sum));
      case DotProduct =>
        var dot := 0.0;
        for i := 0 to |a|
          invariant dot == DotTo(a, b, i)
        {
          dot := dot + a[i] * b[i];
        }
        return Success(-dot);
      case Unknown(_) =>
        return Failure("unknown metric");
    }
  }

  // ---------- Metric laws ----------

  /** A call fails exactly on a length mismatch, an unknown metric or, for the cosine
      metric, a vector of zero norm, which is the zero vector and no other. */
  lemma DistanceFailsWhen(sqrt: real -> real, a: Vector, b: Vector, metric: Metric)
    requires IsSqrt(sqrt)
    ensures Distance(sqrt, a, b, metric).Failure? <==>
            |a| != |b| || metric.Unknown? || (metric.Cosine? && (IsZero(a) || IsZero(b)))
  {
    if |a| == |b| {
      ZeroNorm(a, |a|);
      ZeroNorm(b, |b|);
    }
  }

  ghost predicate IsZero(a: Vector) {
    forall i :: 0 <= i < |a| ==> a[i] == 0.0
  }

  lemma SquareAbove(x: real) returns (d: real)
    requires x != 0.0
    ensures d > 0.0 && x * x >= d
  {
    if x > 0.0 {
      d := ProductAbove(x, x);
    } else {
      d := ProductAbove(-x, -x);
    }
  }

  lemma ProductAbove(x: real, y: real) returns (d: real)
    requires x > 0.0 && y > 0.0
    ensures d > 0.0 && x * y >= d
  {
    d := x * y;
  }

  /** The squared norm is positive as soon as one component is not zero. */
  lemma {:induction false} ZeroNorm(a: Vector, n: nat)
    requires n <= |a|
    ensures if forall i :: 0 <= i < n ==> a[i] == 0.0 then DotTo(a, a, n) == 0.0 else DotTo(a, a, n) > 0.0
  {
    if n > 0 {
      ZeroNorm(a, n - 1);
      DotSelfNonNegative(a, n - 1);
      SquareNonNegative(a[n - 1]);
      if a[n - 1] != 0.0 {
        var d := SquareAbove(a[n - 1]);
      }
    }
  }

  /** The cosine distance lies between 0 and 2. */
  lemma CosineRange(sqrt: real -> real, a: Vector, b: Vector)
    requires IsSqrt(sqrt) && Distance(sqrt, a, b, Cosine).Success?
    ensures 0.0 <= Distance(sqrt, a, b, Cosine).value <= 2.0
  {
    DotSelfNonNegative(a, |a|);
    DotSelfNonNegative(b, |b|);
    CauchySchwarz(a, b, |a|);
    CosineScoreRange(sqrt, Dot(a, b), Dot(a, a), Dot(b, b));
  }

  lemma CosineScoreRange(sqrt: real -> real, dot: real, normA: real, normB: real)
    requires IsSqrt(sqrt) && normA >= 0.0 && normB >= 0.0 && dot * dot <= normA * normB
    requires CosineScore(sqrt, dot, normA, normB).Success?
    ensures 0.0 <= CosineScore(sqrt, dot, normA, normB).value <= 2.0
  {
    SqrtPositive(sqrt, normA);
    SqrtPositive(sqrt, normB);
    QuotientRange(dot, sqrt(normA), sqrt(normB), normA, normB);
  }

  lemma QuotientRange(dot: real, ra: real, rb: real, na: real, nb: real)
    requires ra > 0.0 && rb > 0.0 && ra * ra == na && rb * rb == nb && dot * dot <= na * nb
    ensures ra * rb > 0.0 && -1.0 <= dot / (ra * rb) <= 1.0
  {
    ProductPositive(ra, rb);
    var y := ra * rb;
    ProductOfSquares(ra, rb);
    SquareOrder(dot, y);
    assert (-dot) * (-dot) == dot * dot;
    SquareOrder(-dot, y);
    var q := dot / y;
    assert q * y == dot;
    QuotientBounded(q, y);
  }

  lemma ProductOfSquares(x: real, y: real)
    ensures (x * y) * (x * y) == (x * x) * (y * y)
  {
  }

  lemma QuotientBounded(q: real, y: real)
    requires y > 0.0 && -y <= q * y <= y
    ensures -1.0 <= q <= 1.0
  {
    if q > 1.0 {
      ProductPositive(q - 1.0, y);
    } else if q < -1.0 {
      ProductPositive(-1.0 - q, y);
    }
  }

  /** The cosine distance of a vector to itself is 0. */
  lemma CosineIdentical(sqrt: real -> real, a: Vector)
    requires IsSqrt(sqrt) && !IsZero(a)
    ensures Distance(sqrt, a, a, Cosine) == Success(0.0)
  {
    var norm := Dot(a, a);
    ZeroNorm(a, |a|);
    DotSelfNonNegative(a, |a|);
    SqrtPositive(sqrt, norm);
    ProductPositive(sqrt(norm), sqrt(norm));
    assert norm / (sqrt(norm) * sqrt(norm)) == 1.0;
  }

  /** The triangle inequality of the Euclidean distance, for vectors of any length. */
  lemma EuclideanTriangle(sqrt: real -> real, a: Vector, b: Vector, c: Vector)
    requires IsSqrt(sqrt) && |a| == |b| == |c|
    ensures Distance(sqrt, a, c, Euclidean).value
         <= Distance(sqrt, a, b, Euclidean).value + Distance(sqrt, b, c, Euclidean).value
  {
    var s, t, p := TriangleSums(a, b, c);
    RootsAdd(sqrt, s, t, p);
  }

  lemma TriangleSums(a: Vector, b: Vector, c: Vector) returns (s: real, t: real, p: real)
    requires |a| == |b| == |c|
    ensures s == Squared(a, b) && t == Squared(b, c) && p * p <= s * t
    ensures Squared(a, c) == s + t + 2.0 * p
  {
    hide SquaredTo, DotTo, Minus;
    s, t, p := Squared(a, b), Squared(b, c), Dot(Minus(a, b), Minus(b, c));
    SquaredIsDot(a, b, |a|);
    SquaredIsDot(b, c, |a|);
    CauchySchwarz(Minus(a, b), Minus(b, c), |a|);
    SquaredThrough(a, b, c, |a|);
  }

  lemma RootsAdd(sqrt: real -> real, s: real, t: real, p: real)
    requires IsSqrt(sqrt) && s >= 0.0 && t >= 0.0 && p * p <= s * t
    requires s + t + 2.0 * p >= 0.0
    ensures sqrt(s + t + 2.0 * p) <= sqrt(s) + sqrt(t)
  {
    RootsAddScalars(sqrt(s), sqrt(t), sqrt(s + t + 2.0 * p), p);
  }

  lemma RootsAddScalars(x: real, y: real, z: real, p: real)
    requires x >= 0.0 && y >= 0.0 && p * p <= (x * x) * (y * y)
    requires z * z == x * x + y * y + 2.0 * p
    ensures z <= x + y
  {
    ProductOfSquares(x, y);
    SquareOrder(p, x * y);
    assert (x + y) * (x + y) == x * x + y * y + 2.0 * (x * y);
    SquareOrder(z, x + y);
  }

  lemma {:induction false} SquaredThrough(a: Vector, b: Vector, c: Vector, n: nat)
    requires |a| == |b| == |c| && n <= |a|
    ensures SquaredTo(a, c, n) ==
            SquaredTo(a, b, n) + SquaredTo(b, c, n) + 2.0 * DotTo(Minus(a, b), Minus(b, c), n)
  {
    if n > 0 {
      SquaredThrough(a, b, c, n - 1);
      var x, y := a[n - 1] - b[n - 1], b[n - 1] - c[n - 1];
      assert a[n - 1] - c[n - 1] == x + y;
      assert (x + y) * (x + y) == x * x + y * y + 2.0 * (x * y);
    }
  }

  /** The Euclidean and cosine distances are symmetric, and so is the dot product. */
  lemma DistanceSymmetric(sqrt: real -> real, a: Vector, b: Vector, metric: Metric)
    requires IsSqrt(sqrt) && Distance(sqrt, a, b, metric).Success?
    ensures Distance(sqrt, b, a, metric) == Distance(sqrt, a, b, metric)
  {
    DotCommutes(a, b, |a|);
    SquaredCommutes(a, b, |a|);
  }

  /** Ranking by Euclidean distance is ranking by its square. */
  lemma EuclideanOrder(sqrt: real -> real, a: Vector, b: Vector, c: Vector)
    requires IsSqrt(sqrt) && |a| == |b| == |c|
    ensures Distance(sqrt, a, b, Euclidean).value <= Distance(sqrt, a, c, Euclidean).value
       <==> Squared(a, b) <= Squared(a, c)
  {
    RootOrder(sqrt(Squared(a, b)), sqrt(Squared(a, c)), Squared(a, b), Squared(a, c));
  }

  lemma RootOrder(x: real, y: real, s: real, t: real)
    requires x >= 0.0 && y >= 0.0 && x * x == s && y * y == t
    ensures x <= y <==> s <= t
  {
    if x > y {
      SquareStrict(x, y);
    } else if x < y {
      SquareStrict(y, x);
    }
  }
}
