/** What the three metrics mean: the values they take, how each follows from the others, and when
    they rank alike. */
module MetricLaws {
  import opened Common
  import opened Vectors
  import opened Metrics

  // ---------- Sums ----------

  function Zeros(n: nat): (r: Vector)
    ensures |r| == n && forall i :: 0 <= i < n ==> r[i] == 0.0
  {
    seq(n, _ => 0.0)
  }

  function Scale(a: Vector, k: real): (r: Vector)
    ensures |r| == |a| && forall i :: 0 <= i < |a| ==> r[i] == k * a[i]
  {
    seq(|a|, i requires 0 <= i < |a| => k * a[i])
  }

  lemma {:induction false} SquaredFromZero(a: Vector, n: nat)
    requires n <= |a|
    ensures SquaredTo(a, Zeros(|a|), n) == DotTo(a, a, n)
  {
    if n > 0 {
      SquaredFromZero(a, n - 1);
      assert a[n - 1] - Zeros(|a|)[n - 1] == a[n - 1];
    }
  }

  lemma SquareOfDifference(x: real, y: real)
    ensures (x - y) * (x - y) == x * x + y * y - 2.0 * (x * y)
  {
  }

  lemma {:induction false} SquaredExpands(a: Vector, b: Vector, n: nat)
    requires n <= |a| && n <= |b|
    ensures SquaredTo(a, b, n) == DotTo(a, a, n) + DotTo(b, b, n) - 2.0 * DotTo(a, b, n)
  {
    if n > 0 {
      SquaredExpands(a, b, n - 1);
      SquareOfDifference(a[n - 1], b[n - 1]);
    }
  }

  lemma Factor(k: real, x: real, y: real)
    ensures (k * x) * y == k * (x * y) == x * (k * y)
  {
  }

  lemma {:induction false} DotScales(a: Vector, b: Vector, k: real, n: nat)
    requires n <= |a| && n <= |b|
    ensures DotTo(a, Scale(b, k), n) == k * DotTo(a, b, n) && DotTo(Scale(a, k), b, n) == k * DotTo(a, b, n)
  {
    if n > 0 {
      DotScales(a, b, k, n - 1);
      Factor(k, a[n - 1], b[n - 1]);
      assert k * (DotTo(a, b, n - 1) + a[n - 1] * b[n - 1]) == k * DotTo(a, b, n - 1) + k * (a[n - 1] * b[n - 1]);
    }
  }

  lemma {:induction false} SumsOfConcat(a: Vector, b: Vector, c: Vector, d: Vector, n: nat)
    requires |a| == |c| && |b| == |d| && n <= |b|
    ensures SquaredTo(a + b, c + d, |a| + n) == SquaredTo(a, c, |a|) + SquaredTo(b, d, n)
  {
    if n == 0 {
      SumsOfPrefix(a, b, c, d, |a|);
    } else {
      SumsOfConcat(a, b, c, d, n - 1);
      assert (a + b)[|a| + n - 1] == b[n - 1] && (c + d)[|a| + n - 1] == d[n - 1];
    }
  }

  lemma {:induction false} SumsOfPrefix(a: Vector, b: Vector, c: Vector, d: Vector, n: nat)
    requires |a| == |c| && n <= |a|
    ensures SquaredTo(a + b, c + d, n) == SquaredTo(a, c, n)
  {
    if n > 0 {
      SumsOfPrefix(a, b, c, d, n - 1);
    }
  }

  // ---------- The Euclidean distance ----------

  /** The distance on a line is the difference, and distances along orthogonal groups of
      components add up as squares: together they leave no other distance. */
  lemma EuclideanOnLine(sqrt: real -> real, x: real, y: real)
    requires IsSqrt(sqrt)
    ensures Distance(sqrt, [x], [y], Euclidean) == Success(if x >= y then x - y else y - x)
  {
    var d := if x >= y then x - y else y - x;
    OneComponent(x, y, d);
    RootUnique(sqrt, d, Squared([x], [y]));
  }

  lemma OneComponent(x: real, y: real, d: real)
    requires d == x - y || d == y - x
    ensures Squared([x], [y]) == d * d
  {
    assert SquaredTo([x], [y], 1) == SquaredTo([x], [y], 0) + (x - y) * (x - y);
    SquareOfDifference(x, y);
    SquareOfDifference(y, x);
  }

  lemma RootUnique(sqrt: real -> real, d: real, q: real)
    requires IsSqrt(sqrt) && d >= 0.0 && q == d * d
    ensures sqrt(q) == d
  {
    SquareNonNegative(d);
    RootOrder(sqrt(q), d, q, q);
    RootOrder(d, sqrt(q), q, q);
  }

  lemma EuclideanSquare(sqrt: real -> real, a: Vector, b: Vector)
    requires IsSqrt(sqrt) && |a| == |b|
    ensures Distance(sqrt, a, b, Euclidean).Success?
    ensures var d := Distance(sqrt, a, b, Euclidean).value; d >= 0.0 && d * d == Squared(a, b)
  {
  }

  lemma EuclideanPythagoras(sqrt: real -> real, a: Vector, b: Vector, c: Vector, d: Vector)
    requires IsSqrt(sqrt) && |a| == |c| && |b| == |d|
    ensures var whole := Distance(sqrt, a + b, c + d, Euclidean).value;
      var left, right := Distance(sqrt, a, c, Euclidean).value, Distance(sqrt, b, d, Euclidean).value;
      whole >= 0.0 && whole * whole == left * left + right * right
  {
    SumsOfConcat(a, b, c, d, |b|);
    EuclideanSquare(sqrt, a, c);
    EuclideanSquare(sqrt, b, d);
    EuclideanSquare(sqrt, a + b, c + d);
  }

  /** Only equal vectors have distance 0. */
  lemma EuclideanZero(sqrt: real -> real, a: Vector, b: Vector)
    requires IsSqrt(sqrt) && |a| == |b|
    ensures Distance(sqrt, a, b, Euclidean).value == 0.0 <==> a == b
  {
    var d := Minus(a, b);
    SquaredIsDot(a, b, |a|);
    ZeroNorm(d, |d|);
    RootUnique(sqrt, 0.0, 0.0);
    EuclideanSquare(sqrt, a, b);
    MinusIsZero(a, b);
  }

  lemma MinusIsZero(a: Vector, b: Vector)
    requires |a| == |b|
    ensures IsZero(Minus(a, b)) <==> a == b
  {
    if IsZero(Minus(a, b)) {
      forall i | 0 <= i < |a| ensures a[i] == b[i] {
        assert Minus(a, b)[i] == 0.0;
      }
    }
  }

  /** The length of a vector. */
  ghost function Norm(sqrt: real -> real, a: Vector): real
    requires IsSqrt(sqrt)
  {
    Distance(sqrt, a, Zeros(|a|), Euclidean).value
  }

  lemma NormIs(sqrt: real -> real, a: Vector)
    requires IsSqrt(sqrt)
    ensures Dot(a, a) >= 0.0 && Norm(sqrt, a) == sqrt(Dot(a, a)) >= 0.0
    ensures Norm(sqrt, a) * Norm(sqrt, a) == Dot(a, a)
    ensures Norm(sqrt, a) == 0.0 <==> IsZero(a)
  {
    EuclideanSquare(sqrt, a, Zeros(|a|));
    SquaredFromZero(a, |a|);
    DotSelfNonNegative(a, |a|);
    ZeroNorm(a, |a|);
    RootUnique(sqrt, 0.0, 0.0);
  }

  // ---------- The dot product ----------

  /** Smaller is more similar: b ranks no later than c exactly if its dot product is no smaller. */
  lemma DotProductOrder(sqrt: real -> real, a: Vector, b: Vector, c: Vector)
    requires IsSqrt(sqrt) && |a| == |b| == |c|
    ensures Distance(sqrt, a, b, DotProduct).value <= Distance(sqrt, a, c, DotProduct).value
       <==> Dot(a, b) >= Dot(a, c)
  {
  }

  /** A vector other than zero is on the near side of itself, by the square of its length. */
  lemma DotProductSelf(sqrt: real -> real, a: Vector)
    requires IsSqrt(sqrt) && !IsZero(a)
    ensures Distance(sqrt, a, a, DotProduct).value == -(Norm(sqrt, a) * Norm(sqrt, a)) < 0.0
  {
    NormIs(sqrt, a);
    ZeroNorm(a, |a|);
  }

  /** Euclidean distances decide the dot product. */
  lemma DotFromEuclidean(sqrt: real -> real, a: Vector, b: Vector)
    requires IsSqrt(sqrt) && |a| == |b|
    ensures var d := Distance(sqrt, a, b, Euclidean).value;
      d * d == Norm(sqrt, a) * Norm(sqrt, a) + Norm(sqrt, b) * Norm(sqrt, b)
               + 2.0 * Distance(sqrt, a, b, DotProduct).value
  {
    NormIs(sqrt, a);
    NormIs(sqrt, b);
    SquaredExpands(a, b, |a|);
  }

  // ---------- The cosine distance ----------

  lemma CosineTimesNorms(sqrt: real -> real, a: Vector, b: Vector)
    requires IsSqrt(sqrt) && |a| == |b| && !IsZero(a) && !IsZero(b)
    ensures Distance(sqrt, a, b, Cosine).Success? && Norm(sqrt, a) * Norm(sqrt, b) > 0.0
    ensures (1.0 - Distance(sqrt, a, b, Cosine).value) * (Norm(sqrt, a) * Norm(sqrt, b)) == Dot(a, b)
  {
    NormIs(sqrt, a);
    NormIs(sqrt, b);
    ProductPositive(Norm(sqrt, a), Norm(sqrt, b));
    DistanceFailsWhen(sqrt, a, b, Cosine);
    QuotientTimes(Dot(a, b), Norm(sqrt, a) * Norm(sqrt, b));
  }

  lemma QuotientTimes(x: real, y: real)
    requires y > 0.0
    ensures (x / y) * y == x
  {
  }

  /** The law of cosines: Euclidean distances decide the cosine distance. */
  lemma CosineLaw(sqrt: real -> real, a: Vector, b: Vector)
    requires IsSqrt(sqrt) && |a| == |b| && !IsZero(a) && !IsZero(b)
    ensures Distance(sqrt, a, b, Cosine).Success?
    ensures var d, cosine := Distance(sqrt, a, b, Euclidean).value, 1.0 - Distance(sqrt, a, b, Cosine).value;
      d * d == Norm(sqrt, a) * Norm(sqrt, a) + Norm(sqrt, b) * Norm(sqrt, b)
               - 2.0 * (cosine * (Norm(sqrt, a) * Norm(sqrt, b)))
  {
    CosineTimesNorms(sqrt, a, b);
    NormIs(sqrt, a);
    NormIs(sqrt, b);
    SquaredExpands(a, b, |a|);
  }

  /** The distance is 1 exactly for orthogonal vectors, and below 1 exactly for those on the same side. */
  lemma CosineOrthogonal(sqrt: real -> real, a: Vector, b: Vector)
    requires IsSqrt(sqrt) && |a| == |b| && !IsZero(a) && !IsZero(b)
    ensures Distance(sqrt, a, b, Cosine).Success?
    ensures Distance(sqrt, a, b, Cosine).value == 1.0 <==> Dot(a, b) == 0.0
    ensures Distance(sqrt, a, b, Cosine).value < 1.0 <==> Dot(a, b) > 0.0
  {
    CosineTimesNorms(sqrt, a, b);
    SignOfProduct(1.0 - Distance(sqrt, a, b, Cosine).value, Norm(sqrt, a) * Norm(sqrt, b));
  }

  lemma SignOfProduct(x: real, y: real)
    requires y > 0.0
    ensures x * y == 0.0 <==> x == 0.0
    ensures x * y > 0.0 <==> x > 0.0
  {
    if x > 0.0 {
      ProductPositive(x, y);
    } else if x < 0.0 {
      ProductPositive(-x, y);
    }
  }

  lemma DotsOfMultiple(a: Vector, k: real)
    ensures Dot(a, Scale(a, k)) == k * Dot(a, a)
    ensures Dot(Scale(a, k), Scale(a, k)) == k * (k * Dot(a, a))
  {
    DotScales(a, a, k, |a|);
    DotScales(Scale(a, k), a, k, |a|);
  }

  /** Only directions count: 0 for vectors of the same direction, 2 for opposite ones. */
  lemma CosineOfMultiple(sqrt: real -> real, a: Vector, k: real)
    requires IsSqrt(sqrt) && !IsZero(a) && k != 0.0
    ensures Distance(sqrt, a, Scale(a, k), Cosine) == Success(if k > 0.0 then 0.0 else 2.0)
  {
    hide Distance, Norm, IsSqrt, Dot;
    var b, size := Scale(a, k), if k > 0.0 then k else -k;
    MultipleIsNotZero(a, k);
    CosineTimesNorms(sqrt, a, b);
    DotsOfMultiple(a, k);
    NormScales(sqrt, a, k);
    NormIs(sqrt, a);
    var n, m, c := Norm(sqrt, a), Norm(sqrt, b), 1.0 - Distance(sqrt, a, b, Cosine).value;
    var nn := Dot(a, a);
    ScaledProduct(n, m, size, nn);
    OwnDotPositive(a);
    CosineScalars(c, n * m, nn, size, k);
  }

  lemma OwnDotPositive(a: Vector)
    requires !IsZero(a)
    ensures Dot(a, a) > 0.0
  {
    ZeroNorm(a, |a|);
  }

  lemma ScaledProduct(n: real, m: real, size: real, nn: real)
    requires m == size * n && nn == n * n
    ensures n * m == size * nn
  {
    Factor(size, n, n);
  }

  lemma CosineScalars(c: real, whole: real, nn: real, size: real, k: real)
    requires nn > 0.0 && k != 0.0 && size == if k > 0.0 then k else -k
    requires whole == size * nn && c * whole == k * nn
    ensures c == if k > 0.0 then 1.0 else -1.0
  {
    ProductPositive(size, nn);
    if k > 0.0 {
      assert (c - 1.0) * whole == c * whole - whole;
      SignOfProduct(c - 1.0, whole);
    } else {
      assert (c + 1.0) * whole == c * whole + whole;
      assert size * nn == -(k * nn);
      SignOfProduct(c + 1.0, whole);
    }
  }

  lemma MultipleIsNotZero(a: Vector, k: real)
    requires !IsZero(a) && k != 0.0
    ensures !IsZero(Scale(a, k))
  {
    var i :| 0 <= i < |a| && a[i] != 0.0;
    NoZeroProduct(k, a[i]);
    assert Scale(a, k)[i] == k * a[i];
  }

  lemma NoZeroProduct(x: real, y: real)
    requires x != 0.0 && y != 0.0
    ensures x * y != 0.0
  {
    if y > 0.0 {
      SignOfProduct(x, y);
    } else {
      SignOfProduct(x, -y);
      assert x * (-y) == -(x * y);
    }
  }

  lemma NormScales(sqrt: real -> real, a: Vector, k: real)
    requires IsSqrt(sqrt)
    ensures Norm(sqrt, Scale(a, k)) == (if k > 0.0 then k else -k) * Norm(sqrt, a)
  {
    hide Distance, Norm, Dot, IsSqrt;
    var b, size, n := Scale(a, k), if k > 0.0 then k else -k, Norm(sqrt, a);
    NormIs(sqrt, a);
    NormIs(sqrt, b);
    DotsOfMultiple(a, k);
    ProductNonNegative(size, n);
    SquareOfScaled(size, k, n, Dot(a, a));
    RootUnique(sqrt, size * n, Dot(b, b));
  }

  lemma SquareOfScaled(size: real, k: real, n: real, nn: real)
    requires nn == n * n && size == if k > 0.0 then k else -k
    ensures (size * n) * (size * n) == k * (k * nn)
  {
    ProductOfSquares(size, n);
    assert size * size == k * k;
    Factor(k, k, nn);
  }

  lemma ProductNonNegative(x: real, y: real)
    requires x >= 0.0 && y >= 0.0
    ensures x * y >= 0.0
  {
  }

  // ---------- When the metrics rank alike ----------

  /** Among vectors of one length, such as normalised ones, all three metrics rank alike. */
  lemma MetricsRankAlike(sqrt: real -> real, a: Vector, b: Vector, c: Vector, s: Metric, t: Metric)
    requires IsSqrt(sqrt) && |a| == |b| == |c| && !IsZero(a) && !IsZero(b) && !IsZero(c)
    requires Norm(sqrt, b) == Norm(sqrt, c) && !s.Unknown? && !t.Unknown?
    ensures Distance(sqrt, a, b, s).Success? && Distance(sqrt, a, c, s).Success?
    ensures Distance(sqrt, a, b, t).Success? && Distance(sqrt, a, c, t).Success?
    ensures Distance(sqrt, a, b, s).value <= Distance(sqrt, a, c, s).value
       <==> Distance(sqrt, a, b, t).value <= Distance(sqrt, a, c, t).value
  {
    hide Distance;
    RanksByDot(sqrt, a, b, c, s);
    RanksByDot(sqrt, a, b, c, t);
  }

  lemma RanksByDot(sqrt: real -> real, a: Vector, b: Vector, c: Vector, metric: Metric)
    requires IsSqrt(sqrt) && |a| == |b| == |c| && !IsZero(a) && !IsZero(b) && !IsZero(c)
    requires Norm(sqrt, b) == Norm(sqrt, c) && !metric.Unknown?
    ensures Distance(sqrt, a, b, metric).Success? && Distance(sqrt, a, c, metric).Success?
    ensures Distance(sqrt, a, b, metric).value <= Distance(sqrt, a, c, metric).value <==> Dot(a, b) >= Dot(a, c)
  {
    match metric {
      case Cosine =>
        CosineRanksByDot(sqrt, a, b, c);
      case Euclidean =>
        EuclideanRanksByDot(sqrt, a, b, c);
      case _ =>
    }
  }

  lemma CosineRanksByDot(sqrt: real -> real, a: Vector, b: Vector, c: Vector)
    requires IsSqrt(sqrt) && |a| == |b| == |c| && !IsZero(a) && !IsZero(b) && !IsZero(c)
    requires Norm(sqrt, b) == Norm(sqrt, c)
    ensures Distance(sqrt, a, b, Cosine).Success? && Distance(sqrt, a, c, Cosine).Success?
    ensures Distance(sqrt, a, b, Cosine).value <= Distance(sqrt, a, c, Cosine).value <==> Dot(a, b) >= Dot(a, c)
  {
    hide Distance, Norm;
    CosineTimesNorms(sqrt, a, b);
    CosineTimesNorms(sqrt, a, c);
    var x, y := 1.0 - Distance(sqrt, a, b, Cosine).value, 1.0 - Distance(sqrt, a, c, Cosine).value;
    var n := Norm(sqrt, a) * Norm(sqrt, b);
    assert (x - y) * n == Dot(a, b) - Dot(a, c);
    SignOfProduct(x - y, n);
  }

  lemma EuclideanRanksByDot(sqrt: real -> real, a: Vector, b: Vector, c: Vector)
    requires IsSqrt(sqrt) && |a| == |b| == |c| && Norm(sqrt, b) == Norm(sqrt, c)
    ensures Distance(sqrt, a, b, Euclidean).Success? && Distance(sqrt, a, c, Euclidean).Success?
    ensures Distance(sqrt, a, b, Euclidean).value <= Distance(sqrt, a, c, Euclidean).value
       <==> Dot(a, b) >= Dot(a, c)
  {
    hide Norm, IsSqrt, Dot, Squared;
    EuclideanSquare(sqrt, a, b);
    EuclideanSquare(sqrt, a, c);
    EuclideanOrder(sqrt, a, b, c);
    NormIs(sqrt, b);
    NormIs(sqrt, c);
    SquaredExpanded(a, b);
    SquaredExpanded(a, c);
  }

  lemma SquaredExpanded(a: Vector, b: Vector)
    requires |a| == |b|
    ensures Squared(a, b) == Dot(a, a) + Dot(b, b) - 2.0 * Dot(a, b)
  {
    SquaredExpands(a, b, |a|);
  }
}
