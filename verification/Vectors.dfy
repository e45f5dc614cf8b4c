/** Sums over vectors of reals, and the inequalities the distance metrics rest on. */
module Vectors {
  type Vector = seq<real>

  /** The sum of a[i] * b[i] over the first n components. */
  function DotTo(a: Vector, b: Vector, n: nat): real
    requires n <= |a| && n <= |b|
  {
    if n == 0 then 0.0 else DotTo(a, b, n - 1) + a[n - 1] * b[n - 1]
  }

  function Dot(a: Vector, b: Vector): real
    requires |a| == |b|
  {
    DotTo(a, b, |a|)
  }

  /** The sum of (a[i] - b[i])^2 over the first n components. */
  function SquaredTo(a: Vector, b: Vector, n: nat): (r: real)
    requires n <= |a| && n <= |b|
    ensures r >= 0.0
  {
    if n == 0 then 0.0
    else
      SquareNonNegative(a[n - 1] - b[n - 1]);
      SquaredTo(a, b, n - 1) + (a[n - 1] - b[n - 1]) * (a[n - 1] - b[n - 1])
  }

  function Squared(a: Vector, b: Vector): (r: real)
    requires |a| == |b|
    ensures r >= 0.0
  {
    SquaredTo(a, b, |a|)
  }

  function Minus(a: Vector, b: Vector): (r: Vector)
    requires |a| == |b|
    ensures |r| == |a| && forall i :: 0 <= i < |a| ==> r[i] == a[i] - b[i]
  {
    seq(|a|, i requires 0 <= i < |a| => a[i] - b[i])
  }

  lemma SquareNonNegative(x: real)
    ensures x * x >= 0.0
  {
  }

  lemma SquareStrict(x: real, y: real)
    requires x > y >= 0.0
    ensures x * x > y * y
  {
    var d, e := x - y, x + y;
    assert d * e > 0.0;
    assert d * e == x * x - y * y;
  }

  /** Squares order non-negative reals. */
  lemma SquareOrder(x: real, y: real)
    requires y >= 0.0 && x * x <= y * y
    ensures x <= y
  {
    if x > y {
      SquareStrict(x, y);
    }
  }

  lemma {:induction false} DotSelfNonNegative(a: Vector, n: nat)
    requires n <= |a|
    ensures DotTo(a, a, n) >= 0.0
  {
    if n > 0 {
      DotSelfNonNegative(a, n - 1);
      SquareNonNegative(a[n - 1]);
    }
  }

  lemma {:induction false} DotCommutes(a: Vector, b: Vector, n: nat)
    requires n <= |a| && n <= |b|
    ensures DotTo(a, b, n) == DotTo(b, a, n)
  {
    if n > 0 {
      DotCommutes(a, b, n - 1);
    }
  }

  lemma {:induction false} SquaredCommutes(a: Vector, b: Vector, n: nat)
    requires n <= |a| && n <= |b|
    ensures SquaredTo(a, b, n) == SquaredTo(b, a, n)
  {
    if n > 0 {
      SquaredCommutes(a, b, n - 1);
      var d := a[n - 1] - b[n - 1];
      assert (b[n - 1] - a[n - 1]) * (b[n - 1] - a[n - 1]) == d * d;
    }
  }

  lemma {:induction false} SquaredIsDot(a: Vector, b: Vector, n: nat)
    requires |a| == |b| && n <= |a|
    ensures SquaredTo(a, b, n) == DotTo(Minus(a, b), Minus(a, b), n)
  {
    if n > 0 {
      SquaredIsDot(a, b, n - 1);
    }
  }

  // ---------- Cauchy-Schwarz ----------

  /** If p^2 <= s*t for non-negative s and t then 2*p*x*y <= s*y^2 + t*x^2. */
  lemma CrossTerm(p: real, s: real, t: real, x: real, y: real)
    requires s >= 0.0 && t >= 0.0 && p * p <= s * t
    ensures 2.0 * (p * (x * y)) <= s * (y * y) + t * (x * x)
  {
    var u, v := s * (y * y), t * (x * x);
    SquareNonNegative(x);
    SquareNonNegative(y);
    SquareNonNegative(x * y);
    assert u >= 0.0 && v >= 0.0;
    var z := x * y;
    var w := 2.0 * (p * z);
    assert w * w <= (u + v) * (u + v) by {
      assert w * w == 4.0 * ((p * p) * (z * z));
      ScaledOrder(p * p, s * t, z * z);
      assert (s * t) * (z * z) == u * v by {
        FourFactors(s, t, x, y);
      }
      SquareNonNegative(u - v);
      assert (u + v) * (u + v) == (u - v) * (u - v) + 4.0 * (u * v);
    }
    SquareOrder(w, u + v);
  }

  lemma ScaledOrder(a: real, b: real, c: real)
    requires a <= b && c >= 0.0
    ensures a * c <= b * c
  {
  }

  lemma FourFactors(s: real, t: real, x: real, y: real)
    ensures (s * t) * ((x * y) * (x * y)) == (s * (y * y)) * (t * (x * x))
  {
    var xx, yy := x * x, y * y;
    assert (x * y) * (x * y) == xx * yy;
    assert (s * t) * (xx * yy) == (s * yy) * (t * xx);
  }

  /** (sum of a*b)^2 <= (sum of a*a) * (sum of b*b), for vectors of any length. */
  lemma {:induction false} CauchySchwarz(a: Vector, b: Vector, n: nat)
    requires n <= |a| && n <= |b|
    ensures DotTo(a, b, n) * DotTo(a, b, n) <= DotTo(a, a, n) * DotTo(b, b, n)
  {
    if n > 0 {
      CauchySchwarz(a, b, n - 1);
      DotSelfNonNegative(a, n - 1);
      DotSelfNonNegative(b, n - 1);
      CauchySchwarzStep(DotTo(a, b, n - 1), DotTo(a, a, n - 1), DotTo(b, b, n - 1), a[n - 1], b[n - 1]);
    }
  }

  lemma CauchySchwarzStep(p: real, s: real, t: real, x: real, y: real)
    requires s >= 0.0 && t >= 0.0 && p * p <= s * t
    ensures (p + x * y) * (p + x * y) <= (s + x * x) * (t + y * y)
  {
    CrossTerm(p, s, t, x, y);
    var z, xx, yy := x * y, x * x, y * y;
    assert z * z == xx * yy;
    assert (p + z) * (p + z) == p * p + 2.0 * (p * z) + z * z;
    assert (s + xx) * (t + yy) == s * t + s * yy + t * xx + xx * yy;
  }
}
