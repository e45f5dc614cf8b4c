/** The float64 nearest to an integer: 53 significant bits, ties to the even neighbour. */
module Float64 {
  const TWO_52: nat := 0x10_0000_0000_0000
  const TWO_53: nat := 0x20_0000_0000_0000

  /** The distance between the float64 values around n. */
  function Spacing(n: nat): (u: nat)
    ensures u > 0 && n < TWO_53 * u
    ensures u > 1 ==> TWO_52 * u <= n
  {
    if n < TWO_53 then 1 else 2 * Spacing(n / 2)
  }

  /** The number of whole u in n. */
  function Quotient(n: nat, u: nat): (q: nat)
    requires u > 0
    ensures q * u <= n < q * u + u
  {
    assert n == (n / u) * u + n % u;
    n / u
  }

  /** The multiple of u nearest to n, the even one of two that are equally near. */
  function Nearest(n: nat, u: nat): (m: nat)
    requires u > 0
    ensures Quotient(n, u) * u <= m <= Quotient(n, u) * u + u
  {
    var q := Quotient(n, u);
    var r := n - q * u;
    if 2 * r < u || (2 * r == u && q % 2 == 0) then q * u else q * u + u
  }

  function Rounded(n: int): int {
    if n >= 0 then Nearest(n, Spacing(n)) else -(Nearest(-n, Spacing(-n)) as int)
  }

  lemma Ordered(a: nat, b: nat, u: nat)
    requires a <= b
    ensures a * u <= b * u
  {
  }

  lemma OneMore(a: nat, u: nat)
    ensures (a + 1) * u == a * u + u
  {
  }

  lemma MultiplesOrder(a: nat, b: nat, u: nat)
    requires a <= b
    ensures a * u <= b * u
    ensures a < b ==> a * u + u <= b * u
  {
    Ordered(a, b, u);
    if a < b {
      OneMore(a, u);
      Ordered(a + 1, b, u);
    }
  }

  function Gap(a: int, b: int): nat {
    if a <= b then b - a else a - b
  }

  /** No multiple of u is nearer. */
  lemma NearestIsNearest(n: nat, u: nat, k: nat)
    requires u > 0
    ensures Gap(n, Nearest(n, u)) <= Gap(n, k * u)
  {
    hide Quotient;
    var q := Quotient(n, u);
    if k <= q {
      MultiplesOrder(k, q, u);
    } else {
      MultiplesOrder(q, k, u);
    }
  }

  lemma QuotientOrder(n: nat, m: nat, u: nat)
    requires u > 0 && n <= m
    ensures Quotient(n, u) <= Quotient(m, u)
  {
    hide Quotient;
    if Quotient(n, u) > Quotient(m, u) {
      MultiplesOrder(Quotient(m, u), Quotient(n, u), u);
    }
  }

  lemma NearestMonotone(n: nat, m: nat, u: nat)
    requires u > 0 && n <= m
    ensures Nearest(n, u) <= Nearest(m, u)
  {
    hide Quotient;
    QuotientOrder(n, m, u);
    MultiplesOrder(Quotient(n, u), Quotient(m, u), u);
  }

  lemma {:induction false} SpacingMonotone(n: nat, m: nat)
    requires n <= m
    ensures Spacing(n) == Spacing(m) || 2 * Spacing(n) <= Spacing(m)
  {
    if n >= TWO_53 {
      SpacingMonotone(n / 2, m / 2);
    }
  }

  /** What is nearest below a power of two stays below it, and what is above it above. */
  lemma AcrossSpacings(n: nat, m: nat, u: nat, w: nat)
    requires u > 0 && n < TWO_53 * u && 2 * u <= w && TWO_52 * w <= m
    ensures Nearest(n, u) <= Nearest(m, w)
  {
    hide Quotient, Nearest;
    var q, p := Quotient(n, u), Quotient(m, w);
    if q >= TWO_53 {
      MultiplesOrder(TWO_53, q, u);
    }
    MultiplesOrder(q, TWO_53, u);
    if p < TWO_52 {
      MultiplesOrder(p, TWO_52, w);
    }
    MultiplesOrder(TWO_52, p, w);
  }

  lemma NaturalsMonotone(n: nat, m: nat)
    requires n <= m
    ensures Rounded(n) <= Rounded(m)
  {
    hide Nearest, Spacing;
    SpacingMonotone(n, m);
    if Spacing(n) == Spacing(m) {
      NearestMonotone(n, m, Spacing(n));
    } else {
      AcrossSpacings(n, m, Spacing(n), Spacing(m));
    }
  }

  /** Rounding never swaps two integers. */
  lemma RoundedMonotone(n: int, m: int)
    requires n <= m
    ensures Rounded(n) <= Rounded(m)
  {
    hide Nearest, Spacing;
    if n >= 0 {
      NaturalsMonotone(n, m);
    } else if m < 0 {
      NaturalsMonotone(-m, -n);
    } else {
      assert Nearest(m, Spacing(m)) >= 0 && Nearest(-n, Spacing(-n)) >= 0;
    }
  }

  /** Integers of up to 53 bits keep their value. */
  lemma SmallStays(n: int)
    requires n <= TWO_53 && -n <= TWO_53
    ensures Rounded(n) == n
  {
    assert Spacing(TWO_52) == 1;
    assert Spacing(TWO_53) == 2;
  }

  /** The first integer that does not. */
  lemma FirstMerged()
    ensures Rounded(TWO_53 + 1) == TWO_53 == Rounded(TWO_53)
  {
    assert Spacing(TWO_52) == 1;
    assert Spacing(TWO_53) == 2 && Spacing(TWO_53 + 1) == 2;
  }

  // ---------- Against the values a float64 can have ----------

  function Power(e: nat): (p: nat)
    ensures p > 0
  {
    if e == 0 then 1 else 2 * Power(e - 1)
  }

  /** The whole numbers among the float64 values: at most 53 bits, shifted. */
  function Shifted(k: nat, e: nat): nat {
    k * Power(e)
  }

  ghost predicate IsFloat(m: nat) {
    exists k: nat, e: nat :: k <= TWO_53 && m == Shifted(k, e)
  }

  lemma {:induction false} SpacingIsPower(n: nat) returns (e: nat)
    ensures Spacing(n) == Power(e)
  {
    if n < TWO_53 {
      e := 0;
    } else {
      e := SpacingIsPower(n / 2);
      e := e + 1;
    }
  }

  lemma {:induction false} PowerOfSum(a: nat, b: nat)
    ensures Power(a + b) == Power(a) * Power(b)
  {
    if a > 0 {
      PowerOfSum(a - 1, b);
      Twice(Power(a - 1), Power(b));
    }
  }

  lemma Twice(x: nat, y: nat)
    ensures 2 * (x * y) == (2 * x) * y
  {
  }

  lemma Regroup(x: nat, y: nat, z: nat)
    ensures x * (y * z) == (x * y) * z
  {
  }

  lemma RoundedIsFloat(n: nat)
    ensures Rounded(n) >= 0 && IsFloat(Rounded(n))
  {
    hide Quotient;
    var e := SpacingIsPower(n);
    var u := Spacing(n);
    var q := Quotient(n, u);
    if q >= TWO_53 {
      Ordered(TWO_53, q, u);
    }
    OneMore(q, u);
    assert Rounded(n) == Shifted(q, e) || Rounded(n) == Shifted(q + 1, e);
  }

  /** No value that a float64 can have is nearer to n. */
  lemma RoundedIsNearest(n: nat, k: nat, e: nat)
    requires k <= TWO_53
    ensures Gap(n, Rounded(n)) <= Gap(n, Shifted(k, e))
  {
    hide Nearest, Quotient;
    var u := Spacing(n);
    var j := SpacingIsPower(n);
    if e >= j {
      PowerOfSum(e - j, j);
      Regroup(k, Power(e - j), Power(j));
      NearestIsNearest(n, u, k * Power(e - j));
    } else {
      PowerOfSum(j - e - 1, e);
      Ordered(1, Power(j - e - 1), Power(e));
      assert 2 * Power(e) <= Power(j);
      Ordered(k, TWO_53, Power(e));
      NearestIsNearest(n, u, TWO_52);
    }
  }
}
