/** inverseModInt of src/webclient/BigInt.js: Euclid's algorithm on machine integers. */
module BigIntInverse {
  import opened Digits

  ghost predicate Common(d: int, x: int, n: int)
    requires d > 0
  {
    x % d == 0 && n % d == 0
  }

  ghost predicate Coprime(x: int, n: int) {
    forall d :: d > 1 ==> !Common(d, x, n)
  }

  /** A step of Euclid's algorithm keeps the common divisors. */
  lemma CommonStep(d: int, x: int, n: int, q: int)
    requires d > 0
    ensures Common(d, x, n) <==> Common(d, x, n - x * q)
    ensures Common(d, n, x) <==> Common(d, n - x * q, x)
  {
    if x % d == 0 {
      Associate(d, x / d, q);
      assert x == d * (x / d);
      ModShift(n, -(x / d * q), d);
      assert n - x * q == n + d * (-(x / d * q));
    }
  }

  lemma CoprimeStep(x: int, n: int)
    requires x > 0
    ensures Coprime(x, n) <==> Coprime(x, n % x)
    ensures Coprime(n, x) <==> Coprime(n % x, x)
  {
    assert n % x == n - x * (n / x);
    forall d | d > 1
      ensures Common(d, x, n) <==> Common(d, x, n % x)
      ensures Common(d, n, x) <==> Common(d, n % x, x)
    {
      CommonStep(d, x, n, n / x);
    }
  }

  /** Zero shares every divisor. */
  lemma ZeroNotCoprime(x: int)
    requires x > 1
    ensures !Coprime(x, 0) && !Coprime(0, x)
  {
    DivisionUnique(x, x, 1, 0);
    SmallMod(0, x);
    assert Common(x, x, 0) && Common(x, 0, x);
  }

  lemma OneCoprime(n: int)
    ensures Coprime(1, n) && Coprime(n, 1)
  {
    forall d | d > 1
      ensures !Common(d, 1, n) && !Common(d, n, 1)
    {
      SmallMod(1, d);
    }
  }

  /** The cofactor that a step subtracts keeps the congruence with the original `x`. */
  lemma CofactorStep(a: int, b: int, q: int, x: int, n: int, x0: int, n0: int)
    requires n0 > 0 && Same(a * x0, x, n0) && Same(b * x0, n, n0)
    ensures Same((b - a * q) * x0, n - x * q, n0)
  {
    hide Same;
    SameScale(a * x0, x, -q, n0);
    SamePlus(b * x0, n, a * x0 * -q, x * -q, n0);
    Distribute(x0, b, a * q);
    Associate(a, x0, q);
    Associate(a, q, x0);
  }

  /** The cofactors stay as small as the modulus. */
  lemma BalanceStep(a: int, b: int, q: int, x: int, n: int)
    ensures a * (n - x * q) - (b - a * q) * x == a * n - b * x
  {
    Distribute(a, n, x * q);
    Distribute(x, b, a * q);
    Associate(a, x, q);
    Associate(x, a, q);
  }

  /** What Euclid's algorithm with cofactors keeps. */
  ghost predicate Euclid(a: int, b: int, x: int, n: int, x0: int, n0: int)
    requires n0 >= 1
  {
    x >= 0 && n >= 0 && a >= 1 && b <= 0 && a * n - b * x == n0 &&
    Same(a * x0, x, n0) && Same(b * x0, n, n0) &&
    (Coprime(x, n) <==> Coprime(x0, n0))
  }

  lemma EuclidStart(x0: int, n0: int)
    requires x0 >= 0 && n0 >= 1
    ensures Euclid(1, 0, x0, n0, x0, n0)
  {
    StartSame(x0, n0);
  }

  lemma ReduceN(a: int, b: int, x: int, n: int, x0: int, n0: int)
    requires n0 >= 1 && Euclid(a, b, x, n, x0, n0) && x > 0
    ensures Euclid(a, b - a * (n / x), x, n % x, x0, n0)
  {
    hide Same, Coprime;
    Quotients(a, b, x, n);
    CofactorStep(a, b, n / x, x, n, x0, n0);
    BalanceStep(a, b, n / x, x, n);
    CoprimeStep(x, n);
  }

  lemma ReduceX(a: int, b: int, x: int, n: int, x0: int, n0: int)
    requires n0 >= 1 && Euclid(a, b, x, n, x0, n0) && n > 0
    ensures Euclid(a - b * (x / n), b, x % n, n, x0, n0)
  {
    hide Same, Coprime;
    Quotients(-b, -a, n, x);
    CofactorStep(b, a, x / n, n, x, x0, n0);
    BalanceStep(b, a, x / n, n, x);
    CoprimeStep(n, x);
  }

  /** What the four exits return. */
  lemma EuclidEnds(a: int, b: int, x: int, n: int, x0: int, n0: int)
    requires n0 >= 1 && Euclid(a, b, x, n, x0, n0)
    ensures x == 1 && n >= 1 ==> Coprime(x0, n0) && Same(a * x0, 1, n0) && a <= n0
    ensures n == 1 && x >= 1 ==> Coprime(x0, n0) && Same(b * x0, 1, n0) && -n0 <= b
    ensures (x == 0 && n > 1) || (n == 0 && x > 1) ==> !Coprime(x0, n0)
  {
    hide Same, Coprime;
    OneCoprime(n);
    OneCoprime(x);
    if n > 1 { ZeroNotCoprime(n); }
    if x > 1 { ZeroNotCoprime(x); }
    if n >= 1 { TimesMonotone(1, n, a); }
    if x >= 1 { TimesMonotone(1, x, -b); }
  }

  /** inverseModInt: the inverse, possibly negative, or 0 when there is none. */
  method InverseModInt(x0: int, n0: int) returns (r: int)
    requires x0 >= 0 && n0 >= 1
    ensures Coprime(x0, n0) ==> Same(r * x0, 1, n0)
    ensures !Coprime(x0, n0) ==> r == 0
    ensures -n0 <= r <= n0
  {
    hide Same, Coprime, Euclid;
    var a, b, x, n := 1, 0, x0, n0;
    EuclidStart(x0, n0);
    while true
      invariant x >= 0 && n >= 1 && a >= 1 && b <= 0 && (n == 1 ==> n0 == 1)
      invariant Euclid(a, b, x, n, x0, n0)
      decreases x + n
    {
      EuclidEnds(a, b, x, n, x0, n0);
      if x == 1 {
        return a;
      }
      if x == 0 {
        TrivialModulus(x0, n0);
        return 0;
      }
      ReduceN(a, b, x, n, x0, n0);
      Quotients(a, b, x, n);
      b := b - a * (n / x);
      n := n % x;

      EuclidEnds(a, b, x, n, x0, n0);
      if n == 1 {
        return b;
      }
      if n == 0 {
        return 0;
      }
      ReduceX(a, b, x, n, x0, n0);
      Quotients(-b, -a, n, x);
      a := a - b * (x / n);
      x := x % n;
    }
  }

  lemma TrivialModulus(x0: int, n0: int)
    ensures n0 == 1 ==> Same(0 * x0, 1, n0)
  {
  }

  lemma Quotients(a: int, b: int, x: int, n: int)
    requires x > 0 && n >= 0 && a >= 0
    ensures 0 <= n % x < x && n % x <= n && n % x == n - x * (n / x)
    ensures b - a * (n / x) <= b
  {
    Gap(x, n / x);
    assert n == x * (n / x) + n % x;
    TimesMonotone(0, a, n / x);
  }

  lemma StartSame(x0: int, n0: int)
    requires n0 >= 1
    ensures Same(1 * x0, x0, n0) && Same(0 * x0, n0, n0)
  {
    DivisionUnique(n0, n0, 1, 0);
    SmallMod(0, n0);
  }

  // --------------------------------------------------------- odd moduli

  lemma OddTimes(d: int, e: int)
    requires d % 2 == 1
    ensures d * e % 2 == e % 2
  {
    var h := d / 2;
    assert d * e == 2 * (h * e) + e by { Distribute(e, 2 * h, 1); Associate(2, h, e); }
    ModShift(e, h * e, 2);
  }

  lemma UnitFactor(d: int, e: int)
    requires d > 0 && d * e == 1
    ensures d == 1
  {
    Gap(d, e);
  }

  lemma {:induction false} OddDivisor(d: int, k: nat, e: int)
    requires d > 0 && d % 2 == 1 && d * e == Power(2, k)
    ensures d == 1
  {
    if k == 0 {
      UnitFactor(d, e);
    } else {
      HalfFactor(d, e, Power(2, k - 1));
      OddDivisor(d, k - 1, e / 2);
    }
  }

  lemma HalfFactor(d: int, e: int, p: int)
    requires d % 2 == 1 && d * e == 2 * p
    ensures d * (e / 2) == p
  {
    OddTimes(d, e);
    SmallMod(0, 2);
    ModShift(0, p, 2);
    Associate(d, 2, e / 2);
  }

  /** An odd number has an inverse modulo the radix. */
  lemma OddCoprime(x: int)
    requires x % 2 == 1
    ensures Coprime(x, 32768)
  {
    forall d | d > 1
      ensures !Common(d, x, 32768)
    {
      if x % d == 0 && 32768 % d == 0 {
        assert x == d * (x / d);
        assert d % 2 == 1 by { EvenFactor(d, x / d); }
        Power15();
        OddDivisor(d, 15, 32768 / d);
      }
    }
  }

  lemma EvenFactor(d: int, q: int)
    ensures d % 2 == 0 ==> d * q % 2 == 0
  {
    if d % 2 == 0 {
      Associate(2, d / 2, q);
      assert d * q == 2 * (d / 2 * q);
    }
  }

  lemma Power15()
    ensures Power(2, 15) == 32768
  {
    assert Power(2, 5) == 2 * (2 * (2 * (2 * (2 * Power(2, 0)))));
    PowerAdd(2, 5, 5);
    PowerAdd(2, 10, 5);
  }
}
