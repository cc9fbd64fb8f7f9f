/** The key exchange of skynet/lualib-src/lua-crypt.c: 64-bit modular powers without a 128-bit product. */
module DiffieHellman {
  import opened Digits

  const TwoTo64: int := 0x1_0000_0000_0000_0000

  /** The biggest 64-bit prime. */
  const P: int := 0xffff_ffff_ffff_ffc5

  const G: int := 5

  /** uint64_t arithmetic. */
  function Wrap(x: int): (r: int)
    ensures 0 <= r < TwoTo64
  {
    x % TwoTo64
  }

  /** mul_mod_p: doubling and adding, each step reduced before it can overflow. */
  method MulModP(a0: int, b0: int) returns (m: int)
    requires 0 <= a0 <= P && 0 <= b0 < TwoTo64
    ensures m == a0 * b0 % P
  {
    hide Same;
    m := 0;
    var a, b := a0, b0;
    MulStart(a0, b0);
    while b != 0
      invariant 0 <= m < P && 0 <= a <= P && 0 <= b < TwoTo64
      invariant Same(m + a * b, a0 * b0, P)
      decreases b
    {
      ghost var m0, a1, b1 := m, a, b;
      if b % 2 == 1 {
        var t := P - a;
        if m >= t {
          m := m - t;
        } else {
          m := m + a;
        }
      }
      if a >= P - a {
        a := Wrap(Wrap(a * 2) - P);
      } else {
        a := a * 2;
      }
      b := b / 2;
      MulStep(m0, a1, b1, m, a, a0 * b0);
    }
    SameIsMod(m, a0 * b0);
  }

  lemma MulStart(a: int, b: int)
    ensures Same(0 + a * b, a * b, P)
  {
  }

  lemma SameIsMod(m: int, v: int)
    requires 0 <= m < P && Same(m + 0, v, P)
    ensures m == v % P
  {
    SmallMod(m, P);
  }

  /** One round keeps m + a*b modulo P. */
  lemma MulStep(m: int, a: int, b: int, m': int, a': int, v: int)
    requires Same(m + a * b, v, P) && b >= 0
    requires m' == (if b % 2 == 1 then (if m >= P - a then m - (P - a) else m + a) else m)
    requires a' == 2 * a || a' == 2 * a - P
    ensures Same(m' + a' * (b / 2), v, P)
  {
    var h := b / 2;
    var k1 := if b % 2 == 1 && m >= P - a then 1 else 0;
    var k2 := if a' == 2 * a then 0 else 1;
    DoubleTerm(a, h, k2, a');
    HalvedTerm(a, h, b % 2, b);
    Distribute(P, k1, k2 * h);
    SameByMultiple(m' + a' * h, m + a * b, -(k1 + k2 * h), P);
  }

  lemma DoubleTerm(a: int, h: int, k: int, a': int)
    requires a' == 2 * a - P * k
    ensures a' * h == 2 * (a * h) - P * (k * h)
  {
    Distribute(h, 2 * a, P * k);
    Associate(P, k, h);
    Associate(2, a, h);
  }

  lemma HalvedTerm(a: int, h: int, bit: int, b: int)
    requires b == 2 * h + bit && 0 <= bit <= 1
    ensures a * b == 2 * (a * h) + if bit == 1 then a else 0
  {
    Distribute(a, 2 * h, bit);
    Associate(a, 2, h);
  }

  /** pow_mod_p: congruent to the power, and reduced unless nothing was multiplied. */
  method PowModP(a: int, b: int) returns (r: int)
    requires 0 <= a <= P && 1 <= b < TwoTo64
    ensures 0 <= r <= P && Same(r, Power(a, b), P)
    ensures b == 1 ==> r == a
    ensures b > 1 ==> r < P
    decreases b
  {
    hide Same, Power;
    if b == 1 {
      PowOne(a);
      return a;
    }
    var t := PowModP(a, b / 2);
    ghost var t0 := t;
    t := MulModP(t, t);
    PowSquare(a, b / 2, t0, t);
    if b % 2 == 1 {
      ghost var t1 := t;
      t := MulModP(t, a);
      PowTimes(a, b - 1, t1, t);
    }
    return t;
  }

  lemma PowOne(a: int)
    ensures Power(a, 1) == a && Same(a, a, P)
  {
    assert Power(a, 1) == a * Power(a, 0);
  }

  lemma PowSquare(a: int, h: nat, t: int, r: int)
    requires Same(t, Power(a, h), P) && r == t * t % P
    ensures Same(r, Power(a, 2 * h), P) && 0 <= r < P
  {
    hide Power;
    SameTimes(t, Power(a, h), t, Power(a, h), P);
    SameMod(t * t, P);
    PowerAdd(a, h, h);
  }

  lemma PowTimes(a: int, k: nat, t: int, r: int)
    requires Same(t, Power(a, k), P) && r == t * a % P
    ensures Same(r, Power(a, k + 1), P) && 0 <= r < P
  {
    SameScale(t, Power(a, k), a, P);
    SameMod(t * a, P);
  }

  /**
   * powmodp: a^b mod P for every b > 0 and every 64-bit a; only a == P with
   * b == 1 comes back unreduced.
   */
  method PowModExact(a0: int, b: int) returns (r: int)
    requires 0 <= a0 < TwoTo64 && 1 <= b < TwoTo64
    ensures r == if a0 == P && b == 1 then P else Power(a0, b) % P
  {
    hide Same, Power;
    var a := if a0 > P then a0 % P else a0;
    r := PowModP(a, b);
    ReducedBase(a0, a, b, r);
  }

  lemma ReducedBase(a0: int, a: int, b: nat, r: int)
    requires 0 <= a0 && a == (if a0 > P then a0 % P else a0) && Same(r, Power(a, b), P) && 0 <= r <= P
    requires (b == 1 ==> r == a) && (b > 1 ==> r < P) && b >= 1
    ensures r == if a0 == P && b == 1 then P else Power(a0, b) % P
  {
    hide Power;
    SameMod(a0, P);
    SamePower(a, a0, b, P);
    if r < P {
      SmallMod(r, P);
    }
    if b == 1 {
      PowOne(a0);
    }
  }

  datatype Answer = Error | Value(v: int)

  /** ldhsecret */
  method Secret(x: int, y: int) returns (r: Answer)
    requires 0 <= x < TwoTo64 && 0 <= y < TwoTo64
    ensures r == Error <==> x == 0 || y == 0
    ensures x != 0 && y != 0 ==> r == Value(if x == P && y == 1 then P else Power(x, y) % P)
  {
    if x == 0 || y == 0 {
      return Error;
    }
    var v := PowModExact(x, y);
    r := Value(v);
  }

  /** ldhexchange */
  method Exchange(x: int) returns (r: Answer)
    requires 0 <= x < TwoTo64
    ensures r == Error <==> x == 0
    ensures x != 0 ==> r == Value(Power(G, x) % P)
  {
    if x == 0 {
      return Error;
    }
    var v := PowModExact(G, x);
    r := Value(v);
  }

  /** A public key is never zero, so the peer never rejects it. */
  lemma PublicKeyNotZero(x: nat)
    ensures 0 < Power(G, x) % P < P
  {
    var inv := (2 * P + 1) / 5;
    assert G * inv == 2 * P + 1;
    SameByMultiple(G * inv, 1, 2, P);
    GeneratorInverse(inv, x);
    var g, i := Power(G, x), Power(inv, x);
    SameMod(g, P);
    SameScale(g % P, g, i, P);
    SmallMod(1, P);
    SmallMod(0, P);
    ZeroTimes(g % P, i);
  }

  lemma ZeroTimes(r: int, i: int)
    ensures r == 0 ==> r * i == 0
  {
  }

  lemma {:induction false} GeneratorInverse(inv: int, x: nat)
    requires Same(G * inv, 1, P)
    ensures Same(Power(G, x) * Power(inv, x), 1, P)
  {
    hide Same;
    if x == 0 {
      SameByMultiple(1, 1, 0, P);
    } else {
      GeneratorInverse(inv, x - 1);
      Regroup(G, Power(G, x - 1), inv, Power(inv, x - 1));
      SameTimes(G * inv, 1, Power(G, x - 1) * Power(inv, x - 1), 1, P);
    }
  }

  /** Raising a public key to the other private key gives the power of the product. */
  lemma SharedPower(x: nat, y: nat)
    ensures Power(Power(G, x) % P, y) % P == Power(Power(G, y) % P, x) % P
  {
    SameMod(Power(G, x), P);
    SamePower(Power(G, x) % P, Power(G, x), y, P);
    PowerPower(G, x, y);
    SameMod(Power(G, y), P);
    SamePower(Power(G, y) % P, Power(G, y), x, P);
    PowerPower(G, y, x);
    assert x * y == y * x;
  }

  /** Both sides of the exchange derive the same secret, for all non-zero private keys. */
  method Agree(x: int, y: int) returns (atX: Answer, atY: Answer)
    requires 0 < x < TwoTo64 && 0 < y < TwoTo64
    ensures atX == atY && atX.Value?
  {
    hide Power;
    var pubX := Exchange(x);
    var pubY := Exchange(y);
    PublicKeyNotZero(x);
    PublicKeyNotZero(y);
    atX := Secret(pubY.v, x);
    atY := Secret(pubX.v, y);
    SharedPower(x, y);
  }
}
