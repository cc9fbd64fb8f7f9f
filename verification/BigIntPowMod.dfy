/** powMod_ and powMod of src/webclient/BigInt.js. */
module BigIntPowMod {
  import opened Digits
  import opened Montgomery
  import opened BigInt
  import opened BigIntMont
  import opened BigIntDivide
  import opened BigIntModular
  import opened BigIntPowEven
  import opened BigIntInverse
  import opened BigIntPower

  /**
   * The scratch array of mont_ has room for twice the modulus: `n` has two
   * leading zero digits, or one and a top digit below half the radix.
   */
  ghost predicate Roomy(ns: seq<int>) {
    2 * Value(ns) <= Weight(Width(|ns|, Used(ns, |ns|)))
  }

  /** Two leading zeros, which powMod asks trim for, are always enough. */
  lemma TwoZerosAreRoomy(ns: seq<int>)
    requires AreDigits(ns) && |ns| >= Used(ns, |ns|) + 2
    ensures Roomy(ns)
  {
    hide Weight, Num;
    ValueUsed(ns);
    var kn := Used(ns, |ns|);
    WeightNext(kn);
    WeightMonotone(kn + 1, Width(|ns|, kn));
  }

  lemma RoomyMont(xs: seq<int>, ys: seq<int>, ns: seq<int>, np: int)
    requires AreDigits(xs) && AreDigits(ys) && AreDigits(ns)
    requires Value(xs) < Value(ns) && Value(ys) <= Value(ns) && NegInverse(Value(ns), np)
    ensures var k := Used(ns, |ns|);
      Roomy(ns) ==> Fits(xs, Value(ys), Value(ns), np, Width(|ns|, k), k)
  {
    hide Weight, Num, NegInverse, Fits, AreDigits, Used;
    var k := Used(ns, |ns|);
    MontSizes(xs, ys, ns, np, k, Width(|ns|, k));
    if Roomy(ns) {
      RoomyFits(xs, Value(ys), Value(ns), np, Width(|ns|, k), k);
    }
  }

  // --------------------------------------------------------- Montgomery form

  /** `v` is the Montgomery form of `b` to the power `e`. */
  ghost predicate FormOf(v: int, b: int, e: nat, k: nat, n: int)
    requires n > 0
  {
    Same(v, Power(b, e) * Weight(k), n)
  }

  /** A Montgomery product of two forms is the form of the product. */
  lemma FormTimes(v: int, u: int, r: int, b: int, i: nat, j: nat, k: nat, n: int, np: int)
    requires n > 0 && NegInverse(n, np) && FormOf(v, b, i, k, n) && FormOf(u, b, j, k, n)
    requires Same(r * Weight(k), v * u, n)
    ensures FormOf(r, b, i + j, k, n)
  {
    hide NegInverse, Weight, Power;
    var w, p, q := Weight(k), Power(b, i), Power(b, j);
    SameTimes(v, p * w, u, q * w, n);
    PowerAdd(b, i, j);
    assert (p * w) * (q * w) == (p * q * w) * w by {
      Regroup(p, w, q, w);
      Associate(p * q, w, w);
    }
    CancelWeight(n, np, k, r, p * q * w);
  }

  /** A Montgomery product with one leaves the form. */
  lemma FormLeave(v: int, r: int, b: int, e: nat, k: nat, n: int, np: int)
    requires n > 0 && NegInverse(n, np) && FormOf(v, b, e, k, n)
    requires Same(r * Weight(k), v * 1, n) && 0 <= r < n
    ensures r == Power(b, e) % n
  {
    hide NegInverse, Weight, Power;
    CancelWeight(n, np, k, r, Power(b, e));
    SmallMod(r, n);
  }

  // ------------------------------------------------------------ odd modulus

  /** np, from the inverse of the lowest digit. */
  method NegatedInverse(n: array<int>) returns (np: int)
    requires n.Length > 0 && AreDigits(n[..]) && n[0] % 2 == 1
    ensures NegInverse(Value(n[..]), np) && 0 <= np <= 65536
  {
    hide Same, Coprime, NegInverse;
    var low := ModInt(n, 32768);
    OddLowest(n[..], low);
    OddCoprime(low);
    var inv := InverseModInt(low, 32768);
    np := 32768 - inv;
    NegatedIs(Value(n[..]), low, inv);
  }

  lemma OddLowest(ns: seq<int>, low: int)
    requires AreDigits(ns) && |ns| > 0 && low == Value(ns) % 32768
    ensures low == ns[0]
  {
    NumMod(ns, 1, |ns|);
    OneDigit(ns);
  }

  lemma NegatedIs(n: int, low: int, inv: int)
    requires low == n % 32768 && Same(inv * low, 1, 32768)
    ensures NegInverse(n, 32768 - inv)
  {
    var a := n / 32768;
    var k := SameMultiple(inv * low, 1, 32768);
    Distribute(inv, low, 32768 * a);
    Associate(inv, 32768, a);
    Distribute(n, 32768, inv);
    SameByMultiple(n * (32768 - inv) + 1, 0, n - k - inv * a, 32768);
  }

  /** x = x * radix^kn mod n: the step into Montgomery form, by way of s7. */
  method EnterForm(x: array<int>, n: array<int>)
    requires x != n && n.Length >= 2 && AreDigits(x[..]) && AreDigits(n[..])
    requires Value(n[..]) > 0 && n[n.Length - 1] == 0
    requires Used(n[..], n.Length) < x.Length && n.Length <= x.Length + 1
    modifies x, n
    ensures AreDigits(x[..]) && n[..] == old(n[..])
    ensures Value(x[..]) == old(Value(x[..])) * Weight(Used(n[..], n.Length)) % Value(n[..])
  {
    hide Weight, Num, AreDigits, Value, Used;
    ghost var ns := n[..];
    PositiveDivisor(ns);
    var s7 := new int[n.Length];
    CopyInt(s7, 0);
    var kn := SkipZeros(n);
    EnterRoom(x[..], ns, kn);
    s7[kn] := 1;
    PowerOfRadix(s7[..], kn);
    assert n[..] == ns;
    SpareDigitDivides(Value(x[..]) * Value(s7[..]) % Weight(2 * x.Length), ns, 2 * x.Length);
    var _ := MultMod(x, s7, n);
  }

  lemma PowerOfRadix(s: seq<int>, k: nat)
    requires k < |s| && s[k] == 1 && forall i :: 0 <= i < |s| && i != k ==> s[i] == 0
    ensures AreDigits(s) && Value(s) == Weight(k)
  {
    NumZeros(s, 0, k);
    NumNext(s, k);
    NumZeros(s, k + 1, |s|);
  }

  lemma EnterRoom(xs: seq<int>, ns: seq<int>, kn: nat)
    requires AreDigits(xs) && AreDigits(ns) && kn == Used(ns, |ns|) < |xs| && |ns| >= 2 && ns[|ns| - 1] == 0
    ensures kn < |ns| && Value(xs) * Weight(kn) < Weight(2 * |xs| - 1) && Value(ns) <= Weight(|xs|)
  {
    hide Weight, Num;
    NumBounds(xs, |xs|);
    ValueUsed(ns);
    WeightMonotone(kn, |xs|);
    WeightAdd(|xs|, kn);
    WeightMonotone(|xs| + kn, 2 * |xs| - 1);
    Strict(Value(xs), Weight(|xs|), Weight(kn));
  }

  /** mont_ on two Montgomery forms. */
  method MontForms(x: array<int>, y: array<int>, n: array<int>, np: int, ghost b: int, ghost i: nat, ghost j: nat)
    requires x != n && y != n && y.Length > 0 && n.Length > 0
    requires AreDigits(x[..]) && AreDigits(y[..]) && AreDigits(n[..])
    requires Value(x[..]) < Value(n[..]) && Value(y[..]) < Value(n[..]) && Value(n[..]) > 0
    requires NegInverse(Value(n[..]), np) && 0 <= np <= 65536
    requires Used(n[..], n.Length) <= x.Length
    requires Roomy(n[..]) ==> FormOf(Value(x[..]), b, i, Used(n[..], n.Length), Value(n[..]))
    requires Roomy(n[..]) ==> FormOf(Value(y[..]), b, j, Used(n[..], n.Length), Value(n[..]))
    modifies x
    ensures AreDigits(x[..]) && 0 <= Value(x[..]) < Value(n[..])
    ensures Roomy(n[..]) ==> FormOf(Value(x[..]), b, i + j, Used(n[..], n.Length), Value(n[..]))
  {
    hide Roomy, FormOf, NegInverse, Same, Fits, Value, Used, AreDigits, Weight;
    ghost var xs, ys, ns := x[..], y[..], n[..];
    RoomyMont(xs, ys, ns, np);
    Mont(x, y, n, np);
    assert n[..] == ns;
    if Roomy(ns) {
      FormTimes(Value(xs), Value(ys), Value(x[..]), b, i, j, Used(ns, |ns|), Value(ns), np);
    }
  }

  /** mont_ with the constant `one`: the step out of Montgomery form. */
  method LeaveForm(x: array<int>, n: array<int>, np: int, ghost b: int, ghost e: nat)
    requires x != n && n.Length > 0 && AreDigits(x[..]) && AreDigits(n[..]) && Value(x[..]) < Value(n[..])
    requires Value(n[..]) > 0 && NegInverse(Value(n[..]), np) && 0 <= np <= 65536
    requires Used(n[..], n.Length) <= x.Length
    requires Roomy(n[..]) ==> FormOf(Value(x[..]), b, e, Used(n[..], n.Length), Value(n[..]))
    modifies x
    ensures AreDigits(x[..]) && 0 <= Value(x[..]) < Value(n[..])
    ensures Roomy(n[..]) ==> Value(x[..]) == Power(b, e) % Value(n[..])
  {
    hide Roomy, FormOf, NegInverse, Same, Fits, Value, Used, AreDigits, Weight;
    ghost var xs, ns := x[..], n[..];
    var one := new int[2];
    CopyInt(one, 1);
    OneIsOne(one[..]);
    RoomyMont(xs, one[..], ns, np);
    assert x[..] == xs && n[..] == ns;
    Mont(x, one, n, np);
    assert n[..] == ns;
    if Roomy(ns) {
      FormLeave(Value(xs), Value(x[..]), b, e, Used(ns, |ns|), Value(ns), np);
    }
  }

  lemma OneIsOne(s: seq<int>)
    requires |s| == 2 && Value(s) == 1 % Weight(2)
    ensures Value(s) == 1
  {
    assert Weight(2) == 32768 * Weight(1);
    SmallMod(1, Weight(2));
  }

  /** Finds the first one bit of y: digit `k1`, bit mask `k2`; or that y is zero. */
  method FirstOne(y: array<int>) returns (k1: nat, k2: int, ghost b: nat)
    requires y.Length > 0 && AreDigits(y[..])
    ensures k2 == 0 <==> Value(y[..]) == 0
    ensures k2 != 0 ==> k1 < y.Length && b <= 14 && k2 == Power(2, b) && Consumed(Value(y[..]), k1, b) == 1
  {
    hide Num, Weight, Consumed;
    ghost var ys := y[..];
    k1 := y.Length - 1;
    while k1 > 0 && y[k1] == 0
      invariant k1 < y.Length && forall i :: k1 < i < y.Length ==> y[i] == 0
    {
      k1 := k1 - 1;
    }
    b := 14;
    if y[k1] == 0 {
      NumZeros(ys, 0, |ys|);
      NumZero(ys);
      return k1, 0, b;
    }
    ValueUsed(ys);
    k2 := 16384;
    Power14();
    while !BitSet(y[k1], k2)
      invariant b <= 14 && k2 == Power(2, b) >= 1 && y[k1] < 2 * k2
      decreases k2
    {
      TopBit(y[k1], k2);
      assert b == 0 ==> k2 == 1;
      b := b - 1;
      k2 := k2 / 2;
    }
    TopBit(y[k1], k2);
    FirstBit(ys, k1, b);
  }

  lemma TopBit(d: int, k2: int)
    requires 0 < d < 2 * k2
    ensures BitSet(d, k2) <==> d >= k2
    ensures BitSet(d, k2) ==> d / k2 == 1
  {
    if d >= k2 {
      DivisionUnique(d, k2, 1, d - k2);
    } else {
      SmallMod(d, k2);
    }
  }

  /** The bits of y from the first one down, each a squaring and perhaps a product. */
  method Exponentiate(x: array<int>, s3: array<int>, y: array<int>, n: array<int>, np: int,
                      first1: nat, first2: int, ghost bit: nat, ghost g: int)
    requires x != n && x != s3 && x != y && s3 != n && s3.Length > 0 && n.Length > 0
    requires AreDigits(x[..]) && x[..] == s3[..] && AreDigits(y[..]) && AreDigits(n[..])
    requires Value(x[..]) < Value(n[..]) && Value(n[..]) > 0
    requires NegInverse(Value(n[..]), np) && 0 <= np <= 65536 && Used(n[..], n.Length) <= x.Length
    requires first1 < y.Length && bit <= 14 && first2 == Power(2, bit) && Consumed(Value(y[..]), first1, bit) == 1
    requires FormOf(Value(x[..]), g, 1, Used(n[..], n.Length), Value(n[..]))
    modifies x
    ensures AreDigits(x[..]) && 0 <= Value(x[..]) < Value(n[..])
    ensures Value(y[..]) >= 0 && (Roomy(n[..]) ==> Value(x[..]) == Power(g, Value(y[..])) % Value(n[..]))
  {
    hide Roomy, FormOf, NegInverse, Value, Used, AreDigits, Weight, Consumed, Power;
    ghost var ss, ys, ns := s3[..], y[..], n[..];
    ghost var kn, nv, yv := Used(ns, |ns|), Value(ns), Value(ys);
    var k1: int, k2 := first1, first2;
    ghost var b, e: nat := bit, 1;
    while true
      invariant 0 <= k1 < y.Length && b <= 14 && k2 == Power(2, b) && e == Consumed(yv, k1, b)
      invariant s3[..] == ss && y[..] == ys && n[..] == ns
      invariant AreDigits(x[..]) && Value(x[..]) < nv
      invariant Roomy(ns) ==> FormOf(Value(x[..]), g, e, kn, nv)
      decreases k1, k2
    {
      Halving(b);
      k2 := k2 / 2;
      if k2 == 0 {
        k1 := k1 - 1;
        if k1 < 0 {
          AllConsumed(yv);
          LeaveForm(x, n, np, g, e);
          assert y[..] == ys && n[..] == ns;
          return;
        }
        k2 := 16384;
        Power14();
        DigitIn(ys, k1);
        NextDigit(ys, k1);
        b := 14;
      } else {
        b := b - 1;
        NextBit(ys, k1, b);
      }
      MontForms(x, x, n, np, g, e, e);
      assert s3[..] == ss && y[..] == ys && n[..] == ns;
      if BitSet(y[k1], k2) {
        MontForms(x, s3, n, np, g, e + e, 1);
        assert s3[..] == ss && y[..] == ys && n[..] == ns;
      }
      e := e + e + if BitSet(y[k1], k2) then 1 else 0;
    }
  }

  lemma Halving(b: nat)
    ensures b == 0 ==> Power(2, b) / 2 == 0
    ensures b > 0 ==> Power(2, b) / 2 == Power(2, b - 1) >= 1
  {
    if b > 0 {
      PowerTwoPositive(b - 1);
    }
  }

  /** powMod_ for odd n: Montgomery exponentiation (algorithm 14.94 of the Handbook of Applied Cryptography). */
  method PowModOdd(x: array<int>, y: array<int>, n: array<int>)
    requires x != n && x != y && y != n && n.Length >= 2 && y.Length > 0
    requires AreDigits(x[..]) && AreDigits(y[..]) && AreDigits(n[..])
    requires n[n.Length - 1] == 0 && n[0] % 2 == 1
    requires Used(n[..], n.Length) < x.Length && n.Length <= x.Length + 1
    modifies x, n
    ensures n[..] == old(n[..])
    ensures AreDigits(x[..]) && Value(n[..]) > 0 && Value(y[..]) >= 0
    ensures Value(y[..]) == 0 ==> Value(x[..]) == 1
    ensures Value(y[..]) > 0 ==> 0 <= Value(x[..]) < Value(n[..])
    ensures Value(y[..]) > 0 && Roomy(n[..]) ==> Value(x[..]) == Power(old(Value(x[..])), Value(y[..])) % Value(n[..])
  {
    hide Roomy, FormOf, NegInverse, Value, Used, AreDigits, Weight, Consumed, Power;
    ghost var xs, ys, ns := x[..], y[..], n[..];
    OddIsPositive(ns, ys);
    var np := NegatedInverse(n);
    EnterForm(x, n);
    assert y[..] == ys && n[..] == ns;
    var s3 := new int[x.Length];
    Copy(s3, x);
    assert s3[..] == x[..];
    assert y[..] == ys && n[..] == ns;
    var k1, k2, b := FirstOne(y);
    if k2 == 0 {
      CopyInt(x, 1);
      OneInArray(x[..]);
      assert y[..] == ys && n[..] == ns;
      return;
    }
    EnteredForm(Value(x[..]), Value(xs), Used(ns, |ns|), Value(ns));
    Exponentiate(x, s3, y, n, np, k1, k2, b, Value(xs));
    assert y[..] == ys && n[..] == ns;
  }

  lemma EnteredForm(v: int, g: int, k: nat, n: int)
    requires n > 0 && v == g * Weight(k) % n
    ensures 0 <= v < n && FormOf(v, g, 1, k, n)
  {
    assert Power(g, 1) == g * Power(g, 0) == g;
    SameMod(g * Weight(k), n);
  }

  lemma OddIsPositive(ns: seq<int>, ys: seq<int>)
    requires AreDigits(ns) && AreDigits(ys) && |ns| > 0 && ns[0] % 2 == 1
    ensures Value(ns) > 0 && Value(ys) >= 0
  {
    NumBounds(ys, |ys|);
    NumGrows(ns, 1, |ns|);
    OneDigit(ns);
  }

  // ---------------------------------------------------------- powMod_, powMod

  /** powMod_ */
  method PowModInPlace(x: array<int>, y: array<int>, n: array<int>)
    requires x != n && x != y && y != n && n.Length >= 2 && y.Length > 0
    requires AreDigits(x[..]) && AreDigits(y[..]) && AreDigits(n[..])
    requires n[n.Length - 1] == 0 && Value(n[..]) > 0
    requires Used(n[..], n.Length) < x.Length && n.Length <= x.Length + 1
    modifies x, y, n
    ensures AreDigits(x[..]) && old(Value(y[..])) >= 0 && n[..] == old(n[..])
    ensures n[0] % 2 == 1 && Roomy(n[..]) && old(Value(y[..])) > 0 ==>
      Value(x[..]) == Power(old(Value(x[..])), old(Value(y[..]))) % Value(n[..])
    ensures old(Value(y[..])) == 0 ==> Value(x[..]) == 1
    ensures n[0] % 2 == 0 ==>
      Divisor(n[..]) &&
      Value(x[..]) == EvenPower(1, old(Value(x[..])) % Weight(n.Length), old(Value(y[..])), n[..])
  {
    ghost var ns, xv := n[..], Value(x[..]);
    hide Value, Used, AreDigits, Weight, Roomy, EvenPower;
    PositiveDivisor(ns);
    if n[0] % 2 == 0 {
      NoExponent(1, xv % Weight(|ns|), ns);
      PowModEven(x, y, n);
    } else {
      PowModOdd(x, y, n);
    }
    assert n[..] == ns;
  }

  /** A number with exactly `k` leading zeros. */
  ghost function Trimmed(xs: seq<int>, k: nat): seq<int> {
    xs[..Used(xs, |xs|)] + seq(k, _ => 0)
  }

  /** trim: a copy with exactly `k` leading zeros. */
  method Trim(x: array<int>, k: nat) returns (y: array<int>)
    requires AreDigits(x[..])
    ensures fresh(y) && AreDigits(y[..]) && Value(y[..]) == Value(x[..]) && y[..] == Trimmed(x[..], k)
    ensures Used(y[..], y.Length) == Used(x[..], x.Length)
  {
    hide Weight, Num;
    ghost var xs := x[..];
    var i := SkipZeros(x);
    y := new int[i + k];
    Copy(y, x);
    ValueUsed(xs);
    NumBounds(xs, |xs|);
    WeightMonotone(i, i + k);
    SmallMod(Value(xs), Weight(i + k));
    SameUsed(y[..], xs, i, i + k);
    assert y[..] == Trimmed(xs, k);
  }

  lemma {:induction false} SameUsed(s: seq<int>, t: seq<int>, u: nat, k: nat)
    requires u == Used(t, |t|) <= k <= |s|
    requires forall i :: 0 <= i < |s| ==> s[i] == Digit(t, i)
    ensures Used(s, k) == u
  {
    if k > u {
      SameUsed(s, t, u, k - 1);
    }
  }

  /** expand: a copy with at least `n` digits, and a leading zero. */
  method Expand(x: array<int>, n: nat) returns (y: array<int>)
    requires AreDigits(x[..])
    ensures fresh(y) && AreDigits(y[..]) && Value(y[..]) == Value(x[..])
    ensures y.Length == (if x.Length > n then x.Length else n) + 1
    ensures forall i :: 0 <= i < y.Length ==> y[i] == Digit(x[..], i)
  {
    hide Weight, Num;
    ghost var xs := x[..];
    y := new int[(if x.Length > n then x.Length else n) + 1];
    Copy(y, x);
    NumBounds(xs, x.Length);
    WeightMonotone(x.Length, y.Length);
    SmallMod(Value(xs), Weight(y.Length));
  }

  /**
   * powMod: x^y mod n for every odd n; for even n the loop for even moduli on
   * the trimmed n.
   */
  method PowMod(x: array<int>, y: array<int>, n: array<int>) returns (r: array<int>)
    requires AreDigits(x[..]) && AreDigits(y[..]) && AreDigits(n[..]) && Value(n[..]) > 1
    ensures AreDigits(r[..]) && Value(y[..]) >= 0
    ensures n[0] % 2 == 1 ==> Value(r[..]) == Power(Value(x[..]), Value(y[..])) % Value(n[..])
    ensures n[0] % 2 == 0 ==>
      Divisor(Trimmed(n[..], 2)) &&
      Value(r[..]) == EvenPower(1, Value(x[..]) % Weight(Used(n[..], n.Length) + 2), Value(y[..]), Trimmed(n[..], 2))
  {
    hide Value, Weight, Roomy, AreDigits, EvenPower, Divisor, Used, Trimmed, Power;
    ghost var xs, ys, ns := x[..], y[..], n[..];
    PowerZero(xs, ys, ns);
    var ans := Expand(x, n.Length);
    var y2 := Trim(y, 2);
    var n2 := Trim(n, 2);
    TrimmedParts(ns, n2[..]);
    TrimmedParts(ys, y2[..]);
    assert n2[..][0] == n2[0] && n2[..][n2.Length - 1] == n2[n2.Length - 1];
    TwoZerosAreRoomy(n2[..]);
    PowModInPlace(ans, y2, n2);
    assert x[..] == xs && y[..] == ys && n[..] == ns;
    r := Trim(ans, 1);
    assert x[..] == xs && y[..] == ys && n[..] == ns;
  }

  lemma TrimmedParts(ns: seq<int>, t: seq<int>)
    requires t == Trimmed(ns, 2)
    ensures |t| == Used(ns, |ns|) + 2 && t[|t| - 1] == 0 && (Used(ns, |ns|) > 0 ==> |ns| > 0 && t[0] == ns[0])
  {
  }

  lemma PowerZero(xs: seq<int>, ys: seq<int>, ns: seq<int>)
    requires AreDigits(xs) && AreDigits(ys) && AreDigits(ns) && Value(ns) > 1
    ensures Used(ns, |ns|) > 0 && |ns| > 0 && Value(ys) >= 0
    ensures forall b :: Value(ys) == 0 ==> Power(b, Value(ys)) % Value(ns) == 1
  {
    ValueUsed(ns);
    NumBounds(ys, |ys|);
    SmallMod(1, Value(ns));
  }
}
