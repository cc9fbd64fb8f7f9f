/** Routines of src/webclient/BigInt.js for machine integers, and the bits of an exponent. */
module BigIntPower {
  import opened Digits
  import opened BigInt
  import opened BigIntInverse

  // ---------------------------------------------------------- machine integers

  /** modInt: the remainder by a machine integer, from the top digit down. */
  method ModInt(x: array<int>, n: int) returns (c: int)
    requires AreDigits(x[..]) && n > 0
    ensures c == Value(x[..]) % n
  {
    hide Weight, Same;
    ghost var s := x[..];
    c := 0;
    var i := x.Length - 1;
    ghost var high := 0;
    NumZero(s);
    SmallMod(0, n);
    while i >= 0
      invariant -1 <= i < x.Length
      invariant c == high % n
      invariant Num(s, i + 1) + high * Weight(i + 1) == Value(s)
    {
      HornerStep(s, i, high);
      HornerMod(c, high, x[i], n);
      high := high * 32768 + s[i];
      c := (c * 32768 + x[i]) % n;
      i := i - 1;
    }
  }

  lemma HornerMod(c: int, high: int, d: int, n: int)
    requires n > 0 && c == high % n
    ensures (c * 32768 + d) % n == (high * 32768 + d) % n
  {
    SameMod(high, n);
    SameScale(c, high, 32768, n);
    SamePlus(c * 32768, high * 32768, d, d, n);
  }

  lemma HornerStep(s: seq<int>, i: nat, high: int)
    requires i < |s|
    ensures Num(s, i) + (high * 32768 + s[i]) * Weight(i) == Num(s, i + 1) + high * Weight(i + 1)
  {
    NumNext(s, i);
    WeightNext(i);
    Distribute(Weight(i), high * 32768, s[i]);
    Associate(high, 32768, Weight(i));
  }

  /** divInt_: divides in place by a machine integer. */
  method DivInt(x: array<int>, n: int) returns (r: int)
    requires AreDigits(x[..]) && 0 < n < 32768
    modifies x
    ensures AreDigits(x[..]) && Value(x[..]) == old(Value(x[..])) / n && r == old(Value(x[..])) % n
  {
    hide Weight, Num;
    ghost var s0 := x[..];
    r := 0;
    var i := x.Length - 1;
    NumZero(s0);
    while i >= 0
      invariant -1 <= i < x.Length && 0 <= r < n
      invariant AreDigits(x[..]) && forall j :: 0 <= j <= i ==> x[j] == s0[j]
      invariant n * (Value(x[..]) - Num(s0, i + 1)) + r * Weight(i + 1) == Value(s0) - Num(s0, i + 1)
    {
      var s := r * 32768 + x[i];
      QuotientDigit(s, r, n);
      ghost var x0 := x[..];
      DivIntStep(x0, s0, i, s, r, n);
      x[i] := s / n;
      assert x[..] == x0[i := s / n];
      r := s % n;
      i := i - 1;
    }
    DivisionUnique(Value(s0), n, Value(x[..]), r);
  }

  lemma QuotientDigit(s: int, r: int, n: int)
    requires 0 <= r < n && r * 32768 <= s < (r + 1) * 32768
    ensures 0 <= s / n < 32768 && 0 <= s % n < n
  {
    TimesMonotone(r + 1, n, 32768);
    var q := s / n;
    assert s == n * q + s % n;
    Gap(n, q - 32767);
    Gap(n, q);
    Distribute(n, q, 32767);
  }

  lemma DivIntStep(x: seq<int>, s0: seq<int>, i: nat, s: int, r: int, n: int)
    requires i < |x| == |s0| && x[i] == s0[i] && s == r * 32768 + x[i] && n > 0
    requires n * (Value(x) - Num(s0, i + 1)) + r * Weight(i + 1) == Value(s0) - Num(s0, i + 1)
    ensures n * (Value(x[i := s / n]) - Num(s0, i)) + s % n * Weight(i) == Value(s0) - Num(s0, i)
  {
    hide Num, Weight;
    var x', q, w := x[i := s / n], s / n, Weight(i);
    NumTail(x, x', i + 1, |x|);
    NumFrame(x, x', i);
    NumNext(x, i);
    NumNext(x', i);
    NumNext(s0, i);
    WeightNext(i);
    var d := Value(x) - Num(s0, i + 1);
    assert Value(x') - Num(s0, i) == d + q * w;
    LongDivision(n, d, q, s % n, w, r, x[i], Value(s0) - Num(s0, i + 1));
  }

  lemma LongDivision(n: int, d: int, q: int, m: int, w: int, r: int, digit: int, high: int)
    requires n * d + r * (32768 * w) == high
    requires n * q + m == r * 32768 + digit
    ensures n * (d + q * w) + m * w == high + digit * w
  {
    Distribute(n, d, q * w);
    Associate(n, q, w);
    Associate(r, 32768, w);
    assert (n * q + m) * w == (n * q) * w + m * w by { Distribute(w, n * q, m); }
    assert (r * 32768 + digit) * w == (r * 32768) * w + digit * w by { Distribute(w, r * 32768, digit); }
  }

  /** equalsInt */
  method EqualsInt(x: array<int>, y: int) returns (r: bool)
    requires x.Length > 0 && AreDigits(x[..]) && 0 <= y < 32768
    ensures r <==> Value(x[..]) == y
  {
    hide Num, Weight;
    ghost var s := x[..];
    OneDigit(s);
    if x[0] != y {
      NumMod(s, 1, |s|);
      SmallMod(x[0], 32768);
      return false;
    }
    for i := 1 to x.Length
      invariant forall j :: 1 <= j < i ==> x[j] == 0
    {
      if x[i] != 0 {
        LongerWins(s, [y], i);
        OneDigit([y]);
        return false;
      }
    }
    NumZeros(s, 1, |s|);
    return true;
  }

  lemma OneDigit(s: seq<int>)
    requires |s| > 0
    ensures Num(s, 1) == s[0] && Weight(1) == 32768
  {
    assert Num(s, 0) == 0 && Weight(0) == 1;
  }

  // ------------------------------------------------------------- bits of y

  /** `d & k2` for a power of two `k2`. */
  predicate BitSet(d: int, k2: int)
    requires k2 > 0
  {
    d / k2 % 2 == 1
  }

  /** The part of the exponent above bit `b` of digit `k`, that bit included. */
  ghost function Consumed(y: int, k: nat, b: nat): int {
    PowerTwoPositive(b);
    y / Weight(k) / Power(2, b)
  }

  /** Dividing by a bit of the lowest digit leaves the parity to that digit. */
  lemma ShiftedDigit(d: int, high: int, b: nat)
    requires 0 <= d < 32768 && b <= 14
    ensures Power(2, b) > 0
    ensures (d + 32768 * high) / Power(2, b) == d / Power(2, b) + 2 * (Power(2, 14 - b) * high)
  {
    PowerTwoPositive(b);
    Power15();
    PowerAdd(2, b, 15 - b);
    assert Power(2, 15 - b) == 2 * Power(2, 14 - b);
    SplitQuotient(d, high, Power(2, b), Power(2, 14 - b));
  }

  lemma SplitQuotient(d: int, high: int, p: int, q: int)
    requires p > 0 && p * (2 * q) == 32768
    ensures (d + 32768 * high) / p == d / p + 2 * (q * high)
  {
    var e := 2 * (q * high);
    assert 32768 * high == p * e by { Associate(p, 2 * q, high); Associate(2, q, high); }
    Distribute(p, d / p, e);
    DivisionUnique(d + 32768 * high, p, d / p + e, d % p);
  }

  lemma DigitAbove(s: seq<int>, k: nat)
    requires AreDigits(s) && k < |s|
    ensures Value(s) / Weight(k) == s[k] + 32768 * (Value(s) / Weight(k + 1))
  {
    hide Num, Weight;
    NumMod(s, k, |s|);
    NumMod(s, k + 1, |s|);
    NumNext(s, k);
    WeightNext(k);
    NumBounds(s, k);
    var v, w := Value(s), Weight(k);
    var h := v / (32768 * w);
    assert v == 32768 * w * h + Num(s, k + 1);
    Associate(32768, w, h);
    Distribute(w, s[k], 32768 * h);
    Associate(w, 32768, h);
    DivisionUnique(v, w, s[k] + 32768 * h, Num(s, k));
  }

  /** The next bit of the exponent doubles what was consumed and adds the bit. */
  lemma NextBit(s: seq<int>, k: nat, b: nat)
    requires AreDigits(s) && k < |s| && b <= 13
    ensures Power(2, b) > 0
    ensures Consumed(Value(s), k, b) == 2 * Consumed(Value(s), k, b + 1) + if BitSet(s[k], Power(2, b)) then 1 else 0
  {
    hide Num, Weight;
    DigitAbove(s, k);
    var d, h := s[k], Value(s) / Weight(k + 1);
    ShiftedDigit(d, h, b);
    ShiftedDigit(d, h, b + 1);
    HalfAgain(d, b);
    assert Power(2, 14 - b) == 2 * Power(2, 13 - b);
    Associate(2, Power(2, 13 - b), h);
  }

  lemma HalfAgain(d: int, b: nat)
    requires d >= 0
    ensures Power(2, b) > 0 && d / Power(2, b) == 2 * (d / Power(2, b + 1)) + d / Power(2, b) % 2
  {
    PowerTwoPositive(b);
    HalveQuotient(d, Power(2, b));
  }

  lemma HalveQuotient(d: int, p: int)
    requires p > 0
    ensures d / p == 2 * (d / (2 * p)) + d / p % 2
  {
    var q, m := d / p, d % p;
    var h, l := q / 2, q % 2;
    assert d == p * q + m;
    assert p * q == 2 * p * h + p * l by { Distribute(p, 2 * h, l); Associate(p, 2, h); }
    TimesMonotone(l, 1, p);
    TimesMonotone(0, l, p);
    DivisionUnique(d, 2 * p, h, p * l + m);
  }

  lemma NextDigit(s: seq<int>, k: nat)
    requires AreDigits(s) && k + 1 < |s|
    ensures Consumed(Value(s), k, 14) == 2 * Consumed(Value(s), k + 1, 0) + if BitSet(s[k], 16384) then 1 else 0
  {
    hide Num, Weight;
    DigitAbove(s, k);
    var d, h := s[k], Value(s) / Weight(k + 1);
    ShiftedDigit(d, h, 14);
    Power14();
  }

  lemma Power14()
    ensures Power(2, 14) == 16384
  {
    Power15();
    assert Power(2, 15) == 2 * Power(2, 14);
  }

  lemma AllConsumed(y: int)
    ensures Consumed(y, 0, 0) == y
  {
    assert Weight(0) == 1 && Power(2, 0) == 1;
  }

  /** The first one bit of the first non-zero digit. */
  lemma FirstBit(s: seq<int>, k: nat, b: nat)
    requires AreDigits(s) && k < |s| && b <= 14 && forall i :: k < i < |s| ==> s[i] == 0
    requires Power(2, b) > 0 && s[k] / Power(2, b) == 1
    ensures Consumed(Value(s), k, b) == 1
  {
    hide Num, Weight;
    DigitAbove(s, k);
    NumZeros(s, k + 1, |s|);
    NumBounds(s, k + 1);
    SmallMod(Value(s), Weight(k + 1));
  }
}
