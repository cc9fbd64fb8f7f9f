/** mod_ and multMod_ of src/webclient/BigInt.js. */
module BigIntModular {
  import opened Digits
  import opened BigInt
  import opened BigIntQuotient
  import opened BigIntDivide

  // ------------------------------------------------- what divide_ leaves

  /** What leftShift_ keeps: numbers below this survive the normalisation of an array of `len` digits. */
  ghost function Room(ys: seq<int>, len: nat): int
    requires Divisor(ys) && len >= 1
  {
    Weight(len) / Scale(ys[Used(ys, |ys|) - 1])
  }

  lemma RoomIs(ys: seq<int>, len: nat)
    requires Divisor(ys) && len >= 1
    ensures Room(ys, len) * Scale(ys[Used(ys, |ys|) - 1]) == Weight(len) && Room(ys, len) >= Weight(len - 1)
  {
    hide Weight, Scale, Power;
    var p := Scale(ys[Used(ys, |ys|) - 1]);
    var b := ScaleBounds(ys[Used(ys, |ys|) - 1]);
    var c := Power(2, b);
    WeightNext(len - 1);
    var w := Weight(len - 1);
    Associate(p, c, w);
    PowerTwoPositive(b);
    DivisionUnique(Weight(len), p, c * w, 0);
    TimesMonotone(1, c, w);
  }

  /** The dividend, normalised, is too large for its array and starts like the divisor. */
  ghost predicate Clogged(x: int, ys: seq<int>, len: nat)
    requires Divisor(ys) && |ys| <= len
  {
    var ky, p := Used(ys, |ys|), Scale(ys[Used(ys, |ys|) - 1]);
    Capped(x * p % Weight(len), Value(ys) * p, ky, len)
  }

  lemma ModScale(a: int, b: int, p: int)
    requires b > 0 && p > 0
    ensures b * p > 0 && a * p % (b * p) == a % b * p
  {
    Strict(0, b, p);
    assert a == b * (a / b) + a % b;
    Distribute(p, b * (a / b), a % b);
    Associate(p, b, a / b);
    TimesMonotone(0, a % b, p);
    Strict(a % b, b, p);
    DivisionUnique(a * p, b * p, a / b, a % b * p);
  }

  /** Unless clogged, divide_ leaves the remainder of what the shift keeps. */
  lemma LeavesExact(x: int, ys: seq<int>, len: nat)
    requires Divisor(ys) && |ys| <= len && 0 <= x && !Clogged(x, ys, len)
    ensures Value(ys) > 0 && Room(ys, len) > 0 && Leaves(x, ys, len) == x % Room(ys, len) % Value(ys)
  {
    hide Weight, Scale, Room, Value, Capped, DivRemainder, Normal;
    var ky, p := Used(ys, |ys|), Scale(ys[Used(ys, |ys|) - 1]);
    ScaledDivisor(ys);
    RoomIs(ys, len);
    var c, n := Room(ys, len), Value(ys);
    ModScale(x, c, p);
    var r := x % c;
    ModScale(r, n, p);
    DivisionRest(x * p, Weight(len));
    DivRemainderExact(r * p, n * p, ky, len);
    DivisionUnique(r % n * p, p, r % n, 0);
  }

  /** Whatever the dividend, divide_ leaves a number congruent to what the shift keeps. */
  lemma LeavesSame(x: int, ys: seq<int>, len: nat)
    requires Divisor(ys) && |ys| <= len && 0 <= x
    ensures Value(ys) > 0 && Room(ys, len) > 0
    ensures Leaves(x, ys, len) >= 0 && Same(Leaves(x, ys, len), x % Room(ys, len), Value(ys))
  {
    hide Weight, Scale, Room, Value, DivRemainder, Normal, Same;
    var ky, p := Used(ys, |ys|), Scale(ys[Used(ys, |ys|) - 1]);
    ScaledDivisor(ys);
    RoomIs(ys, len);
    var c, n := Room(ys, len), Value(ys);
    ModScale(x, c, p);
    var r := x % c;
    DivisionRest(x * p, Weight(len));
    var q := DivRemainderSafe(r * p, n * p, ky, len);
    Unscaled(r, n, p, q, DivRemainder(r * p, n * p, ky, len));
    SameByMultiple(r + n * q, r, q, n);
  }

  lemma Unscaled(r: int, n: int, p: int, q: int, rest: int)
    requires p > 0 && rest == r * p + n * p * q && rest >= 0
    ensures rest / p == r + n * q && r + n * q >= 0
  {
    Associate(p, n, q);
    Distribute(p, r, n * q);
    DivisionUnique(rest, p, r + n * q, 0);
    if r + n * q < 0 {
      Gap(p, r + n * q);
    }
  }

  /** A dividend with a leading zero digit leaves its remainder. */
  lemma LeavesPlain(x: int, ys: seq<int>, len: nat)
    requires Divisor(ys) && |ys| <= len && 0 <= x < Weight(len - 1)
    ensures Value(ys) > 0 && Leaves(x, ys, len) == x % Value(ys)
  {
    hide Weight, Room, Value, Scale, Leaves;
    RoomToShift(x, ys, len);
    LeavesExact(x, ys, len);
    RoomIs(ys, len);
    SmallMod(x, Room(ys, len));
  }

  /** A divisor with a leading zero digit never gets stuck. */
  lemma SpareDigitDivides(x: int, ys: seq<int>, len: nat)
    requires Divisor(ys) && |ys| <= len && ys[|ys| - 1] == 0
    ensures Divides(x, ys, len)
  {
    ScaledDivisor(ys);
    hide Scale, Weight, Value, Size, Normal;
  }

  /**
   * A divisor without one: 10000 * radix by 20000 * radix + 5. The second scan
   * of greaterShift meets the digit 10000 and the larger divisor is subtracted.
   */
  lemma StuckExample(ys: seq<int>)
    requires ys == [5, 20000]
    ensures Divisor(ys) && 10000 * Weight(1) < Weight(2) && !Divides(10000 * Weight(1), ys, 3)
  {
    var w := Weight(1);
    SmallWeights();
    assert Num(ys, 1) == Num(ys, 0) + Digit(ys, 0) * Weight(0) && Num(ys, 2) == Num(ys, 1) + Digit(ys, 1) * Weight(1);
    assert Value(ys) == 20000 * w + 5 && Used(ys, 2) == 2;
    assert Scale(20000) == 1;
    ScaledDivisor(ys);
    var r := 10000 * w;
    SizeIs(r, 2);
    hide Weight, Size, Num, Scale;
    SmallMod(r, Weight(3));
    SmallMod(r, Value(ys));
    assert Raise(Value(ys), 2, 2) == Value(ys) * Weight(0);
  }

  lemma SmallWeights()
    ensures Weight(0) == 1 && Weight(1) == 0x8000 && Weight(2) == 0x4000_0000 && Weight(3) == 0x2000_0000_0000
  {
    assert Weight(1) == 32768 * Weight(0) && Weight(2) == 32768 * Weight(1) && Weight(3) == 32768 * Weight(2);
  }

  // -------------------------------------------------------------- mod_, multMod_

  /** mod_, by way of divide_. */
  method Mod(x: array<int>, n: array<int>) returns (ok: bool)
    requires x != n && x.Length >= n.Length >= 2
    requires AreDigits(x[..]) && Divisor(n[..])
    modifies x, n
    ensures ok <==> Divides(old(Value(x[..])), old(n[..]), x.Length)
    ensures ok ==> n[..] == old(n[..]) && AreDigits(x[..]) && Value(x[..]) == Leaves(old(Value(x[..])), n[..], x.Length)
    ensures ok && old(x[x.Length - 1]) == 0 ==> Value(n[..]) > 0 && Value(x[..]) == old(Value(x[..])) % Value(n[..])
  {
    hide Weight, AreDigits, Value, Divides, Leaves, Divisor;
    ghost var xs, ns := x[..], n[..];
    var s4 := new int[x.Length];
    Copy(s4, x);
    assert s4[..] == xs && x[..] == xs && n[..] == ns;
    var s5 := new int[x.Length];
    assert s4[..] == xs && n[..] == ns;
    ok := Divide(s4, n, s5, x);
    assert s4[..] == xs;
  }

  /** multMod_: schoolbook product into a double-length array, what divide_ leaves of it, cut to the length of x. */
  method MultMod(x: array<int>, y: array<int>, n: array<int>) returns (ok: bool)
    requires x != n && x != y && y != n && 2 * x.Length >= n.Length >= 2
    requires AreDigits(x[..]) && AreDigits(y[..]) && Divisor(n[..])
    modifies x, n
    ensures ok <==> Divides(old(Value(x[..]) * Value(y[..])) % Weight(2 * x.Length), old(n[..]), 2 * x.Length)
    ensures ok ==> n[..] == old(n[..]) && AreDigits(x[..])
    ensures var v, len := old(Value(x[..]) * Value(y[..])) % Weight(2 * x.Length), 2 * x.Length;
      ok ==> Value(x[..]) == Leaves(v, n[..], len) % Weight(x.Length)
    ensures ok && old(Value(x[..]) * Value(y[..])) < Weight(2 * x.Length - 1) && Value(n[..]) <= Weight(x.Length) ==>
      Value(n[..]) > 0 && Value(x[..]) == old(Value(x[..]) * Value(y[..])) % Value(n[..])
  {
    hide Num, Weight, AreDigits, Divisor, Leaves, Divides;
    ghost var xs, ys, ns := x[..], y[..], n[..];
    var s0 := Product(x, y);
    assert x[..] == xs && n[..] == ns;
    ok := Mod(s0, n);
    if !ok {
      return;
    }
    assert x[..] == xs && n[..] == ns;
    Copy(x, s0);
    assert n[..] == ns;
    ProductReduced(xs, ys, ns);
  }

  /** The double-length product. */
  method Product(x: array<int>, y: array<int>) returns (s0: array<int>)
    requires AreDigits(x[..]) && AreDigits(y[..])
    ensures fresh(s0) && s0.Length == 2 * x.Length && AreDigits(s0[..])
    ensures Value(s0[..]) == Value(x[..]) * Value(y[..]) % Weight(2 * x.Length)
  {
    hide Num, Weight, AreDigits;
    ghost var xs, ys := x[..], y[..];
    ghost var xv := Value(xs);
    s0 := new int[2 * x.Length];
    CopyInt(s0, 0);
    ProductStart(s0[..], xv, ys);
    for i := 0 to y.Length
      invariant x[..] == xs && y[..] == ys
      invariant AreDigits(s0[..]) && Value(s0[..]) == xv * Num(ys, i) % Weight(s0.Length)
      modifies s0
    {
      ProductStep(Value(s0[..]), xv, ys, i, Weight(s0.Length));
      if y[i] != 0 {
        DigitIn(ys, i);
        LinCombShift(s0, x, y[i], i);
      }
    }
  }

  lemma ProductReduced(xs: seq<int>, ys: seq<int>, ns: seq<int>)
    requires AreDigits(xs) && AreDigits(ys) && Divisor(ns) && 2 * |xs| >= |ns| >= 1
    ensures var v, len := Value(xs) * Value(ys), 2 * |xs|;
      v < Weight(len - 1) && Value(ns) <= Weight(|xs|) ==>
        Value(ns) > 0 && Leaves(v % Weight(len), ns, len) % Weight(|xs|) == v % Value(ns)
  {
    hide Num, Weight, Leaves;
    var v, len := Value(xs) * Value(ys), 2 * |xs|;
    NumBounds(xs, |xs|);
    NumBounds(ys, |ys|);
    TimesMonotone(0, Value(xs), Value(ys));
    if v < Weight(len - 1) && Value(ns) <= Weight(|xs|) {
      PlainlyReduced(v, ns, len, |xs|);
    }
  }

  lemma PlainlyReduced(v: int, ns: seq<int>, len: nat, m: nat)
    requires Divisor(ns) && 1 <= |ns| <= len && 0 <= v < Weight(len - 1) && Value(ns) <= Weight(m)
    ensures Value(ns) > 0 && v % Weight(len) == v && Leaves(v, ns, len) % Weight(m) == v % Value(ns)
  {
    hide Num, Weight, Leaves, Value;
    LeavesPlain(v, ns, len);
    WeightMonotone(len - 1, len);
    SmallMod(v, Weight(len));
    DivisionRest(v, Value(ns));
    SmallMod(v % Value(ns), Weight(m));
  }

  lemma DigitIn(s: seq<int>, i: nat)
    requires AreDigits(s) && i < |s|
    ensures 0 <= s[i] < 32768
  {
  }

  lemma ProductStart(s: seq<int>, xv: int, ys: seq<int>)
    requires Value(s) == 0 % Weight(|s|)
    ensures Value(s) == xv * Num(ys, 0) % Weight(|s|)
  {
    SmallMod(0, Weight(|s|));
  }

  /** Adding a digit's multiple to a truncated sum truncates to the full sum. */
  lemma ProductStep(v: int, xv: int, ys: seq<int>, i: nat, w: int)
    requires w > 0 && v == xv * Num(ys, i) % w && i < |ys|
    ensures ys[i] == 0 ==> v == xv * Num(ys, i + 1) % w
    ensures (v + ys[i] * (xv * Weight(i))) % w == xv * Num(ys, i + 1) % w
  {
    hide Num, Weight;
    NumNext(ys, i);
    Distribute(xv, Num(ys, i), ys[i] * Weight(i));
    Associate(xv, ys[i], Weight(i));
    SameMod(xv * Num(ys, i), w);
    SameAddMod(v, xv * Num(ys, i), ys[i] * (xv * Weight(i)), w);
    if ys[i] == 0 {
      assert ys[i] * Weight(i) == 0;
    }
  }

  lemma SameAddMod(a: int, b: int, c: int, m: int)
    requires m > 0 && Same(a, b, m)
    ensures (a + c) % m == (b + c) % m
  {
    SamePlus(a, b, c, c, m);
  }
}
