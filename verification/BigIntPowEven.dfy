/**
 * powMod_ of src/webclient/BigInt.js for an even modulus: what its
 * square-and-multiply loop computes when copy_ cuts the base and leftShift_
 * cuts its squares, and exactly when that is the power.
 */
module BigIntPowEven {
  import opened Digits
  import opened BigInt
  import opened BigIntQuotient
  import opened BigIntDivide
  import opened BigIntModular
  import opened BigIntSquare
  import opened BigIntPower

  lemma DivisorPositive(ns: seq<int>)
    requires Divisor(ns)
    ensures Value(ns) > 0 && |ns| > 0
  {
    ValueUsed(ns);
  }

  lemma PositiveDivisor(ns: seq<int>)
    requires AreDigits(ns) && Value(ns) > 0
    ensures Divisor(ns)
  {
    ValueUsed(ns);
  }

  /** What squareMod_ makes of h in an array as long as n. */
  ghost function Squared(h: int, ns: seq<int>): int
    requires Divisor(ns)
  {
    Leaves(h * h, ns, 2 * |ns|) % Weight(|ns|)
  }

  /** The scratch number after k squarings. */
  ghost function Iterate(g: int, k: nat, ns: seq<int>): int
    requires Divisor(ns)
  {
    if k == 0 then g else Squared(Iterate(g, k - 1, ns), ns)
  }

  /** The loop from a result v, a scratch number s and an exponent y on. */
  ghost function EvenPower(v: int, s: int, y: nat, ns: seq<int>): int
    requires Divisor(ns)
    decreases y
  {
    DivisorPositive(ns);
    if y == 0 then v
    else EvenPower(if y % 2 == 1 then v * s % Value(ns) else v, Squared(s, ns), y / 2, ns)
  }

  // ------------------------------------------------------------- the exact condition

  /** Every squaring is right modulo n. */
  ghost predicate SquaresKept(g: int, ns: seq<int>)
    requires Divisor(ns)
  {
    DivisorPositive(ns);
    forall k: nat :: Same(Iterate(g, k + 1, ns), Iterate(g, k, ns) * Iterate(g, k, ns), Value(ns))
  }

  /** Every exponent gives the power of x. */
  ghost predicate AlwaysRight(x: int, g: int, ns: seq<int>)
    requires Divisor(ns)
  {
    DivisorPositive(ns);
    forall y: nat :: EvenPower(1, g, y, ns) == Power(x, y) % Value(ns)
  }

  lemma {:induction false} IterateShift(g: int, k: nat, ns: seq<int>)
    requires Divisor(ns)
    ensures Iterate(Squared(g, ns), k, ns) == Iterate(g, k + 1, ns)
  {
    hide Squared;
    if k > 0 {
      IterateShift(g, k - 1, ns);
    } else {
      assert Iterate(g, 1, ns) == Squared(Iterate(g, 0, ns), ns);
    }
  }

  lemma KeptShift(g: int, ns: seq<int>)
    requires Divisor(ns) && SquaresKept(g, ns)
    ensures SquaresKept(Squared(g, ns), ns) && Value(ns) > 0 && Same(Squared(g, ns), g * g, Value(ns))
  {
    hide Squared, Same, Iterate;
    DivisorPositive(ns);
    var h := Squared(g, ns);
    forall k: nat
      ensures Same(Iterate(h, k + 1, ns), Iterate(h, k, ns) * Iterate(h, k, ns), Value(ns))
    {
      IterateShift(g, k, ns);
      IterateShift(g, k + 1, ns);
      assert Same(Iterate(g, k + 1 + 1, ns), Iterate(g, k + 1, ns) * Iterate(g, k + 1, ns), Value(ns));
    }
    FirstIterates(g, ns);
    assert Same(Iterate(g, 0 + 1, ns), Iterate(g, 0, ns) * Iterate(g, 0, ns), Value(ns));
  }

  lemma FirstIterates(g: int, ns: seq<int>)
    requires Divisor(ns)
    ensures Iterate(g, 0, ns) == g && Iterate(g, 1, ns) == Squared(g, ns)
  {
    hide Squared;
  }

  /** One turn of the loop does not change v * s^y modulo n. */
  lemma SquareMultiply(v: int, s: int, t: int, y: nat, n: int)
    requires n > 0 && y > 0 && Same(t, s * s, n)
    ensures Same((if y % 2 == 1 then v * s % n else v) * Power(t, y / 2), v * Power(s, y), n)
  {
    var h: nat := y / 2;
    PowerTimes(s, s, h);
    PowerAdd(s, h, h);
    var p := Power(s * s, h);
    SamePower(t, s * s, h, n);
    if y % 2 == 1 {
      assert Power(s, y) == s * Power(s, h + h);
      Associate(v, s, p);
      SameMod(v * s, n);
      SameTimes(v * s % n, v * s, Power(t, h), p, n);
    } else {
      SameScale(Power(t, h), p, v, n);
    }
  }

  lemma {:induction false} KeptPower(v: int, s: int, y: nat, ns: seq<int>)
    requires Divisor(ns) && SquaresKept(s, ns) && 0 <= v < Value(ns)
    ensures EvenPower(v, s, y, ns) == v * Power(s, y) % Value(ns)
    decreases y
  {
    hide Squared, SquaresKept, Value, Divisor;
    var n := Value(ns);
    if y == 0 {
      assert Power(s, 0) == 1;
      SmallMod(v, n);
    } else {
      KeptShift(s, ns);
      var v', t := if y % 2 == 1 then v * s % n else v, Squared(s, ns);
      DivisionRest(v * s, n);
      KeptPower(v', t, y / 2, ns);
      hide Power, EvenPower;
      SquareMultiply(v, s, t, y, n);
      EvenStep(v, s, y, ns);
    }
  }

  lemma EvenStep(v: int, s: int, y: nat, ns: seq<int>)
    requires Divisor(ns) && y > 0
    ensures Value(ns) > 0
    ensures EvenPower(v, s, y, ns) == EvenPower(if y % 2 == 1 then v * s % Value(ns) else v, Squared(s, ns), y / 2, ns)
  {
    DivisorPositive(ns);
    hide Squared, Value;
  }

  /** A power of two as exponent shows one scratch number. */
  lemma {:induction false} TwoPower(g: int, k: nat, ns: seq<int>)
    requires Divisor(ns)
    ensures Value(ns) > 0 && Power(2, k) >= 1 && EvenPower(1, g, Power(2, k), ns) == Iterate(g, k, ns) % Value(ns)
    decreases k
  {
    hide Squared, Value, Divisor, EvenPower;
    DivisorPositive(ns);
    PowerTwoPositive(k);
    EvenStep(1, g, Power(2, k), ns);
    if k == 0 {
      NoExponent(1 * g % Value(ns), Squared(g, ns), ns);
    } else {
      PowerTwoPositive(k - 1);
      TwoPower(Squared(g, ns), k - 1, ns);
      IterateShift(g, k - 1, ns);
    }
  }

  lemma NoExponent(v: int, s: int, ns: seq<int>)
    requires Divisor(ns)
    ensures EvenPower(v, s, 0, ns) == v
  {
  }

  /**
   * powMod_ with an even n is right for every exponent if and only if the cut
   * base is congruent to the base and every squaring is right modulo n.
   */
  lemma EvenExact(x: int, g: int, ns: seq<int>)
    requires Divisor(ns) && Value(ns) > 1
    ensures AlwaysRight(x, g, ns) <==> Same(g, x, Value(ns)) && SquaresKept(g, ns)
  {
    if Same(g, x, Value(ns)) && SquaresKept(g, ns) {
      KeptRight(x, g, ns);
    }
    if AlwaysRight(x, g, ns) {
      RightKept(x, g, ns);
    }
  }

  lemma KeptRight(x: int, g: int, ns: seq<int>)
    requires Divisor(ns) && Value(ns) > 1 && Same(g, x, Value(ns)) && SquaresKept(g, ns)
    ensures AlwaysRight(x, g, ns)
  {
    hide EvenPower, SquaresKept, Value, Power, Divisor;
    forall y: nat
      ensures EvenPower(1, g, y, ns) == Power(x, y) % Value(ns)
    {
      KeptPower(1, g, y, ns);
      SamePower(g, x, y, Value(ns));
    }
  }

  lemma RightKept(x: int, g: int, ns: seq<int>)
    requires Divisor(ns) && Value(ns) > 1 && AlwaysRight(x, g, ns)
    ensures Same(g, x, Value(ns)) && SquaresKept(g, ns)
  {
    hide EvenPower, Value, Power, Divisor, Iterate, Squared;
    DivisorPositive(ns);
    var n := Value(ns);
    forall k: nat
      ensures Same(Iterate(g, k + 1, ns), Iterate(g, k, ns) * Iterate(g, k, ns), n)
    {
      IteratePower(x, g, k, ns);
      IteratePower(x, g, k + 1, ns);
      var p := Power(2, k);
      PowerNext(2, k);
      PowerAdd(x, p, p);
      SameTimes(Iterate(g, k, ns), Power(x, p), Iterate(g, k, ns), Power(x, p), n);
    }
    FirstIterates(g, ns);
    IteratePower(x, g, 0, ns);
    assert Power(2, 0) == 1 && Power(x, 1) == x by { PowerOne(x); PowerZeroIs(2); }
  }

  lemma IteratePower(x: int, g: int, k: nat, ns: seq<int>)
    requires Divisor(ns) && AlwaysRight(x, g, ns)
    ensures Value(ns) > 0 && Power(2, k) >= 1 && Same(Iterate(g, k, ns), Power(x, Power(2, k)), Value(ns))
  {
    hide EvenPower, Value, Power, Divisor, Iterate;
    TwoPower(g, k, ns);
  }

  lemma PowerOne(b: int)
    ensures Power(b, 1) == b
  {
    assert Power(b, 1) == b * Power(b, 0);
  }

  // ------------------------------------------------------- a condition on the base

  /** n divides what is cut from x at w. */
  ghost predicate CutsMultiple(x: int, w: int, n: int)
    requires w > 0 && n > 0
  {
    w * (x / w) % n == 0
  }

  lemma CutSame(x: int, w: int, n: int)
    requires w > 0 && n > 0
    ensures Same(x % w, x, n) <==> CutsMultiple(x, w, n)
  {
    var low, cut := x % w, w * (x / w);
    assert x == low + cut;
    SmallMod(0, n);
    if cut % n == 0 {
      SamePlus(low, low, cut, 0, n);
    }
    if Same(low, low + cut, n) {
      SamePlus(low + cut, low, -low, -low, n);
    }
  }

  lemma ModulusSize(ns: seq<int>)
    requires Divisor(ns) && ns[|ns| - 1] == 0
    ensures |ns| >= 2 && 0 < Value(ns) < Weight(|ns| - 1) && Value(ns) <= Weight(|ns|)
  {
    hide Num, Weight;
    ValueUsed(ns);
    WeightMonotone(Used(ns, |ns|), |ns| - 1);
    WeightMonotone(|ns| - 1, |ns|);
  }

  /** A scratch number with a leading zero is squared right. */
  lemma SmallSquared(h: int, ns: seq<int>)
    requires Divisor(ns) && ns[|ns| - 1] == 0 && 0 <= h < Weight(|ns| - 1)
    ensures Value(ns) > 0 && Squared(h, ns) == h * h % Value(ns) && 0 <= Squared(h, ns) < Value(ns) < Weight(|ns| - 1)
  {
    hide Num, Weight, Leaves, Value;
    ModulusSize(ns);
    var m := |ns| - 1;
    SquareBelow(h, Weight(m));
    WeightAdd(m, m);
    WeightMonotone(m + m, 2 * |ns| - 1);
    PlainlyReduced(h * h, ns, 2 * |ns|, |ns|);
    DivisionRest(h * h, Value(ns));
  }

  lemma {:induction false} SmallIterates(h: int, k: nat, ns: seq<int>)
    requires Divisor(ns) && ns[|ns| - 1] == 0 && 0 <= h < Weight(|ns| - 1)
    ensures 0 <= Iterate(h, k, ns) < Weight(|ns| - 1)
  {
    hide Num, Weight, Squared;
    if k > 0 {
      SmallIterates(h, k - 1, ns);
      SmallSquared(Iterate(h, k - 1, ns), ns);
    }
  }

  lemma SquareNonNegative(g: int)
    ensures g * g >= 0
  {
    if g < 0 {
      TimesMonotone(g, 0, -g);
    } else {
      TimesMonotone(0, g, g);
    }
  }

  // ----------------------------------------------------------- what is cut off

  /**
   * What squareMod_ loses of h * h: the bits that leftShift_ cuts, and the
   * digits that copy_ cuts from what divide_ leaves.
   */
  ghost function Cut(h: int, ns: seq<int>): int
    requires Divisor(ns)
  {
    DivisorPositive(ns);
    RoomIs(ns, 2 * |ns|);
    var c, w := Room(ns, 2 * |ns|), Weight(|ns|);
    c * (h * h / c) + w * (Leaves(h * h, ns, 2 * |ns|) / w)
  }

  /** For every h, a square is right modulo n if and only if n divides what is lost of it. */
  lemma SquaredExact(h: int, ns: seq<int>)
    requires Divisor(ns)
    ensures Value(ns) > 0 && (Same(Squared(h, ns), h * h, Value(ns)) <==> Cut(h, ns) % Value(ns) == 0)
  {
    hide Leaves, Room, Value, Weight;
    DivisorPositive(ns);
    RoomIs(ns, 2 * |ns|);
    SquareNonNegative(h);
    LeavesSame(h * h, ns, 2 * |ns|);
    CutBoth(h * h, Room(ns, 2 * |ns|), Leaves(h * h, ns, 2 * |ns|), Weight(|ns|), Value(ns));
  }

  lemma CutBoth(x: int, c: int, l: int, w: int, n: int)
    requires c > 0 && w > 0 && n > 0 && Same(l, x % c, n)
    ensures Same(l % w, x, n) <==> (c * (x / c) + w * (l / w)) % n == 0
  {
    var a, b := c * (x / c), w * (l / w);
    assert x == x % c + a && l == l % w + b;
    SamePlus(l, x % c, a - b, a - b, n);
    assert l + (a - b) == l % w + a && x % c + (a - b) == x - b;
    SmallMod(0, n);
    if (a + b) % n == 0 {
      LostBoth(l % w, x, a, b, n);
    }
    if Same(l % w, x, n) {
      KeptBoth(l % w, x, a, b, n);
    }
  }

  lemma LostBoth(k: int, x: int, a: int, b: int, n: int)
    requires n > 0 && Same(k + a, x - b, n) && Same(a + b, 0, n)
    ensures Same(k, x, n)
  {
    SamePlus(k + a, x - b, b, b, n);
    SameScale(a + b, 0, -1, n);
    SamePlus(k + a + b, x, -(a + b), 0, n);
  }

  lemma KeptBoth(k: int, x: int, a: int, b: int, n: int)
    requires n > 0 && Same(k + a, x - b, n) && Same(k, x, n)
    ensures Same(a + b, 0, n)
  {
    SameScale(k, x, -1, n);
    SamePlus(k + a, x - b, -k, -x, n);
    SamePlus(a, -b, b, b, n);
  }

  /** n divides what each of the first m squarings loses. */
  ghost predicate LosesMultiples(g: int, m: nat, ns: seq<int>)
    requires Divisor(ns)
  {
    DivisorPositive(ns);
    forall k: nat :: k < m ==> Cut(Iterate(g, k, ns), ns) % Value(ns) == 0
  }

  ghost predicate AlwaysMultiples(g: int, ns: seq<int>)
    requires Divisor(ns)
  {
    DivisorPositive(ns);
    forall k: nat :: Cut(Iterate(g, k, ns), ns) % Value(ns) == 0
  }

  lemma KeptIff(g: int, ns: seq<int>)
    requires Divisor(ns)
    ensures SquaresKept(g, ns) <==> AlwaysMultiples(g, ns)
  {
    hide Cut, Squared, Same, Value;
    DivisorPositive(ns);
    if SquaresKept(g, ns) {
      forall k: nat
        ensures Cut(Iterate(g, k, ns), ns) % Value(ns) == 0
      {
        SquaredExact(Iterate(g, k, ns), ns);
        assert Same(Iterate(g, k + 1, ns), Iterate(g, k, ns) * Iterate(g, k, ns), Value(ns));
      }
    }
    if AlwaysMultiples(g, ns) {
      forall k: nat
        ensures Same(Iterate(g, k + 1, ns), Iterate(g, k, ns) * Iterate(g, k, ns), Value(ns))
      {
        SquaredExact(Iterate(g, k, ns), ns);
      }
    }
  }

  /**
   * powMod_ with an even n: every exponent gives the right power if and only if
   * n divides the digits that copy_ cuts from the base and what each squaring
   * loses. There is no condition on x or n.
   */
  lemma EvenRight(x: int, ns: seq<int>)
    requires Divisor(ns) && Value(ns) > 1
    ensures AlwaysRight(x, x % Weight(|ns|), ns) <==>
      CutsMultiple(x, Weight(|ns|), Value(ns)) && AlwaysMultiples(x % Weight(|ns|), ns)
  {
    hide Num, Weight, Value, SquaresKept, AlwaysRight, CutsMultiple, Divisor, AlwaysMultiples;
    var g := x % Weight(|ns|);
    EvenExact(x, g, ns);
    KeptIff(g, ns);
    CutSame(x, Weight(|ns|), Value(ns));
  }

  /** A scratch number with a leading zero digit loses nothing. */
  lemma SmallLosesNothing(h: int, ns: seq<int>)
    requires Divisor(ns) && ns[|ns| - 1] == 0 && 0 <= h < Weight(|ns| - 1)
    ensures Cut(h, ns) == 0
  {
    hide Num, Weight, Leaves, Value, Room;
    ModulusSize(ns);
    RoomIs(ns, 2 * |ns|);
    var m, len := |ns| - 1, 2 * |ns|;
    SquareBelow(h, Weight(m));
    WeightAdd(m, m);
    WeightMonotone(m + m, len - 1);
    SmallMod(h * h, Room(ns, len));
    LeavesPlain(h * h, ns, len);
    DivisionRest(h * h, Value(ns));
    SmallMod(h * h % Value(ns), Weight(|ns|));
  }

  lemma {:induction false} IterateAdd(g: int, m: nat, k: nat, ns: seq<int>)
    requires Divisor(ns)
    ensures Iterate(g, m + k, ns) == Iterate(Iterate(g, m, ns), k, ns)
  {
    hide Squared;
    if k > 0 {
      IterateAdd(g, m, k - 1, ns);
    }
  }

  /** Once a scratch number has a leading zero digit, the squarings before it decide. */
  lemma SettledDecides(g: int, m: nat, ns: seq<int>)
    requires Divisor(ns) && ns[|ns| - 1] == 0 && 0 <= Iterate(g, m, ns) < Weight(|ns| - 1)
    ensures AlwaysMultiples(g, ns) <==> LosesMultiples(g, m, ns)
  {
    hide Cut, Iterate, Weight, Value;
    DivisorPositive(ns);
    SmallMod(0, Value(ns));
    if LosesMultiples(g, m, ns) {
      forall k: nat
        ensures Cut(Iterate(g, k, ns), ns) % Value(ns) == 0
      {
        if k >= m {
          IterateAdd(g, m, k - m, ns);
          SmallIterates(Iterate(g, m, ns), k - m, ns);
          SmallLosesNothing(Iterate(g, k, ns), ns);
        }
      }
    }
  }

  /** A finite form of the condition: the squarings up to the first scratch number with a leading zero digit. */
  lemma SettledRight(x: int, m: nat, ns: seq<int>)
    requires Divisor(ns) && ns[|ns| - 1] == 0 && Value(ns) > 1
    requires 0 <= Iterate(x % Weight(|ns|), m, ns) < Weight(|ns| - 1)
    ensures AlwaysRight(x, x % Weight(|ns|), ns) <==>
      CutsMultiple(x, Weight(|ns|), Value(ns)) && LosesMultiples(x % Weight(|ns|), m, ns)
  {
    hide Num, Weight, Value, AlwaysRight, CutsMultiple, Divisor, AlwaysMultiples, LosesMultiples;
    EvenRight(x, ns);
    SettledDecides(x % Weight(|ns|), m, ns);
  }

  /** The base itself, cut, has a leading zero digit: only the digits cut from it matter. */
  lemma ShortBaseRight(x: int, ns: seq<int>)
    requires Divisor(ns) && ns[|ns| - 1] == 0 && Value(ns) > 1 && x % Weight(|ns|) < Weight(|ns| - 1)
    ensures AlwaysRight(x, x % Weight(|ns|), ns) <==> CutsMultiple(x, Weight(|ns|), Value(ns))
  {
    hide Num, Weight, Value, AlwaysRight, CutsMultiple, Divisor, AlwaysMultiples;
    var g := x % Weight(|ns|);
    DivisionRest(x, Weight(|ns|));
    FirstIterates(g, ns);
    SettledRight(x, 0, ns);
    assert LosesMultiples(g, 0, ns);
  }

  /** Unless clogged, divide_ reduces the first square, so that loses only bits and no later one loses anything. */
  lemma UncloggedRight(x: int, ns: seq<int>)
    requires Divisor(ns) && ns[|ns| - 1] == 0 && Value(ns) > 1
    requires var g := x % Weight(|ns|); !Clogged(g * g, ns, 2 * |ns|)
    ensures Room(ns, 2 * |ns|) > 0
    ensures var g := x % Weight(|ns|);
      AlwaysRight(x, g, ns) <==>
        CutsMultiple(x, Weight(|ns|), Value(ns)) && CutsMultiple(g * g, Room(ns, 2 * |ns|), Value(ns))
  {
    hide Num, Weight, Value, AlwaysRight, Divisor, AlwaysMultiples, Room, Leaves, Clogged, Squared;
    var g := x % Weight(|ns|);
    FirstIterates(g, ns);
    UncloggedSquare(g, ns);
    SettledRight(x, 1, ns);
    FirstLoss(g, ns);
  }

  lemma UncloggedSquare(g: int, ns: seq<int>)
    requires Divisor(ns) && ns[|ns| - 1] == 0 && !Clogged(g * g, ns, 2 * |ns|)
    ensures Room(ns, 2 * |ns|) > 0 && 0 <= Squared(g, ns) < Weight(|ns| - 1)
    ensures Cut(g, ns) == Room(ns, 2 * |ns|) * (g * g / Room(ns, 2 * |ns|))
  {
    hide Num, Weight, Leaves, Value, Room, Clogged;
    var c, n := Room(ns, 2 * |ns|), Value(ns);
    SquareNonNegative(g);
    LeavesExact(g * g, ns, 2 * |ns|);
    ModulusSize(ns);
    DivisionRest(g * g % c, n);
    SmallMod(g * g % c % n, Weight(|ns|));
  }

  lemma FirstLoss(g: int, ns: seq<int>)
    requires Divisor(ns)
    ensures Value(ns) > 0 && (LosesMultiples(g, 1, ns) <==> Cut(g, ns) % Value(ns) == 0)
  {
    hide Cut, Iterate, Squared;
    DivisorPositive(ns);
    FirstIterates(g, ns);
    assert Iterate(g, 0, ns) == g;
  }

  // --------------------------------------------------------------- the loop

  lemma LowParity(ys: seq<int>)
    requires AreDigits(ys) && |ys| > 0
    ensures ys[0] % 2 == Value(ys) % 2
  {
    hide Num, Weight;
    NumMod(ys, 1, |ys|);
    OneDigit(ys);
    var v := Value(ys);
    assert v == 32768 * (v / 32768) + ys[0];
    ModShift(ys[0], 16384 * (v / 32768), 2);
  }

  lemma EvenAboveOne(ns: seq<int>)
    requires AreDigits(ns) && |ns| > 0 && ns[0] % 2 == 0 && Value(ns) > 0
    ensures Value(ns) > 1
  {
    NumMod(ns, 1, |ns|);
    OneDigit(ns);
  }

  lemma OneInArray(s: seq<int>)
    requires |s| > 0 && Value(s) == 1 % Weight(|s|)
    ensures Value(s) == 1
  {
    assert Weight(|s|) == 32768 * Weight(|s| - 1);
    SmallMod(1, Weight(|s|));
  }

  /** The sizes that the loop keeps: the result below n, the scratch number within x and within n's array. */
  ghost predicate Sizes(v: int, s: int, ns: seq<int>, xlen: nat) {
    0 <= v < Value(ns) && 0 <= s < Weight(|ns|) && s < Weight(xlen)
  }

  lemma SizesStart(xs: seq<int>, ns: seq<int>)
    requires AreDigits(xs) && AreDigits(ns) && |ns| > 0 && ns[0] % 2 == 0 && Value(ns) > 0
    ensures Value(ns) > 1 && Sizes(1, Value(xs) % Weight(|ns|), ns, |xs|)
  {
    hide Num, Weight;
    EvenAboveOne(ns);
    NumBounds(xs, |xs|);
    var w := Weight(|ns|);
    DivisionRest(Value(xs), w);
    assert Value(xs) == w * (Value(xs) / w) + Value(xs) % w;
    Gap(w, Value(xs) / w);
  }

  /** The product of the loop fits, with a leading zero. */
  lemma ProductRoom(v: int, s: int, ns: seq<int>, xlen: nat)
    requires Divisor(ns) && Sizes(v, s, ns, xlen) && Used(ns, |ns|) < xlen
    ensures v * s < Weight(2 * xlen - 1) && Value(ns) <= Weight(xlen)
  {
    hide Num, Weight;
    var kn := Used(ns, |ns|);
    ValueUsed(ns);
    WeightMonotone(kn, xlen);
    WeightAdd(kn, xlen);
    WeightMonotone(kn + xlen, 2 * xlen - 1);
    TimesMonotone(v, Weight(kn) - 1, s);
    TimesMonotone(s, Weight(xlen), Weight(kn) - 1);
    Distribute(Weight(xlen), Weight(kn), 1);
  }

  lemma SizesStep(v: int, s: int, ns: seq<int>, xlen: nat)
    requires Divisor(ns) && ns[|ns| - 1] == 0 && Sizes(v, s, ns, xlen) && Used(ns, |ns|) < xlen && |ns| <= xlen + 1
    ensures Sizes(v, Squared(s, ns), ns, xlen) && Sizes(v * s % Value(ns), Squared(s, ns), ns, xlen)
  {
    hide Num, Weight, Leaves;
    ModulusSize(ns);
    DivisionRest(Leaves(s * s, ns, 2 * |ns|), Weight(|ns|));
    DivisionRest(v * s, Value(ns));
    if xlen >= |ns| {
      WeightMonotone(|ns|, xlen);
    } else {
      SmallSquared(s, ns);
    }
  }

  /** powMod_ for even n: square and multiply; y is used up. */
  method PowModEven(x: array<int>, y: array<int>, n: array<int>)
    requires x != n && x != y && y != n && n.Length >= 2 && y.Length > 0
    requires AreDigits(x[..]) && AreDigits(y[..]) && Divisor(n[..])
    requires n[n.Length - 1] == 0 && n[0] % 2 == 0
    requires Used(n[..], n.Length) < x.Length && n.Length <= x.Length + 1
    modifies x, y, n
    ensures AreDigits(x[..]) && old(Value(y[..])) >= 0 && n[..] == old(n[..])
    ensures Value(x[..]) == EvenPower(1, old(Value(x[..])) % Weight(n.Length), old(Value(y[..])), n[..])
  {
    hide Value, AreDigits, Weight, EvenPower, Divisor, Leaves, Sizes, Squared, Divides, Used, SquareLength;
    ghost var xs, ns, ys := x[..], n[..], y[..];
    DivisorDigitsOf(ns);
    SizesStart(xs, ns);
    ExponentSize(ys);
    var s7 := new int[n.Length];
    Copy(s7, x);
    CopyInt(x, 1);
    OneInArray(x[..]);
    ghost var goal := EvenPower(1, Value(s7[..]), Value(ys), ns);
    var done := EqualsInt(y, 0);
    while !done
      invariant n[..] == ns && AreDigits(x[..]) && AreDigits(s7[..]) && AreDigits(y[..])
      invariant Value(y[..]) >= 0 && EvenPower(Value(x[..]), Value(s7[..]), Value(y[..]), ns) == goal
      invariant Sizes(Value(x[..]), Value(s7[..]), ns, x.Length)
      invariant done <==> Value(y[..]) == 0
      decreases Value(y[..])
    {
      ghost var v, s, yy := Value(x[..]), Value(s7[..]), Value(y[..]);
      EvenStep(v, s, yy, ns);
      SizesStep(v, s, ns, x.Length);
      ProductRoom(v, s, ns, x.Length);
      LowParity(y[..]);
      if y[0] % 2 == 1 {
        SpareDigitDivides(v * s % Weight(2 * x.Length), ns, 2 * x.Length);
        var _ := MultMod(x, s7, n);
        assert n[..] == ns;
      }
      var _ := DivInt(y, 2);
      assert n[..] == ns;
      ScratchLength(s7[..], ns);
      SpareDigitDivides(s * s, ns, 2 * |ns|);
      var _ := SquareMod(s7, n);
      assert n[..] == ns;
      SquaredIs(s, ns);
      done := EqualsInt(y, 0);
    }
    NoExponent(Value(x[..]), Value(s7[..]), ns);
  }

  lemma DivisorDigitsOf(ns: seq<int>)
    requires Divisor(ns)
    ensures AreDigits(ns) && Value(ns) > 0
  {
    ValueUsed(ns);
  }

  lemma ExponentSize(ys: seq<int>)
    requires AreDigits(ys)
    ensures Value(ys) >= 0
  {
    NumBounds(ys, |ys|);
  }

  lemma ScratchLength(ss: seq<int>, ns: seq<int>)
    requires |ss| == |ns|
    ensures SquareLength(ss, ns) == 2 * |ns|
  {
  }

  lemma SquaredIs(s: int, ns: seq<int>)
    requires Divisor(ns)
    ensures Squared(s, ns) == Leaves(s * s, ns, 2 * |ns|) % Weight(|ns|)
  {
  }

  // -------------------------------------------------------------------- examples

  lemma TenIs(ns: seq<int>)
    requires ns == [10, 0, 0]
    ensures Divisor(ns) && Value(ns) == 10 && Used(ns, |ns|) == 1 && Scale(ns[0]) == 2048
  {
    NumZeros(ns, 1, 3);
    assert Num(ns, 1) == Num(ns, 0) + Digit(ns, 0) * Weight(0);
    assert Used(ns, 3) == Used(ns, 2) == Used(ns, 1) == 1;
    assert Scale(16384) == 1;
    assert Scale(640) == 2 * Scale(1280) && Scale(1280) == 2 * Scale(2560) && Scale(2560) == 2 * Scale(5120);
    assert Scale(5120) == 2 * Scale(10240) && Scale(10240) == 2 * Scale(20480);
    assert Scale(10) == 2 * Scale(20) && Scale(20) == 2 * Scale(40) && Scale(40) == 2 * Scale(80);
    assert Scale(80) == 2 * Scale(160) && Scale(160) == 2 * Scale(320) && Scale(320) == 2 * Scale(640);
  }

  /**
   * powMod([0, 0, 16384], 2, 10): nothing is cut from the base, but leftShift_
   * by 11 pushes the only digit of its square out of the array. The code gives
   * 0, the square is 6 modulo 10.
   */
  lemma SquareCutFails(ns: seq<int>, g: int)
    requires ns == [10, 0, 0] && g == 16384 * Weight(2)
    ensures Divisor(ns) && g < Weight(3) && EvenPower(1, g, 2, ns) == 0 && Power(g, 2) % 10 == 6
  {
    TenIs(ns);
    SmallWeights();
    assert g < Weight(3);
    hide EvenPower, Squared, Weight, Scale, Value;
    SquareVanishes(ns, g);
    EvenStep(1, g, 2, ns);
    EvenStep(1, 0, 1, ns);
    NoExponent(0, Squared(0, ns), ns);
    assert Power(g, 2) == g * (g * Power(g, 0));
    assert g % 10 == 6;
    SmallMod(6, 10);
    SameTimes(g, 6, g, 6, 10);
  }

  lemma SquareVanishes(ns: seq<int>, g: int)
    requires ns == [10, 0, 0] && g == 16384 * Weight(2)
    ensures Divisor(ns) && Squared(g, ns) == 0
  {
    TenIs(ns);
    hide Weight, Scale, Value, Normal;
    var w := Weight(2);
    WeightAdd(2, 2);
    WeightAdd(4, 2);
    SmallWeights();
    var c := Room(ns, 6);
    RoomIs(ns, 6);
    assert Weight(4) == 0x1000_0000_0000_0000 && Weight(6) == 0x4_0000_0000_0000_0000_0000_00;
    assert c == 0x8000_0000_0000_0000_0000;
    assert g * g == c * 512;
    DivisionUnique(g * g, c, 512, 0);
    assert g * g * 2048 == Weight(6) * 512;
    DivisionUnique(g * g * 2048, Weight(6), 512, 0);
    ScaledDivisor(ns);
    RaisePositive(Value(ns) * 2048, 1, 6);
    LeavesExact(g * g, ns, 6);
    SmallMod(0, 10);
    SmallMod(0, Weight(3));
  }

  lemma LargeWeights()
    ensures Weight(4) == 0x1000_0000_0000_0000 && Weight(5) == 0x800_0000_0000_0000_0000
    ensures Weight(6) == 0x400_0000_0000_0000_0000_0000
  {
    SmallWeights();
    assert Weight(4) == 32768 * Weight(3) && Weight(5) == 32768 * Weight(4) && Weight(6) == 32768 * Weight(5);
  }

  /** One turn of the main loop for n = 10, normalised to 20480, when the first guess stands. */
  lemma TenStep(r: int, i: nat, ri: int, r1: int, r2: int, q: int)
    requires 1 <= i <= 5 && Place(r, i) == ri && Place(r, i - 1) == r1 && r2 == (if i > 1 then Place(r, i - 2) else 0)
    requires q == if ri == 20480 then 32767 else (ri * 32768 + r1) / 20480
    requires q * 0x2800_0000 <= (ri * 32768 + r1) * 32768 + r2
    requires 0 <= r - q * (20480 * Weight(i - 1)) < 16384 * Weight(5)
    ensures Step(r, i, 20480, 1, 6) == r - q * (20480 * Weight(i - 1))
  {
    assert Place(20480, 0) == 20480 by { SmallWeights(); }
    hide Place, Weight;
    assert Lead2(20480, 1) == 0x2800_0000;
    assert Guess(r, i, 20480, 1) == q;
    hide Guess;
    WeightNext(5);
    SmallMod(r - q * (20480 * Weight(i - 1)), Weight(6));
  }

  /** The five turns for 2048 * 614653685439^2: the first is held, and one unit of digit 5 is never taken away. */
  lemma HeldTurns()
    ensures Remains(773732665392630088955332608, 6, 20480, 1, 6) == 37778931862957161719808
  {
    var r5, r4, r3 := 773732665392630088955332608, 43752671681765369448448, 37779097136021143554048;
    var r2, r1, r0 := 37778931879423488821248, 37778931862957657950208, 37778931862957161719808;
    hide Step, Remains;
    Turn(r5, 5, 20480, 17469, 12889, 32767, r4);
    Turn(r4, 4, 5181, 12889, 11239, 8290, r3);
    Turn(r3, 3, 4697, 11239, 15144, 7515, r2);
    Turn(r2, 2, 15335, 15144, 2048, 24536, r1);
    Turn(r1, 1, 15144, 2048, 0, 24230, r0);
    RemainsChain(r5, r4, r3, r2, r1, r0);
  }

  lemma RemainsChain(r5: int, r4: int, r3: int, r2: int, r1: int, r0: int)
    requires Step(r5, 5, 20480, 1, 6) == r4 && Step(r4, 4, 20480, 1, 6) == r3 && Step(r3, 3, 20480, 1, 6) == r2
    requires Step(r2, 2, 20480, 1, 6) == r1 && Step(r1, 1, 20480, 1, 6) == r0
    ensures Remains(r5, 6, 20480, 1, 6) == r0
  {
    hide Step;
    assert Remains(r0, 1, 20480, 1, 6) == r0;
    assert Remains(r1, 2, 20480, 1, 6) == r0;
    assert Remains(r2, 3, 20480, 1, 6) == r0;
    assert Remains(r3, 4, 20480, 1, 6) == r0;
    assert Remains(r4, 5, 20480, 1, 6) == r0;
  }

  lemma Turn(r: int, i: nat, ri: int, r1: int, r2: int, q: int, next: int)
    requires 1 <= i <= 5 && 0 <= next < 0x800_0000_0000_0000_0000 * 16384
    requires q == if ri == 20480 then 32767 else (ri * 32768 + r1) / 20480
    requires q * 0x2800_0000 <= (ri * 32768 + r1) * 32768 + r2
    requires var w := [1, 0x8000, 0x4000_0000, 0x2000_0000_0000, 0x1000_0000_0000_0000, 0x800_0000_0000_0000_0000];
      r / w[i] % 32768 == ri && r / w[i - 1] % 32768 == r1 && r2 == (if i > 1 then r / w[i - 2] % 32768 else 0) &&
      next == r - q * (20480 * w[i - 1])
    ensures Step(r, i, 20480, 1, 6) == next
  {
    SmallWeights();
    LargeWeights();
    TenStep(r, i, ri, r1, r2, q);
  }

  /**
   * powMod(614653685439, 2, 10): nothing is cut from the base and leftShift_
   * cuts nothing from its square, but the first estimate is held and copy_ cuts
   * what divide_ then leaves. The code gives 5, the square is 1 modulo 10.
   */
  lemma HeldEstimateFails(ns: seq<int>, g: int)
    requires ns == [10, 0, 0] && g == 614653685439
    ensures Divisor(ns) && g < Weight(3) && g * g < Room(ns, 6)
    ensures EvenPower(1, g, 2, ns) == 5 && Power(g, 2) % 10 == 1 && Cut(g, ns) % 10 != 0
  {
    TheSquare(g);
    TenRoom(ns);
    HeldSquare(ns, g, g * g);
    HeldOutcome(ns, g);
    HeldLoss(ns, g, g * g);
  }

  lemma HeldOutcome(ns: seq<int>, g: int)
    requires ns == [10, 0, 0] && Divisor(ns) && Squared(g, ns) == 5
    ensures EvenPower(1, g, 2, ns) == 5
  {
    TenIs(ns);
    hide EvenPower, Squared, Value, Divisor;
    EvenStep(1, g, 2, ns);
    EvenStep(1, 5, 1, ns);
    NoExponent(5, Squared(5, ns), ns);
  }

  lemma HeldLoss(ns: seq<int>, g: int, x: int)
    requires ns == [10, 0, 0] && Divisor(ns) && Squared(g, ns) == 5 && x == g * g && x % 10 == 1
    ensures Cut(g, ns) % 10 != 0
  {
    TenIs(ns);
    hide Squared, Value, Divisor, Cut;
    SquaredExact(g, ns);
  }

  lemma TheSquare(g: int)
    requires g == 614653685439
    ensures g * g == 377799153023745160622721 && Power(g, 2) == g * g && g * g % 10 == 1
  {
    assert Power(g, 2) == g * (g * Power(g, 0));
  }

  lemma TenRoom(ns: seq<int>)
    requires ns == [10, 0, 0]
    ensures Divisor(ns) && 614653685439 < Weight(3) && 377799153023745160622721 < Room(ns, 6)
  {
    TenIs(ns);
    SmallWeights();
    LargeWeights();
    hide Scale, Weight, Room, Used;
    RoomIs(ns, 6);
  }

  lemma HeldSquare(ns: seq<int>, g: int, x: int)
    requires ns == [10, 0, 0] && x == g * g && x == 377799153023745160622721
    ensures Divisor(ns) && Squared(g, ns) == 5
  {
    TenIs(ns);
    SmallWeights();
    hide Weight, Scale, Value, Remains, Leaves, DivRemainder;
    HeldLeft(ns, x);
    assert Squared(g, ns) == Leaves(x, ns, 6) % Weight(3);
  }

  lemma HeldLeft(ns: seq<int>, x: int)
    requires ns == [10, 0, 0] && x == 377799153023745160622721
    ensures Divisor(ns) && Leaves(x, ns, 6) == 18446744073709551621
  {
    TenIs(ns);
    LargeWeights();
    SmallWeights();
    hide Weight, Scale, Value, Remains, Leaves, DivRemainder;
    var r := 773732665392630088955332608;
    SmallMod(r, Weight(6));
    HeldTurns();
    DivRemainderIs(r, 20480, 1, 6);
    LeavesIs(x, ns, 6, r, 20480, 2048);
  }

  lemma LeavesIs(x: int, ns: seq<int>, len: nat, r: int, y: int, p: int)
    requires Divisor(ns) && Used(ns, |ns|) == 1 && |ns| <= len && p == Scale(ns[0]) && y == Value(ns) * p
    requires r == x * p % Weight(len)
    ensures y > 0 && Leaves(x, ns, len) == DivRemainder(r, y, 1, len) / p
  {
    hide Weight, Scale, Value, DivRemainder, Normal;
    ScaledDivisor(ns);
  }

  /** Four digits against n = 6: powMod cuts the base radix^3 to zero, but radix^3 is 2 modulo 6. */
  lemma CutBaseFails(ns: seq<int>)
    requires ns == [6, 0, 0]
    ensures Divisor(ns) && Value(ns) == 6 && Weight(3) % Weight(|ns|) == 0
    ensures EvenPower(1, 0, 1, ns) == 0 && Power(Weight(3), 1) % 6 == 2 && !CutsMultiple(Weight(3), Weight(3), 6)
  {
    SmallWeights();
    NumZeros(ns, 1, 3);
    assert Num(ns, 1) == Num(ns, 0) + Digit(ns, 0) * Weight(0);
    assert Used(ns, 3) == Used(ns, 2) == Used(ns, 1) == 1;
    PowerOne(Weight(3));
    hide EvenPower, Squared;
    EvenStep(1, 0, 1, ns);
    NoExponent(0, Squared(0, ns), ns);
  }
}
