/**
 * Numbers written as little-endian arrays of 15-bit digits, the representation
 * used by src/webclient/BigInt.js, and the congruences its algorithms rest on.
 */
module Digits {

  const Radix: int := 32768
  const Mask: int := 32767

  /** The exclusive upper bound of a positive 32-bit integer, where `>>` and `&` stay exact. */
  const Int32: int := 0x8000_0000

  ghost predicate AreDigits(s: seq<int>) {
    forall i :: 0 <= i < |s| ==> 0 <= s[i] < Radix
  }

  /** The weight of digit `k`. */
  function Weight(k: nat): (w: int)
    ensures w >= 1
  {
    if k == 0 then 1 else 32768 * Weight(k - 1)
  }

  /** Digits past the end of an array read as zero. */
  function Digit(s: seq<int>, i: nat): int {
    if i < |s| then s[i] else 0
  }

  /** The number formed by the first `k` digits. */
  function Num(s: seq<int>, k: nat): int {
    if k == 0 then 0 else Num(s, k - 1) + Digit(s, k - 1) * Weight(k - 1)
  }

  function Value(s: seq<int>): int {
    Num(s, |s|)
  }

  function Power(b: int, k: nat): int {
    if k == 0 then 1 else b * Power(b, k - 1)
  }

  // ------------------------------------------------------------- products

  lemma Gap(m: int, d: int)
    requires m > 0
    ensures d >= 1 ==> m * d >= m
    ensures d <= -1 ==> m * d <= -m
    ensures d == 0 ==> m * d == 0
  {
  }

  lemma TimesMonotone(a: int, b: int, c: int)
    requires a <= b && 0 <= c
    ensures a * c <= b * c
  {
  }

  lemma Strict(a: int, b: int, w: int)
    requires a < b && w > 0
    ensures a * w < b * w
  {
    TimesMonotone(a + 1, b, w);
    Distribute(w, a, 1);
  }

  lemma Below(a: int, b: int, w: int)
    requires w > 0 && a * w < b * w
    ensures a < b
  {
    if a >= b {
      TimesMonotone(b, a, w);
    }
  }

  lemma Regroup(a: int, b: int, c: int, d: int)
    ensures (a * b) * (c * d) == (a * c) * (b * d)
  {
    var p := c * d;
    assert (a * b) * p == a * (b * p);
    assert b * p == c * (b * d);
    assert a * (c * (b * d)) == (a * c) * (b * d);
  }

  lemma Distribute(a: int, b: int, c: int)
    ensures a * (b + c) == a * b + a * c
    ensures a * (b - c) == a * b - a * c
  {
  }

  lemma Associate(a: int, b: int, c: int)
    ensures a * (b * c) == (a * b) * c
    ensures a * (b * c) == b * (a * c)
  {
  }

  // --------------------------------------------------------------- powers

  lemma {:induction false} WeightAdd(i: nat, j: nat)
    ensures Weight(i + j) == Weight(i) * Weight(j)
  {
    if i > 0 {
      WeightAdd(i - 1, j);
      assert Weight(i + j) == 32768 * Weight(i - 1 + j);
      Associate(32768, Weight(i - 1), Weight(j));
    }
  }

  lemma {:induction false} WeightMonotone(i: nat, j: nat)
    requires i <= j
    ensures Weight(i) <= Weight(j)
  {
    if i < j {
      WeightMonotone(i, j - 1);
    }
  }

  lemma {:induction false} PowerTwoPositive(k: nat)
    ensures Power(2, k) >= 1
  {
    if k > 0 {
      PowerTwoPositive(k - 1);
    }
  }

  lemma {:induction false} PowerAdd(b: int, i: nat, j: nat)
    ensures Power(b, i + j) == Power(b, i) * Power(b, j)
  {
    if i > 0 {
      PowerAdd(b, i - 1, j);
      assert Power(b, i + j) == b * Power(b, i - 1 + j);
      Associate(b, Power(b, i - 1), Power(b, j));
    }
  }

  lemma {:induction false} PowerTimes(b: int, c: int, k: nat)
    ensures Power(b * c, k) == Power(b, k) * Power(c, k)
  {
    if k > 0 {
      PowerTimes(b, c, k - 1);
      Regroup(b, c, Power(b, k - 1), Power(c, k - 1));
    }
  }

  lemma {:induction false} PowerPower(b: int, i: nat, j: nat)
    ensures 0 <= i * j && Power(Power(b, i), j) == Power(b, i * j)
  {
    if j > 0 {
      PowerPower(b, i, j - 1);
      Distribute(i, j, 1);
      assert i * j == i + i * (j - 1);
      PowerAdd(b, i, i * (j - 1));
    }
  }

  // --------------------------------------------------------------- values

  /** Digits fill exactly the numbers below the next weight. */
  lemma {:induction false} NumBounds(s: seq<int>, k: nat)
    requires AreDigits(s)
    ensures 0 <= Num(s, k) < Weight(k)
  {
    if k > 0 {
      NumBounds(s, k - 1);
      TimesMonotone(Digit(s, k - 1), 32767, Weight(k - 1));
      TimesMonotone(0, Digit(s, k - 1), Weight(k - 1));
    }
  }

  lemma {:induction false} NumFrame(s: seq<int>, t: seq<int>, k: nat)
    requires forall i :: 0 <= i < k ==> Digit(s, i) == Digit(t, i)
    ensures Num(s, k) == Num(t, k)
  {
    if k > 0 {
      NumFrame(s, t, k - 1);
      assert Digit(s, k - 1) == Digit(t, k - 1);
    }
  }

  /** Leading zeros do not change a number. */
  lemma {:induction false} NumZeros(s: seq<int>, k: nat, m: nat)
    requires k <= m
    requires forall i :: k <= i < m ==> Digit(s, i) == 0
    ensures Num(s, m) == Num(s, k)
  {
    if k < m {
      NumZeros(s, k, m - 1);
      assert Digit(s, m - 1) == 0;
    }
  }

  /** The low digits are the remainder. */
  lemma {:induction false} NumMod(s: seq<int>, k: nat, m: nat)
    requires AreDigits(s) && k <= m
    ensures Num(s, m) % Weight(k) == Num(s, k)
  {
    NumBounds(s, k);
    if k == m {
      SmallMod(Num(s, k), Weight(k));
    } else {
      NumMod(s, k, m - 1);
      WeightAdd(k, m - 1 - k);
      var d := Digit(s, m - 1);
      Associate(d, Weight(k), Weight(m - 1 - k));
      ModShift(Num(s, m - 1), d * Weight(m - 1 - k), Weight(k));
    }
  }

  // ----------------------------------------------------------- congruence

  lemma DivisionUnique(a: int, m: int, q: int, r: int)
    requires m > 0 && a == m * q + r && 0 <= r < m
    ensures a / m == q && a % m == r
  {
    var q', r' := a / m, a % m;
    assert a == m * q' + r';
    Distribute(m, q, q');
    Gap(m, q - q');
  }

  lemma SmallMod(a: int, m: int)
    requires 0 <= a < m
    ensures a % m == a && a / m == 0
  {
    DivisionUnique(a, m, 0, a);
  }

  lemma QuotientBelow(d: int, p: int, q: int)
    requires 0 <= d < p * q && q > 0
    ensures 0 <= d / q < p
  {
    var h := d / q;
    assert d == q * h + d % q;
    Gap(q, h);
    Distribute(q, h, p);
    Gap(q, h - p);
  }

  lemma ModShift(a: int, q: int, m: int)
    requires m > 0
    ensures (a + m * q) % m == a % m
  {
    Distribute(m, a / m, q);
    assert a == m * (a / m) + a % m;
    DivisionUnique(a + m * q, m, a / m + q, a % m);
  }

  /** `a` and `b` leave the same remainder. */
  ghost predicate Same(a: int, b: int, m: int)
    requires m > 0
  {
    a % m == b % m
  }

  lemma SameByMultiple(a: int, b: int, k: int, m: int)
    requires m > 0 && a == b + m * k
    ensures Same(a, b, m)
  {
    ModShift(b, k, m);
  }

  lemma SameMultiple(a: int, b: int, m: int) returns (k: int)
    requires m > 0 && Same(a, b, m)
    ensures a == b + m * k
  {
    k := a / m - b / m;
    Distribute(m, a / m, b / m);
    assert a == m * (a / m) + a % m && b == m * (b / m) + b % m;
  }

  lemma SameScale(a: int, b: int, c: int, m: int)
    requires m > 0 && Same(a, b, m)
    ensures Same(a * c, b * c, m) && Same(c * a, c * b, m)
  {
    hide Same;
    var k := SameMultiple(a, b, m);
    Distribute(c, b, m * k);
    Associate(c, m, k);
    SameByMultiple(a * c, b * c, c * k, m);
  }

  lemma SameTimes(a: int, b: int, c: int, d: int, m: int)
    requires m > 0 && Same(a, b, m) && Same(c, d, m)
    ensures Same(a * c, b * d, m)
  {
    SameScale(a, b, c, m);
    SameScale(c, d, b, m);
  }

  lemma SamePlus(a: int, b: int, c: int, d: int, m: int)
    requires m > 0 && Same(a, b, m) && Same(c, d, m)
    ensures Same(a + c, b + d, m)
  {
    hide Same;
    var k := SameMultiple(a, b, m);
    var l := SameMultiple(c, d, m);
    Distribute(m, k, l);
    SameByMultiple(a + c, b + d, k + l, m);
  }

  lemma SameMod(a: int, m: int)
    requires m > 0
    ensures Same(a % m, a, m)
  {
    SmallMod(a % m, m);
  }

  lemma {:induction false} SamePower(a: int, b: int, k: nat, m: int)
    requires m > 0 && Same(a, b, m)
    ensures Same(Power(a, k), Power(b, k), m)
  {
    if k > 0 {
      SamePower(a, b, k - 1, m);
      SameTimes(a, b, Power(a, k - 1), Power(b, k - 1), m);
    }
  }

  /** What has an inverse cancels from a congruence. */
  lemma Cancel(a: int, inv: int, x: int, y: int, m: int)
    requires m > 0 && Same(a * inv, 1, m) && Same(x * a, y * a, m)
    ensures Same(x, y, m)
  {
    SameScale(x * a, y * a, inv, m);
    SameScale(a * inv, 1, x, m);
    SameScale(a * inv, 1, y, m);
    Associate(x, a, inv);
    Associate(y, a, inv);
  }
}
