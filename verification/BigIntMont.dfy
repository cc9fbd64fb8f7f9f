/** mont_ of src/webclient/BigInt.js: Montgomery multiplication in place. */
module BigIntMont {
  import opened Digits
  import opened Montgomery
  import opened BigInt

  /** How many digits survive a pass: the scratch array less one, or all digits of `n` if that is more. */
  function Width(len: nat, kn: nat): nat {
    if kn < len - 1 then len - 1 else kn
  }

  /** The sum of one pass, cut at digit `j`. */
  ghost function RowSum(s: seq<int>, y: seq<int>, n: seq<int>, t: int, u: int, j: nat): int {
    Num(s, j) + t * Num(y, j) + u * Num(n, j)
  }

  lemma RowSumNext(s: seq<int>, y: seq<int>, n: seq<int>, t: int, u: int, j: nat)
    ensures RowSum(s, y, n, t, u, j + 1)
         == RowSum(s, y, n, t, u, j) + (Digit(s, j) + t * Digit(y, j) + u * Digit(n, j)) * Weight(j)
  {
    hide Num, Weight;
    NumNext(s, j);
    NumNext(y, j);
    NumNext(n, j);
    var w := Weight(j);
    Distribute(t, Num(y, j), Digit(y, j) * w);
    Distribute(u, Num(n, j), Digit(n, j) * w);
    Associate(t, Digit(y, j), w);
    Associate(u, Digit(n, j), w);
    Distribute(w, Digit(s, j), t * Digit(y, j));
    Distribute(w, Digit(s, j) + t * Digit(y, j), u * Digit(n, j));
  }

  /** The state of a pass before digit `j`: the digits below are shifted down by one. */
  ghost predicate RowAt(s: seq<int>, s0: seq<int>, y: seq<int>, n: seq<int>, t: int, u: int, j: nat, c: int) {
    1 <= j && |s| == |s0| && AreDigits(s) && 0 <= c < 65536 &&
    (forall i :: j - 1 <= i < |s| ==> s[i] == s0[i]) &&
    32768 * Num(s, j - 1) + c * Weight(j) == RowSum(s0, y, n, t, u, j)
  }

  lemma RowStep(s: seq<int>, s0: seq<int>, y: seq<int>, n: seq<int>, t: int, u: int, j: nat, c: int)
    requires RowAt(s, s0, y, n, t, u, j, c) && j < |s|
    requires 0 <= t < 32768 && 0 <= u < 32768 && AreDigits(y) && AreDigits(n)
    ensures var c' := c + s[j] + u * Digit(n, j) + t * Digit(y, j);
      0 <= c' < 0x8000_0000 && RowAt(s[j - 1 := c' % 32768], s0, y, n, t, u, j + 1, c' / 32768)
  {
    hide Num, Weight, RowSum;
    DigitProduct(t, Digit(y, j));
    DigitProduct(u, Digit(n, j));
    var d := s[j] + u * Digit(n, j) + t * Digit(y, j);
    var c' := c + d;
    CarryStep(s, j - 1, c');
    RowSumNext(s0, y, n, t, u, j);
    WeightNext(j);
    WeightNext(j - 1);
    RowValue(Num(s, j - 1), c, d, Weight(j - 1), Num(s[j - 1 := c' % 32768], j), c' / 32768);
  }

  lemma RowValue(v: int, c: int, d: int, w: int, v': int, q: int)
    requires v' + q * (32768 * w) == v + (c + d) * w
    ensures 32768 * v' + q * (32768 * (32768 * w)) == 32768 * v + c * (32768 * w) + d * (32768 * w)
  {
    Distribute(w, c, d);
  }

  /** `sa[j-1] = c & mask; c >>= bpe`, the step that all loops of a pass share. */
  method Column(sa: array<int>, ghost s0: seq<int>, ghost y: seq<int>, ghost n: seq<int>,
                ghost t: int, ghost u: int, j: nat, ghost c0: int, sum: int)
    returns (c: int)
    requires RowAt(sa[..], s0, y, n, t, u, j, c0) && j < sa.Length
    requires 0 <= t < 32768 && 0 <= u < 32768 && AreDigits(y) && AreDigits(n)
    requires sum == c0 + sa[j] + u * Digit(n, j) + t * Digit(y, j)
    modifies sa
    ensures RowAt(sa[..], s0, y, n, t, u, j + 1, c)
  {
    ghost var s := sa[..];
    RowStep(s, s0, y, n, t, u, j, c0);
    hide RowAt;
    sa[j - 1] := Low(sum);
    assert sa[..] == s[j - 1 := sum % 32768];
    c := High(sum);
  }

  /** One pass of mont_ over the scratch array: sa = (sa + t*y + ui*n) / radix, in the width kept. */
  method Row(sa: array<int>, y: array<int>, n: array<int>, t: int, ui: int, carry: int, ky: nat, kn: nat)
    requires sa != y && sa != n && 1 <= kn <= n.Length == sa.Length && ky <= kn && ky <= y.Length
    requires AreDigits(y[..]) && AreDigits(n[..]) && 0 <= t < 32768 && 0 <= ui < 32768
    requires forall i :: ky <= i < y.Length ==> y[i] == 0
    requires forall i :: kn <= i < n.Length ==> n[i] == 0
    requires RowAt(sa[..], sa[..], y[..], n[..], t, ui, 1, carry)
    modifies sa
    ensures RowEnd(sa[..], old(sa[..]), y[..], n[..], t, ui, Width(n.Length, kn))
  {
    hide RowAt, RowEnd, AreDigits;
    ghost var s0, ys, ns := sa[..], y[..], n[..];
    var ks := sa.Length - 1;
    var c, j := carry, 1;
    while j < ky
      invariant 1 <= j <= kn && (j <= ky || j == 1)
      invariant RowAt(sa[..], s0, ys, ns, t, ui, j, c)
    {
      c := Column(sa, s0, ys, ns, t, ui, j, c, c + sa[j] + ui * n[j] + t * y[j]);
      j := j + 1;
    }
    while j < kn
      invariant 1 <= j <= kn && ky <= j
      invariant RowAt(sa[..], s0, ys, ns, t, ui, j, c)
    {
      c := Column(sa, s0, ys, ns, t, ui, j, c, c + sa[j] + ui * n[j]);
      j := j + 1;
    }
    while j < ks
      invariant kn <= j <= Width(n.Length, kn)
      invariant RowAt(sa[..], s0, ys, ns, t, ui, j, c)
    {
      c := Column(sa, s0, ys, ns, t, ui, j, c, c + sa[j]);
      j := j + 1;
    }
    ghost var s := sa[..];
    RowLast(s, s0, ys, ns, t, ui, c, j);
    sa[j - 1] := Low(c);
    assert sa[..] == s[j - 1 := c % 32768];
  }

  /** After a pass: the quotient by the radix, cut to `w` digits; digits above are untouched. */
  ghost predicate RowEnd(s: seq<int>, s0: seq<int>, y: seq<int>, n: seq<int>, t: int, u: int, w: nat) {
    |s| == |s0| && AreDigits(s) &&
    (forall i :: w <= i < |s| ==> s[i] == s0[i]) &&
    Num(s, w) == RowSum(s0, y, n, t, u, w) / 32768 % Weight(w)
  }

  lemma RowLast(s: seq<int>, s0: seq<int>, y: seq<int>, n: seq<int>, t: int, u: int, c: int, j: nat)
    requires RowAt(s, s0, y, n, t, u, j, c) && j <= |s|
    ensures 0 <= c < 65536 && RowEnd(s[j - 1 := c % 32768], s0, y, n, t, u, j)
  {
    hide Num, Weight, RowSum;
    var s', q := s[j - 1 := c % 32768], c / 32768;
    CarryStep(s, j - 1, c);
    WeightNext(j - 1);
    NumBounds(s', j);
    var v := Num(s', j) + q * Weight(j);
    assert RowSum(s0, y, n, t, u, j) == 32768 * v;
    DivisionUnique(32768 * v, 32768, v, 0);
    DivisionUnique(v, Weight(j), q, Num(s', j));
  }

  // ------------------------------------------------------------------- mont_

  /** Only the lowest digits decide the clearing multiple. */
  lemma FirstColumn(s: seq<int>, y: seq<int>, n: seq<int>, xi: int, np: int, w: nat)
    requires AreDigits(s) && AreDigits(y) && AreDigits(n) && |s| > 0 && |y| > 0 && |n| > 0 && w > 0
    requires 0 <= xi < 32768 && NegInverse(Value(n), np)
    ensures var t := s[0] + xi * y[0]; var u := t % 32768 * np % 32768;
      u == Clearing(Num(s, w), xi, Value(y), np) && (t + u * n[0]) % 32768 == 0
  {
    hide Num, Weight, Clearing, NegInverse, Same;
    var t := s[0] + xi * y[0];
    var u := t % 32768 * np % 32768;
    LowestDigit(s, w);
    LowestDigit(y, |y|);
    LowestDigit(n, |n|);
    SameScale(y[0], Value(y), xi, 32768);
    SamePlus(s[0], Num(s, w), xi * y[0], xi * Value(y), 32768);
    assert t % 32768 == (Num(s, w) + xi * Value(y)) % 32768 by { SameIs(t, Num(s, w) + xi * Value(y)); }
    assert u == Clearing(Num(s, w), xi, Value(y), np) by { ClearingIs(Num(s, w), xi, Value(y), np); }
    FoldExact(Num(s, w), xi, Value(y), Value(n), np);
    SameScale(n[0], Value(n), u, 32768);
    SamePlus(t, Num(s, w) + xi * Value(y), u * n[0], u * Value(n), 32768);
    SameIs(t + u * n[0], Num(s, w) + xi * Value(y) + u * Value(n));
  }

  lemma SameIs(a: int, b: int)
    requires Same(a, b, 32768)
    ensures a % 32768 == b % 32768
  {
  }

  lemma ClearingIs(t: int, xi: int, y: int, np: int)
    ensures Clearing(t, xi, y, np) == (t + xi * y) % 32768 * np % 32768
  {
  }

  lemma LowestDigit(s: seq<int>, k: nat)
    requires AreDigits(s) && |s| > 0 && k > 0
    ensures Same(s[0], Num(s, k), 32768)
  {
    NumMod(s, 1, k);
    assert Weight(1) == 32768 * Weight(0) && Num(s, 1) == s[0];
    SmallMod(s[0], 32768);
  }

  /** A finished pass is one step of the truncated algorithm. */
  lemma RowFolds(s: seq<int>, s0: seq<int>, y: seq<int>, n: seq<int>, xi: int, np: int, w: nat)
    requires AreDigits(s0) && AreDigits(y) && AreDigits(n) && Used(y, |y|) <= w && Used(n, |n|) <= w
    requires RowEnd(s, s0, y, n, xi, Clearing(Num(s0, w), xi, Value(y), np), w)
    ensures Num(s, w) == Folded(Num(s0, w), xi, Value(y), Value(n), np) % Weight(w)
  {
    hide Num, Weight, Clearing, AreDigits, RowSum, Folded, Used, Value;
    var u := Clearing(Num(s0, w), xi, Value(y), np);
    UsedValue(y, w);
    UsedValue(n, w);
    RowSumIs(s0, y, n, xi, u, w);
    FoldedIs(Num(s0, w), xi, Value(y), Value(n), np);
  }

  lemma RowSumIs(s: seq<int>, y: seq<int>, n: seq<int>, t: int, u: int, w: nat)
    ensures RowSum(s, y, n, t, u, w) == Num(s, w) + t * Num(y, w) + u * Num(n, w)
  {
  }

  lemma FoldedIs(t: int, xi: int, y: int, n: int, np: int)
    ensures Folded(t, xi, y, n, np) == (t + xi * y + Clearing(t, xi, y, np) * n) / 32768
  {
  }

  lemma UsedValue(s: seq<int>, w: nat)
    requires Used(s, |s|) <= w
    ensures Num(s, w) == Value(s)
  {
    var k := Used(s, |s|);
    NumZeros(s, k, w);
    NumZeros(s, k, |s|);
  }

  /** The sizes that mont_ works with. */
  lemma MontSizes(xs: seq<int>, ys: seq<int>, ns: seq<int>, np: int, kn: nat, w: nat)
    requires AreDigits(xs) && AreDigits(ys) && AreDigits(ns)
    requires Value(xs) < Value(ns) && Value(ys) <= Value(ns) && NegInverse(Value(ns), np)
    requires kn == Used(ns, |ns|) && w == Width(|ns|, kn)
    ensures 1 <= kn <= w <= |ns| && Used(ys, |ys|) <= kn
    ensures Usable(xs, Value(ys), Value(ns), np, w) && Value(ns) < Weight(kn)
    ensures Num(xs, kn) == Value(xs)
  {
    hide Weight, NegInverse, Num;
    NumBounds(xs, |xs|);
    NumBounds(ys, |ys|);
    ValueUsed(ns);
    WeightMonotone(kn, w);
    UsedBound(ys, kn);
    UsedBound(xs, kn);
    UsedValue(xs, kn);
  }

  lemma KeptStart(s: seq<int>, xs: seq<int>, y: int, n: int, np: int, w: nat)
    requires forall i :: 0 <= i < |s| ==> s[i] == 0
    ensures Num(s, w) == Kept(xs, y, n, np, w, 0)
  {
    NumZeros(s, 0, w);
  }

  lemma RowStart(s: seq<int>, y: seq<int>, n: seq<int>, t: int, u: int, c: int)
    requires AreDigits(s) && |s| > 0 && |y| > 0 && |n| > 0 && 0 <= c < 65536
    requires s[0] + t * y[0] + u * n[0] == 32768 * c
    ensures RowAt(s, s, y, n, t, u, 1, c)
  {
    assert Weight(1) == 32768 * Weight(0) && Num(s, 0) == 0;
    assert Num(s, 1) == s[0] && Num(y, 1) == y[0] && Num(n, 1) == n[0];
  }

  lemma RowNext(s: seq<int>, s0: seq<int>, xs: seq<int>, ys: seq<int>, ns: seq<int>, np: int, w: nat, i: nat)
    requires AreDigits(s0) && AreDigits(ys) && AreDigits(ns) && Used(ys, |ys|) <= w && Used(ns, |ns|) <= w
    requires i < |xs| && RowEnd(s, s0, ys, ns, xs[i], Clearing(Num(s0, w), xs[i], Value(ys), np), w)
    requires Num(s0, w) == Kept(xs, Value(ys), Value(ns), np, w, i)
    requires forall j :: w <= j < |s0| ==> s0[j] == 0
    ensures Num(s, w) == Kept(xs, Value(ys), Value(ns), np, w, i + 1)
    ensures AreDigits(s) && forall j :: w <= j < |s| ==> s[j] == 0
  {
    hide Num, Clearing, Folded, Weight;
    RowFolds(s, s0, ys, ns, xs[i], np, w);
    assert Digit(xs, i) == xs[i];
  }

  /** What the final comparison, subtraction and copy make of the kept sum. */
  lemma MontEnd(s: seq<int>, xs: seq<int>, y: int, n: int, np: int, w: nat, k: nat, lenX: nat)
    requires Usable(xs, y, n, np, w) && n < Weight(k) && k <= w <= |s| && k <= lenX && AreDigits(s)
    requires Num(s, w) == Kept(xs, y, n, np, w, k)
    requires forall j :: w <= j < |s| ==> s[j] == 0
    ensures var r := Corrected(Value(s), n);
      0 <= r < n && r % Weight(lenX) == r && (Value(s) >= n ==> (Value(s) - n) % Weight(|s|) == r)
    ensures Same(Corrected(Value(s), n) * Weight(k), Num(xs, k) * y, n) <==> Fits(xs, y, n, np, w, k)
  {
    hide Num, Weight, Kept, Fits, Same, NegInverse, AreDigits, Usable;
    NumZeros(s, w, |s|);
    ProductExact(xs, y, n, np, w, k);
    WeightMonotone(k, lenX);
    WeightMonotone(k, |s|);
    var r := Corrected(Value(s), n);
    SmallMod(r, Weight(lenX));
    SmallMod(r, Weight(|s|));
  }

  /** One turn of the outer loop of mont_: choose the clearing multiple, then add the row. */
  method Pass(sa: array<int>, x: array<int>, y: array<int>, n: array<int>, np: int, i: nat, ky: nat, kn: nat)
    requires sa != x && sa != y && sa != n && 0 < y.Length && i < x.Length && 1 <= kn <= n.Length == sa.Length
    requires ky == Used(y[..], y.Length) <= kn && kn == Used(n[..], n.Length)
    requires AreDigits(sa[..]) && AreDigits(x[..]) && AreDigits(y[..]) && AreDigits(n[..])
    requires NegInverse(Value(n[..]), np) && 0 <= np <= 65536
    requires var w := Width(n.Length, kn);
      Num(sa[..], w) == Kept(x[..], Value(y[..]), Value(n[..]), np, w, i) &&
      forall j :: w <= j < sa.Length ==> sa[j] == 0
    modifies sa
    ensures AreDigits(sa[..])
    ensures var w := Width(n.Length, kn);
      Num(sa[..], w) == Kept(x[..], Value(y[..]), Value(n[..]), np, w, i + 1) &&
      forall j :: w <= j < sa.Length ==> sa[j] == 0
  {
    hide Num, Weight, RowSum, RowEnd, RowAt, Kept, NegInverse, Clearing, Value;
    ghost var s0, w := sa[..], Width(n.Length, kn);
    DigitProduct(x[i], y[0]);
    var t := sa[0] + x[i] * y[0];
    TimesMonotone(0, Low(t), np);
    TimesMonotone(Low(t), 32767, np);
    var ui := Low(Low(t) * np);
    DigitProduct(ui, n[0]);
    var c := High(t + ui * n[0]);
    FirstColumn(s0, y[..], n[..], x[i], np, w);
    RowStart(s0, y[..], n[..], x[i], ui, c);
    Row(sa, y, n, x[i], ui, c, ky, kn);
    RowNext(sa[..], s0, x[..], y[..], n[..], np, w, i);
  }

  /**
   * mont_: multiplies `x` by `y` in Montgomery form. The result is always
   * reduced, and it is the Montgomery product exactly when every partial sum
   * fits in the digits that the scratch array keeps.
   */
  method Mont(x: array<int>, y: array<int>, n: array<int>, np: int)
    requires x != n && y != n && y.Length > 0 && n.Length > 0
    requires AreDigits(x[..]) && AreDigits(y[..]) && AreDigits(n[..])
    requires Value(x[..]) < Value(n[..]) && Value(y[..]) <= Value(n[..])
    requires NegInverse(Value(n[..]), np) && 0 <= np <= 65536
    requires Used(n[..], n.Length) <= x.Length
    modifies x
    ensures AreDigits(x[..]) && 0 <= Value(x[..]) < Value(n[..])
    ensures var k := Used(n[..], n.Length);
      Same(Value(x[..]) * Weight(k), old(Value(x[..])) * old(Value(y[..])), Value(n[..]))
      <==> Fits(old(x[..]), old(Value(y[..])), Value(n[..]), np, Width(n.Length, k), k)
  {
    hide Num, Weight, RowSum, RowEnd, RowAt, Kept, Folded, Fits, Same, NegInverse, Clearing, Value, AreDigits, Used;
    ghost var xs, ys, ns := x[..], y[..], n[..];
    ghost var yv, nv := Value(ys), Value(ns);
    var sa := new int[n.Length];
    CopyInt(sa, 0);
    var kn := SkipZeros(n);
    var ky := SkipZeros(y);
    ghost var w := Width(n.Length, kn);
    MontSizes(xs, ys, ns, np, kn, w);
    KeptStart(sa[..], xs, yv, nv, np, w);
    for i := 0 to kn
      invariant x[..] == xs && y[..] == ys && n[..] == ns
      invariant AreDigits(sa[..]) && forall j :: w <= j < sa.Length ==> sa[j] == 0
      invariant Num(sa[..], w) == Kept(xs, yv, nv, np, w, i)
      modifies sa
    {
      Pass(sa, x, y, n, np, i, ky, kn);
    }
    MontEnd(sa[..], xs, yv, nv, np, w, kn, x.Length);
    Correct(sa, n);
    assert n[..] == ns;
    Copy(x, sa);
    assert n[..] == ns;
  }

  /** `if (!greater(n,sa)) sub_(sa,n);` */
  method Correct(sa: array<int>, n: array<int>)
    requires sa != n && AreDigits(sa[..]) && AreDigits(n[..])
    modifies sa
    ensures AreDigits(sa[..])
    ensures Value(sa[..]) ==
      old(if Value(sa[..]) >= Value(n[..]) then (Value(sa[..]) - Value(n[..])) % Weight(sa.Length) else Value(sa[..]))
  {
    var g := Greater(n, sa);
    if !g {
      Subtract(sa, n);
    }
  }
}
