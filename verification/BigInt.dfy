/**
 * The digit loops of src/webclient/BigInt.js, in place on arrays of 15-bit
 * digits. `Low` and `High` are the source's `c & mask` and `c >> bpe`; their
 * preconditions make every use prove that `c` is a 32-bit integer, where
 * JavaScript's bit operators are exact.
 */
module BigInt {
  import opened Digits

  function Low(c: int): (r: int)
    requires -0x8000_0000 <= c < 0x8000_0000
    ensures 0 <= r < 32768 && (r - c) % 32768 == 0
  {
    c % 32768
  }

  function High(c: int): (r: int)
    requires -0x8000_0000 <= c < 0x8000_0000
    ensures 32768 * r <= c < 32768 * (r + 1)
  {
    c / 32768
  }

  /** The number of digits among the first `k`, not counting leading zeros. */
  function Used(s: seq<int>, k: nat): (u: nat)
    requires k <= |s|
    ensures u <= k && (u > 0 ==> s[u - 1] != 0)
    ensures forall i :: u <= i < k ==> s[i] == 0
  {
    if k == 0 || s[k - 1] != 0 then k else Used(s, k - 1)
  }

  // ------------------------------------------------------------- about digits

  /** Putting down the low digit and carrying the rest loses nothing. */
  lemma CarryStep(s: seq<int>, i: nat, c: int)
    requires i < |s|
    ensures Num(s[i := c % 32768], i + 1) + c / 32768 * Weight(i + 1) == Num(s, i) + c * Weight(i)
  {
    hide Num, Weight;
    var t := s[i := c % 32768];
    NumFrame(s, t, i);
    assert Num(t, i + 1) == Num(t, i) + c % 32768 * Weight(i) by { NumNext(t, i); }
    assert c / 32768 * Weight(i + 1) == 32768 * (c / 32768) * Weight(i) by {
      WeightNext(i);
      Associate(c / 32768, 32768, Weight(i));
    }
    Distribute(Weight(i), 32768 * (c / 32768), c % 32768);
  }

  lemma NumNext(s: seq<int>, k: nat)
    ensures Num(s, k + 1) == Num(s, k) + Digit(s, k) * Weight(k)
  {
  }

  lemma WeightNext(k: nat)
    ensures Weight(k + 1) == 32768 * Weight(k)
  {
  }

  /** Equal digits contribute equally. */
  lemma {:induction false} NumTail(s: seq<int>, t: seq<int>, k: nat, m: nat)
    requires k <= m
    requires forall i :: k <= i < m ==> Digit(s, i) == Digit(t, i)
    ensures Num(s, m) - Num(s, k) == Num(t, m) - Num(t, k)
  {
    if k < m {
      NumTail(s, t, k, m - 1);
      assert Digit(s, m - 1) == Digit(t, m - 1);
    }
  }

  /** How a carry loop ends: either the carry ran out, or it left the array. */
  lemma CarryEnd(s: seq<int>, s0: seq<int>, i: nat, c: int, add: int)
    requires AreDigits(s) && i <= |s| == |s0|
    requires forall k :: i <= k < |s| ==> s[k] == s0[k]
    requires Num(s, i) + c * Weight(i) == Num(s0, i) + add
    requires c == 0 || i == |s|
    ensures Value(s) == (Value(s0) + add) % Weight(|s|)
  {
    hide Num, Weight;
    NumBounds(s, |s|);
    if c == 0 {
      NumTail(s, s0, i, |s|);
      SmallMod(Value(s), Weight(|s|));
    } else {
      DivisionUnique(Value(s0) + add, Weight(|s|), c, Value(s));
    }
  }

  lemma ValueUsed(s: seq<int>)
    requires AreDigits(s)
    ensures Value(s) == Num(s, Used(s, |s|)) < Weight(Used(s, |s|))
    ensures Used(s, |s|) > 0 <==> Value(s) > 0
    ensures Used(s, |s|) > 0 ==> Value(s) >= Weight(Used(s, |s|) - 1)
  {
    var k := Used(s, |s|);
    NumZeros(s, k, |s|);
    NumBounds(s, k);
    if k > 0 {
      NumBounds(s, k - 1);
      TimesMonotone(1, s[k - 1], Weight(k - 1));
    }
  }

  /** A number below a weight uses no digit from there on. */
  lemma UsedBound(s: seq<int>, k: nat)
    requires AreDigits(s) && Value(s) < Weight(k)
    ensures Used(s, |s|) <= k
  {
    ValueUsed(s);
    if Used(s, |s|) > k {
      WeightMonotone(k, Used(s, |s|) - 1);
    }
  }

  /** Skips leading zeros, as `for (k=x.length; k>0 && !x[k-1]; k--);` does. */
  method SkipZeros(x: array<int>) returns (k: nat)
    ensures k == Used(x[..], x.Length)
  {
    k := x.Length;
    while k > 0 && x[k - 1] == 0
      invariant k <= x.Length && Used(x[..], x.Length) == Used(x[..], k)
    {
      k := k - 1;
    }
  }

  lemma CopiedValue(s: seq<int>, t: seq<int>)
    requires AreDigits(t)
    requires forall i :: 0 <= i < |s| ==> s[i] == Digit(t, i)
    ensures AreDigits(s) && Value(s) == Value(t) % Weight(|s|)
  {
    NumFrame(s, t, |s|);
    if |s| <= |t| {
      NumMod(t, |s|, |t|);
    } else {
      NumZeros(t, |t|, |s|);
      NumBounds(t, |s|);
      SmallMod(Num(t, |s|), Weight(|s|));
    }
  }

  // ---------------------------------------------------------- copies and tests

  /** copy_ */
  method Copy(x: array<int>, y: array<int>)
    requires AreDigits(y[..])
    modifies x
    ensures AreDigits(x[..]) && Value(x[..]) == old(Value(y[..])) % Weight(x.Length)
    ensures forall i :: 0 <= i < x.Length ==> x[i] == Digit(old(y[..]), i)
  {
    hide Value, Weight;
    ghost var t := y[..];
    var k := if x.Length < y.Length then x.Length else y.Length;
    for i := 0 to k
      invariant forall j :: 0 <= j < i ==> x[j] == t[j]
      invariant forall j :: i <= j < y.Length ==> y[j] == t[j]
    {
      x[i] := y[i];
    }
    for i := k to x.Length
      invariant forall j :: 0 <= j < i ==> x[j] == Digit(t, j)
    {
      x[i] := 0;
    }
    CopiedValue(x[..], t);
  }

  /** copyInt_ */
  method CopyInt(x: array<int>, n: int)
    requires -0x8000_0000 <= n < 0x8000_0000
    modifies x
    ensures AreDigits(x[..]) && Value(x[..]) == n % Weight(x.Length)
    ensures n == 0 ==> forall i :: 0 <= i < x.Length ==> x[i] == 0
  {
    hide Num, Weight;
    var c := n;
    assert Num(x[..], 0) == 0 && Weight(0) == 1 by { NumZero(x[..]); }
    for i := 0 to x.Length
      invariant -0x8000_0000 <= c < 0x8000_0000 && (n == 0 ==> c == 0)
      invariant forall j :: 0 <= j < i ==> 0 <= x[j] < 32768
      invariant Num(x[..], i) + c * Weight(i) == n
      invariant n == 0 ==> forall j :: 0 <= j < i ==> x[j] == 0
    {
      ghost var s := x[..];
      CarryStep(s, i, c);
      x[i] := Low(c);
      assert x[..] == s[i := c % 32768];
      c := High(c);
    }
    NumBounds(x[..], x.Length);
    DivisionUnique(n, Weight(x.Length), c, Value(x[..]));
  }

  lemma NumZero(s: seq<int>)
    ensures Num(s, 0) == 0 && Weight(0) == 1
  {
  }

  /** greater */
  method Greater(x: array<int>, y: array<int>) returns (r: bool)
    requires AreDigits(x[..]) && AreDigits(y[..])
    ensures r <==> Value(x[..]) > Value(y[..])
  {
    hide Num, Weight;
    var k := if x.Length < y.Length then x.Length else y.Length;
    var i := x.Length;
    while i < y.Length
      invariant x.Length <= i
      invariant forall j :: x.Length <= j < i && j < y.Length ==> y[j] == 0
    {
      if y[i] != 0 {
        LongerWins(y[..], x[..], i);
        return false;
      }
      i := i + 1;
    }
    i := y.Length;
    while i < x.Length
      invariant y.Length <= i
      invariant forall j :: y.Length <= j < i && j < x.Length ==> x[j] == 0
    {
      if x[i] != 0 {
        LongerWins(x[..], y[..], i);
        return true;
      }
      i := i + 1;
    }
    if x.Length < y.Length { NumZeros(y[..], k, y.Length); } else { NumZeros(x[..], k, x.Length); }
    i := k - 1;
    while i >= 0
      invariant -1 <= i < k
      invariant forall j :: i < j < k ==> x[j] == y[j]
    {
      if x[i] > y[i] {
        HigherDigit(x[..], y[..], i);
        NumTail(x[..], y[..], i + 1, k);
        return true;
      } else if x[i] < y[i] {
        HigherDigit(y[..], x[..], i);
        NumTail(x[..], y[..], i + 1, k);
        return false;
      }
      i := i - 1;
    }
    NumFrame(x[..], y[..], k);
    return false;
  }

  lemma HigherDigit(s: seq<int>, t: seq<int>, i: nat)
    requires AreDigits(s) && AreDigits(t) && Digit(s, i) > Digit(t, i)
    ensures Num(s, i + 1) > Num(t, i + 1)
  {
    hide Weight, Num;
    NumBounds(s, i);
    NumBounds(t, i);
    NumNext(s, i);
    NumNext(t, i);
    TimesMonotone(Digit(t, i) + 1, Digit(s, i), Weight(i));
    Distribute(Weight(i), Digit(t, i), 1);
  }

  lemma LongerWins(s: seq<int>, t: seq<int>, i: nat)
    requires AreDigits(s) && AreDigits(t) && |t| <= i < |s| && s[i] != 0
    ensures Value(s) > Value(t)
  {
    HigherDigit(s, t, i);
    NumZeros(t, |t|, i + 1);
    NumGrows(s, i + 1, |s|);
  }

  lemma {:induction false} NumGrows(s: seq<int>, k: nat, m: nat)
    requires AreDigits(s) && k <= m
    ensures Num(s, k) <= Num(s, m)
  {
    if k < m {
      NumGrows(s, k, m - 1);
      TimesMonotone(0, Digit(s, m - 1), Weight(m - 1));
    }
  }

  // ---------------------------------------------------------- carry loops

  /** Digits beyond the end of the target do not matter modulo its size. */
  lemma TruncatedSame(y: seq<int>, m: nat)
    requires AreDigits(y)
    ensures Same(Num(y, if m < |y| then m else |y|), Value(y), Weight(m))
  {
    if m < |y| {
      NumMod(y, m, |y|);
      SameMod(Value(y), Weight(m));
    }
  }

  /** sub_: two's complement subtraction in the width of `x`. */
  method Subtract(x: array<int>, y: array<int>)
    requires x != y && AreDigits(x[..]) && AreDigits(y[..])
    modifies x
    ensures AreDigits(x[..]) && Value(x[..]) == (old(Value(x[..])) - Value(y[..])) % Weight(x.Length)
  {
    hide Num, Weight, Same;
    ghost var s0, ys := x[..], y[..];
    var k := if x.Length < y.Length then x.Length else y.Length;
    var c, i := 0, 0;
    NumZero(s0);
    NumZero(ys);
    while i < k
      invariant 0 <= i <= k && -1 <= c <= 0
      invariant AreDigits(x[..]) && forall j :: i <= j < x.Length ==> x[j] == s0[j]
      invariant Num(x[..], i) + c * Weight(i) == Num(s0, i) - Num(ys, i)
    {
      ghost var s := x[..];
      assert s[i] == s0[i];
      ghost var c0 := c;
      c := c + x[i] - y[i];
      SubtractColumn(s, s0, ys, i, c0);
      x[i] := Low(c);
      assert x[..] == s[i := c % 32768];
      c := High(c);
      i := i + 1;
    }
    ghost var add := -Num(ys, k);
    CarryOut(x, s0, i, c, add);
    TruncatedSame(ys, x.Length);
    SameScale(Num(ys, k), Value(ys), -1, Weight(x.Length));
    SameAdd(Value(s0), add, -Value(ys), Weight(x.Length));
  }

  lemma SameAdd(a: int, b: int, c: int, m: int)
    requires m > 0 && Same(b, c, m)
    ensures (a + b) % m == (a + c) % m
  {
    SamePlus(a, a, b, c, m);
  }

  lemma SubtractColumn(s: seq<int>, s0: seq<int>, y: seq<int>, i: nat, c: int)
    requires i < |s| == |s0| && i < |y| && s[i] == s0[i]
    requires Num(s, i) + c * Weight(i) == Num(s0, i) - Num(y, i)
    ensures var c' := c + s[i] - y[i];
      Num(s[i := c' % 32768], i + 1) + c' / 32768 * Weight(i + 1) == Num(s0, i + 1) - Num(y, i + 1)
  {
    hide Num, Weight;
    CarryStep(s, i, c + s[i] - y[i]);
    NumNext(s0, i);
    NumNext(y, i);
    Distribute(Weight(i), c, s[i]);
    Distribute(Weight(i), c + s[i], y[i]);
  }

  lemma CarryColumn(s: seq<int>, s0: seq<int>, i: nat, c: int, add: int)
    requires i < |s| == |s0| && s[i] == s0[i]
    requires Num(s, i) + c * Weight(i) == Num(s0, i) + add
    ensures var c' := c + s[i];
      Num(s[i := c' % 32768], i + 1) + c' / 32768 * Weight(i + 1) == Num(s0, i + 1) + add
  {
    hide Num, Weight;
    CarryStep(s, i, c + s[i]);
    NumNext(s0, i);
    Distribute(Weight(i), c, s[i]);
  }

  /** The second loop of every carry routine: push the carry up until it is used up. */
  method CarryOut(x: array<int>, ghost s0: seq<int>, from: nat, carry: int, ghost add: int)
    requires AreDigits(x[..]) && from <= x.Length == |s0| && -65536 <= carry < 65536
    requires forall j :: from <= j < x.Length ==> x[j] == s0[j]
    requires Num(x[..], from) + carry * Weight(from) == Num(s0, from) + add
    modifies x
    ensures AreDigits(x[..]) && Value(x[..]) == (Value(s0) + add) % Weight(x.Length)
  {
    hide Num, Weight;
    var i, c := from, carry;
    while c != 0 && i < x.Length
      invariant from <= i <= x.Length && -65536 <= c < 65536
      invariant AreDigits(x[..]) && forall j :: i <= j < x.Length ==> x[j] == s0[j]
      invariant Num(x[..], i) + c * Weight(i) == Num(s0, i) + add
    {
      ghost var s := x[..];
      assert s[i] == s0[i];
      CarryColumn(s, s0, i, c, add);
      c := c + x[i];
      x[i] := Low(c);
      assert x[..] == s[i := c % 32768];
      c := High(c);
      i := i + 1;
    }
    CarryEnd(x[..], s0, i, c, add);
  }

  /** linCombShift_: x += b * (y << ys digits), in the width of `x`; addShift_ and subShift_ are its cases 1 and -1. */
  method LinCombShift(x: array<int>, y: array<int>, b: int, ys: nat)
    requires x != y && AreDigits(x[..]) && AreDigits(y[..]) && -65536 < b < 65536
    modifies x
    ensures AreDigits(x[..])
    ensures Value(x[..]) == (old(Value(x[..])) + b * (Value(y[..]) * Weight(ys))) % Weight(x.Length)
  {
    hide Num, Weight, Same;
    ghost var s0, yv := x[..], y[..];
    var k := if x.Length < ys + y.Length then x.Length else ys + y.Length;
    if k < ys {
      MultipleVanishes(b, Value(yv), ys, x.Length);
      NumBounds(s0, x.Length);
      SameAdd(Value(s0), b * (Value(yv) * Weight(ys)), 0, Weight(x.Length));
      SmallMod(Value(s0), Weight(x.Length));
      return;
    }
    var c := Columns(x, y, b, ys, k);
    ghost var add := b * (Num(yv, k - ys) * Weight(ys));
    CarryOut(x, s0, k, c, add);
    ShiftedSame(yv, b, ys, x.Length);
    SameAdd(Value(s0), add, b * (Value(yv) * Weight(ys)), Weight(x.Length));
  }

  /** The first loop of linCombShift_: the columns that both numbers have. */
  method Columns(x: array<int>, y: array<int>, b: int, ys: nat, k: nat) returns (c: int)
    requires x != y && AreDigits(x[..]) && AreDigits(y[..]) && -65536 < b < 65536
    requires ys <= k <= x.Length && k <= ys + y.Length
    modifies x
    ensures AreDigits(x[..]) && -65536 <= c < 65536
    ensures forall j :: k <= j < x.Length ==> x[j] == old(x[j])
    ensures Num(x[..], k) + c * Weight(k) == Num(old(x[..]), k) + b * (Num(y[..], k - ys) * Weight(ys))
  {
    hide Num, Weight;
    ghost var s0, yv := x[..], y[..];
    NumZero(yv);
    c := 0;
    var i := ys;
    while i < k
      invariant ys <= i <= k && -65536 <= c < 65536
      invariant AreDigits(x[..]) && forall j :: i <= j < x.Length ==> x[j] == s0[j]
      invariant Num(x[..], i) + c * Weight(i) == Num(s0, i) + b * (Num(yv, i - ys) * Weight(ys))
    {
      ghost var s := x[..];
      assert s[i] == s0[i];
      ghost var c0 := c;
      SignedProduct(b, y[i - ys]);
      c := c + x[i] + b * y[i - ys];
      LinCombColumn(s, s0, yv, b, ys, i, c0);
      x[i] := Low(c);
      assert x[..] == s[i := c % 32768];
      c := High(c);
      i := i + 1;
    }
  }

  lemma DigitProduct(a: int, b: int)
    requires 0 <= a < 32768 && 0 <= b < 32768
    ensures 0 <= a * b <= 32767 * 32767
  {
    TimesMonotone(0, a, b);
    TimesMonotone(a, 32767, b);
  }

  lemma SignedProduct(a: int, b: int)
    requires -65536 < a < 65536 && 0 <= b < 32768
    ensures -(65535 * 32767) <= a * b <= 65535 * 32767
  {
    TimesMonotone(a, 65535, b);
    TimesMonotone(-65535, a, b);
  }

  lemma LinCombColumn(s: seq<int>, s0: seq<int>, y: seq<int>, b: int, ys: nat, i: nat, c: int)
    requires ys <= i < |s| == |s0| && i - ys < |y| && s[i] == s0[i]
    requires Num(s, i) + c * Weight(i) == Num(s0, i) + b * (Num(y, i - ys) * Weight(ys))
    ensures var c' := c + s[i] + b * y[i - ys];
      Num(s[i := c' % 32768], i + 1) + c' / 32768 * Weight(i + 1)
      == Num(s0, i + 1) + b * (Num(y, i + 1 - ys) * Weight(ys))
  {
    hide Num, Weight;
    var w, d := Weight(i), y[i - ys];
    CarryStep(s, i, c + s[i] + b * d);
    NumNext(s0, i);
    ShiftedNext(y, b, ys, i - ys);
    Distribute3(w, c, s[i], b * d);
  }

  lemma Distribute3(w: int, a: int, b: int, c: int)
    ensures (a + b + c) * w == a * w + b * w + c * w
  {
  }

  lemma ShiftedNext(y: seq<int>, b: int, ys: nat, j: nat)
    ensures b * (Num(y, j + 1) * Weight(ys)) == b * (Num(y, j) * Weight(ys)) + b * Digit(y, j) * Weight(j + ys)
  {
    hide Num, Weight;
    var d, v, wj, wy := Digit(y, j), Num(y, j), Weight(j), Weight(ys);
    NumNext(y, j);
    WeightAdd(j, ys);
    assert (v + d * wj) * wy == v * wy + d * (wj * wy) by { Associate(d, wj, wy); Distribute(wy, v, d * wj); }
    Distribute(b, v * wy, d * (wj * wy));
    Associate(b, d, wj * wy);
  }

  lemma MultipleVanishes(b: int, v: int, ys: nat, m: nat)
    requires m <= ys
    ensures Same(b * (v * Weight(ys)), 0, Weight(m))
  {
    hide Same, Weight;
    WeightAdd(m, ys - m);
    Associate(v, Weight(m), Weight(ys - m));
    Associate(b, Weight(m), v * Weight(ys - m));
    SameByMultiple(b * (v * Weight(ys)), 0, b * (v * Weight(ys - m)), Weight(m));
  }

  lemma ScaledMultiple(a: int, v: int, m: int, q: int, w: int)
    requires a == v + m * q
    ensures a * w == v * w + m * w * q
  {
    Distribute(w, v, m * q);
    Associate(w, m, q);
  }

  lemma ShiftedSame(y: seq<int>, b: int, ys: nat, m: nat)
    requires AreDigits(y) && ys <= m
    ensures var k := if m < ys + |y| then m else ys + |y|;
      Same(b * (Num(y, k - ys) * Weight(ys)), b * (Value(y) * Weight(ys)), Weight(m))
  {
    hide Same, Weight, Num;
    var k := if m < ys + |y| then m else ys + |y|;
    TruncatedSame(y, m - ys);
    var q := SameMultiple(Num(y, k - ys), Value(y), Weight(m - ys));
    WeightAdd(m - ys, ys);
    ScaledMultiple(Num(y, k - ys), Value(y), Weight(m - ys), q, Weight(ys));
    SameByMultiple(Num(y, k - ys) * Weight(ys), Value(y) * Weight(ys), q, Weight(m));
    SameScale(Num(y, k - ys) * Weight(ys), Value(y) * Weight(ys), b, Weight(m));
  }
}
