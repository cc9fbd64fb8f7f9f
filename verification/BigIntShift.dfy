/** leftShift_ and rightShift_ of src/webclient/BigInt.js, by less than a digit. */
module BigIntShift {
  import opened Digits
  import opened BigInt

  /** `p` is a power of two within a digit and `q` its complement. */
  ghost predicate Complement(p: int, q: int) {
    p > 0 && q > 0 && p * q == 32768
  }

  /** `mask & (d << n)` where p is 2^n. */
  function Lo(d: int, p: int): int {
    d * p % 32768
  }

  /** `d >> n` where q is 2^n. */
  function Hi(d: int, q: int): int
    requires q > 0
  {
    d / q
  }

  // ------------------------------------------------------------------ left

  /** A digit times `p`, split at the digit boundary. */
  lemma DigitSplit(d: int, p: int, q: int)
    requires Complement(p, q) && 0 <= d < 32768
    ensures d * p == 32768 * Hi(d, q) + Lo(d, p)
    ensures 0 <= Hi(d, q) < p && Lo(d, p) == p * (d % q)
  {
    var h, l := d / q, d % q;
    assert d == q * h + l;
    Distribute(p, q * h, l);
    Associate(p, q, h);
    TimesMonotone(l, q - 1, p);
    TimesMonotone(0, l, p);
    Distribute(p, q, 1);
    DivisionUnique(d * p, 32768, h, p * l);
    QuotientBelow(d, p, q);
  }

  /** What digit `k - 1` spills into digit `k`. */
  ghost function Spill(s: seq<int>, q: int, k: nat): int
    requires q > 0 && k <= |s|
  {
    if k == 0 then 0 else Hi(s[k - 1], q)
  }

  /** Digit `k` after the shift: the low part of its own product, and what spills from below. */
  ghost predicate LeftShifted(t: seq<int>, s: seq<int>, p: int, q: int)
    requires q > 0
  {
    |t| == |s| &&
    forall k :: 0 <= k < |s| ==> t[k] == Lo(s[k], p) + Spill(s, q, k)
  }

  lemma SpillIs(s: seq<int>, q: int, k: nat)
    requires q > 0 && k <= |s|
    ensures Spill(s, q, k) == if k == 0 then 0 else Hi(s[k - 1], q)
  {
  }

  lemma {:induction false} LeftValue(t: seq<int>, s: seq<int>, p: int, q: int, k: nat)
    requires p > 0 && q > 0 && Complement(p, q) && AreDigits(s) && LeftShifted(t, s, p, q) && k <= |s|
    ensures Num(t, k) + Spill(s, q, k) * Weight(k) == p * Num(s, k)
  {
    hide Lo, Hi, Spill, Num, Weight, Complement;
    if k == 0 {
      NumZero(s);
      NumZero(t);
      SpillIs(s, q, 0);
    } else {
      LeftValue(t, s, p, q, k - 1);
      var d := s[k - 1];
      DigitSplit(d, p, q);
      SpillIs(s, q, k);
      NumNext(s, k - 1);
      NumNext(t, k - 1);
      WeightNext(k - 1);
      assert t[k - 1] == Lo(d, p) + Spill(s, q, k - 1);
      LeftStep(Num(t, k - 1), Num(s, k - 1), p, d, Hi(d, q), Lo(d, p), Spill(s, q, k - 1), Weight(k - 1));
    }
  }

  lemma LeftStep(tv: int, sv: int, p: int, d: int, h: int, l: int, spill: int, w: int)
    requires tv + spill * w == p * sv && d * p == 32768 * h + l
    ensures tv + (l + spill) * w + h * (32768 * w) == p * (sv + d * w)
  {
    Distribute(w, l, spill);
    Distribute(p, sv, d * w);
    Associate(p, d, w);
    Distribute(w, 32768 * h, l);
    Associate(h, 32768, w);
  }

  /** leftShift_: what does not fit into the array is dropped. */
  method LeftShift(x: array<int>, n: nat)
    requires n < 15 && x.Length > 0 && AreDigits(x[..])
    modifies x
    ensures AreDigits(x[..]) && Value(x[..]) == old(Value(x[..])) * Power(2, n) % Weight(x.Length)
  {
    hide Num, Weight, Power, Lo, Hi;
    ghost var s := x[..];
    PowersOfTwo(n);
    if n == 0 {
      NumBounds(s, |s|);
      SmallMod(Value(s), Weight(|s|));
      return;
    }
    var p, q := Power(2, n), Power(2, 15 - n);
    var i := x.Length - 1;
    while i > 0
      invariant 0 <= i < x.Length
      invariant forall k :: 0 <= k <= i ==> x[k] == s[k]
      invariant forall k :: i < k < x.Length ==> x[k] == Lo(s[k], p) + Hi(s[k - 1], q)
    {
      x[i] := Lo(x[i], p) + Hi(x[i - 1], q);
      i := i - 1;
    }
    x[0] := Lo(x[0], p);
    LeftDone(x[..], s, p, q);
  }

  lemma PowersOfTwo(n: nat)
    requires n < 15
    ensures Complement(Power(2, n), Power(2, 15 - n)) && (n == 0 ==> Power(2, n) == 1)
  {
    assert Power(2, 5) == 32;
    PowerAdd(2, 5, 5);
    PowerAdd(2, 10, 5);
    PowerAdd(2, n, 15 - n);
    PowerTwoPositive(n);
    PowerTwoPositive(15 - n);
  }

  lemma LeftDone(t: seq<int>, s: seq<int>, p: int, q: int)
    requires Complement(p, q) && AreDigits(s) && LeftShifted(t, s, p, q) && |s| > 0
    ensures AreDigits(t) && Value(t) == Value(s) * p % Weight(|s|)
  {
    hide Num, Weight, Lo, Spill;
    forall k | 0 <= k < |t|
      ensures 0 <= t[k] < 32768
    {
      LowPart(s[k], p, q);
      SpillBound(s, p, q, k);
      assert t[k] == Lo(s[k], p) + Spill(s, q, k);
    }
    LeftValue(t, s, p, q, |s|);
    NumBounds(t, |t|);
    DivisionUnique(Value(s) * p, Weight(|s|), Spill(s, q, |s|), Value(t));
  }

  lemma SpillBound(s: seq<int>, p: int, q: int, k: nat)
    requires Complement(p, q) && AreDigits(s) && k <= |s|
    ensures 0 <= Spill(s, q, k) < p
  {
    if k > 0 {
      DigitSplit(s[k - 1], p, q);
    }
  }

  lemma LowPart(d: int, p: int, q: int)
    requires Complement(p, q) && 0 <= d < 32768
    ensures 0 <= Lo(d, p) <= 32768 - p
  {
    DigitSplit(d, p, q);
    var l := d % q;
    TimesMonotone(l, q - 1, p);
    TimesMonotone(0, l, p);
    Distribute(p, q, 1);
  }

  // ----------------------------------------------------------------- right

  ghost predicate RightShifted(t: seq<int>, s: seq<int>, p: int, q: int)
    requires p > 0
  {
    |t| == |s| &&
    forall k :: 0 <= k < |s| ==> t[k] == Lo(Digit(s, k + 1), q) + Hi(s[k], p)
  }

  lemma {:induction false} RightValue(t: seq<int>, s: seq<int>, p: int, q: int, k: nat)
    requires p > 0 && q > 0 && Complement(p, q) && AreDigits(s) && RightShifted(t, s, p, q) && k <= |s| && |s| > 0
    ensures p * Num(t, k) + s[0] % p == Num(s, k) + Digit(s, k) % p * Weight(k)
  {
    hide Lo, Hi, Num, Weight, Complement;
    if k == 0 {
      NumZero(s);
      NumZero(t);
    } else {
      RightValue(t, s, p, q, k - 1);
      var d, e := s[k - 1], Digit(s, k);
      NumNext(s, k - 1);
      NumNext(t, k - 1);
      WeightNext(k - 1);
      Swap(p, q);
      DigitSplit(e, q, p);
      RightStep(Num(t, k - 1), Num(s, k - 1), s[0] % p, p, q, d, e, Weight(k - 1));
    }
  }

  lemma Swap(p: int, q: int)
    requires Complement(p, q)
    ensures Complement(q, p)
  {
  }

  lemma RightStep(tv: int, sv: int, m: int, p: int, q: int, d: int, e: int, w: int)
    requires Complement(p, q) && p * tv + m == sv + d % p * w
    ensures p * (tv + (q * (e % p) + Hi(d, p)) * w) + m == sv + d * w + e % p * (32768 * w)
  {
    var h, l, f := Hi(d, p), d % p, e % p;
    assert d == p * h + l;
    Distribute(p, tv, (q * f + h) * w);
    Associate(p, q * f + h, w);
    Distribute(p, q * f, h);
    Associate(p, q, f);
    assert p * (q * f + h) == 32768 * f + p * h;
    Distribute(w, 32768 * f, p * h);
    Distribute(w, p * h, l);
    Associate(f, 32768, w);
  }

  /** rightShift_ */
  method RightShift(x: array<int>, n: nat)
    requires n < 15 && x.Length > 0 && AreDigits(x[..])
    modifies x
    ensures AreDigits(x[..]) && Power(2, n) > 0 && Value(x[..]) == old(Value(x[..])) / Power(2, n)
  {
    hide Num, Weight, Power, Lo, Hi;
    ghost var s := x[..];
    PowersOfTwo(n);
    var p, q := Power(2, n), Power(2, 15 - n);
    var i := 0;
    while i < x.Length - 1
      invariant 0 <= i < x.Length
      invariant forall k :: i <= k < x.Length ==> x[k] == s[k]
      invariant forall k :: 0 <= k < i ==> x[k] == Lo(s[k + 1], q) + Hi(s[k], p)
    {
      x[i] := Lo(x[i + 1], q) + Hi(x[i], p);
      i := i + 1;
    }
    x[i] := Hi(x[i], p);
    NoSpill(q);
    RightDone(x[..], s, p, q);
  }

  lemma NoSpill(q: int)
    ensures Lo(0, q) == 0
  {
  }

  lemma RightDone(t: seq<int>, s: seq<int>, p: int, q: int)
    requires Complement(p, q) && AreDigits(s) && RightShifted(t, s, p, q) && |s| > 0
    ensures AreDigits(t) && Value(t) == Value(s) / p
  {
    hide Num, Weight;
    Swap(p, q);
    forall k | 0 <= k < |t|
      ensures 0 <= t[k] < 32768
    {
      LowPart(Digit(s, k + 1), q, p);
      DigitSplit(s[k], q, p);
    }
    RightValue(t, s, p, q, |s|);
    SmallMod(0, p);
    DivisionUnique(Value(s), p, Value(t), s[0] % p);
  }
}
