/**
 * divide_ of src/webclient/BigInt.js: long division with normalised divisor, a
 * quotient digit estimated from three digits over two, and one correction.
 */
module BigIntDivide {
  import opened Digits
  import opened BigInt
  import opened BigIntShift
  import opened BigIntCompare
  import opened BigIntQuotient

  // ------------------------------------------------------- estimating a digit

  /** The comparison of q * Lead2 with Lead3, digit by digit as the source does it. */
  method TooLarge(q: int, y1: int, y2: int, ri: int, r1: int, r2: int) returns (b: bool)
    requires 0 <= q < 65536 && 0 <= y1 < 32768 && 0 <= y2 < 32768
    requires 0 <= ri < 32768 && 0 <= r1 < 32768 && 0 <= r2 < 32768
    ensures b <==> q * (y1 * 32768 + y2) > (ri * 32768 + r1) * 32768 + r2
  {
    SignedProduct(q, y2);
    SignedProduct(q, y1);
    ghost var p1, p2 := q * y1, q * y2;
    var low := y2 * q;
    var c := High(low);
    low := Low(low);
    assert p2 == 32768 * c + low by { Parts(p2); }
    var mid := c + q * y1;
    c := High(mid);
    mid := Low(mid);
    assert p1 * 32768 + p2 == (32768 * c + mid) * 32768 + low by { Parts(p1 + High(p2)); }
    LeadProduct(q, y1, y2);
    Lexicographic(c, mid, low, ri, r1, r2);
    b := if c == ri then if mid == r1 then low > r2 else mid > r1 else c > ri;
  }

  lemma Parts(v: int)
    requires -0x8000_0000 <= v < 0x8000_0000
    ensures v == 32768 * High(v) + Low(v)
  {
  }

  lemma LeadProduct(q: int, y1: int, y2: int)
    ensures q * (y1 * 32768 + y2) == q * y1 * 32768 + q * y2
  {
    Distribute(q, y1 * 32768, y2);
    Associate(q, y1, 32768);
  }

  lemma Lexicographic(c: int, mid: int, low: int, ri: int, r1: int, r2: int)
    requires 0 <= mid < 32768 && 0 <= low < 32768 && 0 <= r1 < 32768 && 0 <= r2 < 32768
    ensures (c * 32768 + mid) * 32768 + low > (ri * 32768 + r1) * 32768 + r2
      <==> if c == ri then if mid == r1 then low > r2 else mid > r1 else c > ri
  {
  }

  /** Lowering the first guess one by one ends at the guess. */
  lemma LoweredIs(first: int, q: int, t: int, d: int)
    requires d > 0 && 0 <= q <= first && q * d <= t && (q == first || (q + 1) * d > t)
    ensures q == if first * d <= t then first else t / d
  {
    if q < first {
      TimesMonotone(q + 1, first, d);
      Distribute(d, q, 1);
      DivisionUnique(t, d, q, t - q * d);
    }
  }

  /** The quotient digit: estimate, then lower until the test passes. */
  method Estimate(r: array<int>, y: array<int>, ky: nat, i: nat) returns (q: int)
    requires AreDigits(r[..]) && AreDigits(y[..]) && Normal(Value(y[..]), ky) && ky <= y.Length && ky <= i < r.Length
    ensures 0 <= q < 65536 && q == Guess(Value(r[..]), i, Value(y[..]), ky)
  {
    ghost var rs, ys := r[..], y[..];
    ghost var rv, yv := Value(rs), Value(ys);
    var y1 := y[ky - 1];
    var y2 := if ky > 1 then y[ky - 2] else 0;
    var r2 := if i > 1 then r[i - 2] else 0;
    LeadDigits(rs, ys, ky, i);
    NormalTop(yv, ky);
    GuessBound(rv, i, yv, ky);
    ghost var first, t, d := FirstGuess(rv, i, y1), Lead3(rv, i), Lead2(yv, ky);
    assert d == y1 * 32768 + y2 && t == (r[i] * 32768 + r[i - 1]) * 32768 + r2;
    assert Guess(rv, i, yv, ky) == if first * d <= t then first else t / d;
    if r[i] == y1 {
      q := 32767;
    } else {
      q := (r[i] * 32768 + r[i - 1]) / y1;
    }
    assert q == first;
    hide *;
    var over := TooLarge(q, y1, y2, r[i], r[i - 1], r2);
    while over
      invariant 0 <= q <= first && (q == first || (q + 1) * d > t)
      invariant over <==> q * d > t
      decreases q
    {
      q := q - 1;
      over := TooLarge(q, y1, y2, r[i], r[i - 1], r2);
    }
    LoweredIs(first, q, t, d);
  }

  lemma LeadDigits(rs: seq<int>, ys: seq<int>, ky: nat, i: nat)
    requires AreDigits(rs) && AreDigits(ys) && 1 <= ky <= |ys| && ky <= i < |rs|
    ensures Place(Value(ys), ky - 1) == ys[ky - 1] && (ky > 1 ==> Place(Value(ys), ky - 2) == ys[ky - 2])
    ensures Place(Value(rs), i) == rs[i] && Place(Value(rs), i - 1) == rs[i - 1]
    ensures i > 1 ==> Place(Value(rs), i - 2) == rs[i - 2]
  {
    hide Place, Value;
    PlaceIs(ys, ky - 1);
    PlaceIs(rs, i);
    PlaceIs(rs, i - 1);
    if ky > 1 {
      PlaceIs(ys, ky - 2);
    }
    if i > 1 {
      PlaceIs(rs, i - 2);
    }
  }

  // ----------------------------------------------------- one quotient digit

  /** negative: the sign bit of a two's complement number. */
  method Negative(x: array<int>) returns (b: bool)
    requires x.Length > 0 && AreDigits(x[..])
    ensures b <==> Value(x[..]) >= 16384 * Weight(x.Length - 1)
  {
    hide Weight, Num;
    ghost var s := x[..];
    NumNext(s, |s| - 1);
    NumBounds(s, |s| - 1);
    TopHalf(s[|s| - 1], Num(s, |s| - 1), Weight(|s| - 1));
    b := x[x.Length - 1] / 16384 % 2 == 1;
  }

  lemma TopHalf(d: int, low: int, w: int)
    requires 0 <= d < 32768 && 0 <= low < w
    ensures d / 16384 % 2 == 1 <==> low + d * w >= 16384 * w
  {
    if d >= 16384 {
      TimesMonotone(16384, d, w);
    } else {
      TimesMonotone(d, 16383, w);
    }
  }

  /** The body of the main loop of divide_. */
  method QuotientDigit(r: array<int>, y: array<int>, q: array<int>, ky: nat, i: nat)
    requires r != y && q != r && q != y && AreDigits(r[..]) && AreDigits(y[..])
    requires Normal(Value(y[..]), ky) && ky <= y.Length && ky <= i < r.Length && i - ky < q.Length
    modifies r, q
    ensures AreDigits(r[..]) && Value(r[..]) == Step(old(Value(r[..])), i, Value(y[..]), ky, r.Length)
    ensures q[..] == old(q[..])[i - ky := Chosen(old(Value(r[..])), i, Value(y[..]), ky, r.Length)]
  {
    hide Weight, AreDigits, Value, Normal, Place, Guess;
    ghost var ys, qs := y[..], q[..];
    var e := i - ky;
    var digit := Estimate(r, y, ky, i);
    digit := TakeAway(r, y, digit, e);
    q[e] := digit;
    assert q[..] == qs[e := digit];
    assert y[..] == ys;
  }

  /** r = r - digit * (y << e), with the one correction when that turns negative. */
  method TakeAway(r: array<int>, y: array<int>, estimate: int, e: nat) returns (digit: int)
    requires r != y && r.Length > 0 && AreDigits(r[..]) && AreDigits(y[..]) && 0 <= estimate < 65536
    modifies r
    ensures AreDigits(r[..])
    ensures var d := Value(y[..]) * Weight(e);
      var v := (old(Value(r[..])) - estimate * d) % Weight(r.Length);
      if v >= 16384 * Weight(r.Length - 1) then digit == estimate - 1 && Value(r[..]) == (v + d) % Weight(r.Length)
      else digit == estimate && Value(r[..]) == v
  {
    hide Weight, AreDigits, Value;
    ghost var rs, ys := r[..], y[..];
    ghost var d := Value(ys) * Weight(e);
    NegateTimes(estimate, d);
    digit := estimate;
    LinCombShift(r, y, -digit, e);
    assert y[..] == ys;
    var negative := Negative(r);
    if negative {
      LinCombShift(r, y, 1, e);
      assert y[..] == ys;
      digit := digit - 1;
    }
  }

  lemma NegateTimes(q: int, d: int)
    ensures -q * d == -(q * d) && (q - 1) * d == q * d - d && 1 * d == d
  {
    Distribute(d, q, 1);
  }

  lemma QuotientGrows(qs: seq<int>, e: nat, digit: int, y: int)
    requires e < |qs| && qs[e] == 0 && AreDigits(qs) && 0 <= digit < 32768
    ensures AreDigits(qs[e := digit])
    ensures Value(qs[e := digit]) * y == Value(qs) * y + digit * (y * Weight(e))
  {
    hide Num, Weight;
    SetDigit(qs, e, digit);
    Distribute(y, Value(qs), digit * Weight(e));
    Associate(digit, y, Weight(e));
  }

  lemma SetDigit(qs: seq<int>, e: nat, digit: int)
    requires e < |qs|
    ensures Value(qs[e := digit]) == Value(qs) + (digit - qs[e]) * Weight(e)
  {
    hide Num, Weight;
    var t := qs[e := digit];
    NumFrame(qs, t, e);
    NumNext(qs, e);
    NumNext(t, e);
    NumTail(qs, t, e + 1, |qs|);
    Distribute(Weight(e), digit, qs[e]);
  }

  // ---------------------------------------------------------------- divide_

  /** How far to shift so that the top digit of the divisor has its highest bit set. */
  method ShiftAmount(top: int) returns (a: nat)
    requires 0 < top < 32768
    ensures a < 15 && 16384 <= top * Power(2, a) && (top + 1) * Power(2, a) <= 32768
  {
    hide Power;
    var b, n: nat := top, 0;
    PowersOfTwo(0);
    while b != 0
      invariant 0 <= b && n <= 15 && Power(2, n) > 0 && b * Power(2, n) <= top < (b + 1) * Power(2, n)
      invariant n > 0 ==> Power(2, n - 1) <= top
      invariant b > 0 ==> n < 15
      decreases b
    {
      PowerNext(2, n);
      HalfBits(b, Power(2, n), top);
      b := b / 2;
      n := n + 1;
      if n == 15 {
        PowersOfTwo(1);
        PowerNext(2, 0);
        Exhausted(b, Power(2, n), top);
      }
    }
    a := 15 - n;
    PowerNext(2, n - 1);
    PowersOfTwo(a);
    Normalised(top, Power(2, n - 1), Power(2, a));
  }

  lemma HalfBits(b: int, p: int, top: int)
    requires b > 0 && p > 0 && b * p <= top < (b + 1) * p
    ensures b / 2 * (2 * p) <= top < (b / 2 + 1) * (2 * p) && p <= top
  {
    var h := b / 2;
    Associate(h, 2, p);
    Associate(h + 1, 2, p);
    TimesMonotone(2 * h, b, p);
    TimesMonotone(b + 1, 2 * (h + 1), p);
    TimesMonotone(1, b, p);
  }

  lemma Exhausted(b: int, p: int, top: int)
    requires 0 <= b && p == 32768 && b * p <= top < 32768
    ensures b == 0
  {
  }

  lemma Normalised(top: int, half: int, p: int)
    requires half <= top < 2 * half && p > 0 && half > 0 && 2 * half * p == 32768
    ensures 16384 <= top * p && (top + 1) * p <= 32768
  {
    TimesMonotone(half, top, p);
    TimesMonotone(top + 1, 2 * half, p);
    Associate(2, half, p);
  }

  /** Where the shifted dividend ends, but not below the divisor's end. */
  ghost function TopOf(r: int, ky: nat): nat {
    if Size(r) > ky then Size(r) else ky
  }

  lemma RaisePositive(y: int, ky: nat, k: nat)
    requires y > 0 && ky <= k
    ensures Raise(y, ky, k) > 0
  {
    Strict(0, y, Weight(k - ky));
  }

  /**
   * When the loop for the leading quotient digit ends: the divisor has a leading
   * zero, or the dividend fills its array, or what the true number of
   * subtractions leaves has no digit in the dividend's top column.
   */
  ghost predicate LeadOk(r: int, y: int, ky: nat, ylen: nat, len: nat)
    requires ky >= 1 && y > 0
  {
    var kx := TopOf(r, ky);
    RaisePositive(y, ky, kx);
    ylen > ky || kx == len || r % Raise(y, ky, kx) < Weight(kx - 1)
  }

  /** The shifted divisor: `ky` digits, zeros above. */
  ghost predicate Shifted(ys: seq<int>, ky: nat) {
    AreDigits(ys) && ky <= |ys| && Normal(Value(ys), ky) && ys[ky - 1] > 0 && forall j :: ky <= j < |ys| ==> ys[j] == 0
  }

  /** What greaterShift says of the raised divisor and a remainder with `kx` digits. */
  lemma Judged(ys: seq<int>, rs: seq<int>, ky: nat, kx: nat)
    requires Shifted(ys, ky) && AreDigits(rs) && ky <= kx <= |rs| && Value(rs) < Weight(kx)
    ensures ky >= 1 && (Above(ys, rs, kx - ky) != Misjudged(ys, rs, kx - ky) <==>
      kx == |rs| || (Raise(Value(ys), ky, kx) > Value(rs) && (|ys| > ky || Value(rs) < Weight(kx - 1))))
  {
    hide Num, Weight;
    var e := kx - ky;
    assert Above(ys, rs, e) <==> Raise(Value(ys), ky, kx) > Value(rs);
    TopZeros(rs, kx);
    if kx == |rs| {
      assert HighestAt(ys, ky - 1);
    } else {
      assert |rs| - 1 - e >= ky;
      if |ys| == ky {
        TopDigit(rs, kx);
      }
    }
  }

  lemma TopZeros(rs: seq<int>, kx: nat)
    requires AreDigits(rs) && kx <= |rs| && Value(rs) < Weight(kx)
    ensures forall j :: kx <= j < |rs| ==> rs[j] == 0
  {
    UsedBound(rs, kx);
  }

  lemma TopDigit(rs: seq<int>, kx: nat)
    requires AreDigits(rs) && 1 <= kx <= |rs| && forall j :: kx <= j < |rs| ==> rs[j] == 0
    ensures rs[kx - 1] > 0 <==> Value(rs) >= Weight(kx - 1)
  {
    hide Num, Weight;
    NumZeros(rs, kx, |rs|);
    NumNext(rs, kx - 1);
    NumBounds(rs, kx - 1);
    Gap(Weight(kx - 1), rs[kx - 1]);
  }

  /**
   * The leading quotient digit, 0 or 1. The model stops where the source takes
   * the divisor from a smaller remainder.
   */
  method LeadingDigit(r: array<int>, q: array<int>, y: array<int>, ky: nat) returns (kx: nat, ok: bool)
    requires r != y && q != r && q != y && q.Length >= r.Length >= y.Length && AreDigits(r[..]) && Shifted(y[..], ky)
    requires forall j :: 0 <= j < q.Length ==> q[j] == 0
    modifies r, q
    ensures ky >= 1 && Value(y[..]) > 0 && (ok <==> LeadOk(old(Value(r[..])), Value(y[..]), ky, y.Length, r.Length))
    ensures ok ==> Led(old(Value(r[..])), r[..], q[..], y[..], ky, kx)
  {
    hide Weight, Num, Value, Shifted, Above, Misjudged, Size, AreDigits, Led, TopOf;
    ghost var rs, ys, qs := r[..], y[..], q[..];
    ShiftedParts(ys, ky);
    kx := r.Length;
    while r[kx - 1] == 0 && kx > ky
      invariant ky <= kx <= r.Length && forall j :: kx <= j < r.Length ==> r[j] == 0
    {
      kx := kx - 1;
    }
    ghost var r0, d := Value(rs), Raise(Value(ys), ky, kx);
    BelowTop(rs, ys, ky, kx);
    var e := kx - ky;
    var g := GreaterShift(y, r, e);
    Judged(ys, rs, ky, kx);
    LeadStart(qs, e);
    while !g
      invariant y[..] == ys && AreDigits(r[..]) && 0 <= q[e] <= 1 && q[..] == qs[e := q[e]]
      invariant Value(r[..]) >= 0 && Value(r[..]) + q[e] * d == r0 && (kx == r.Length ==> g && q[e] == 0)
      invariant g <==> kx == r.Length || (d > Value(r[..]) && (y.Length > ky || Value(r[..]) < Weight(kx - 1)))
      decreases Value(r[..])
    {
      if Value(y[..]) * Weight(e) > Value(r[..]) {
        TrueRemainder(r0, d, q[e], Value(r[..]));
        return kx, false;
      }
      OnceOnly(Value(r[..]), q[e], d, r0);
      SmallMod(Value(r[..]) - d, Weight(r.Length));
      ghost var m := q[e];
      NegateTimes(1, d);
      LinCombShift(r, y, -1, e);
      q[e] := q[e] + 1;
      Distribute(d, m, 1);
      assert y[..] == ys && q[..] == qs[e := q[e]];
      g := GreaterShift(y, r, e);
      Judged(ys, r[..], ky, kx);
    }
    ok := true;
    if kx < r.Length {
      TrueRemainder(r0, d, q[e], Value(r[..]));
    }
    LeadEnd(r0, r[..], qs, q[e], ys, ky, kx);
  }

  /** After the leading digit: nothing lost, and the remainder below the raised divisor unless it fills the array. */
  ghost predicate Led(r0: int, rs: seq<int>, qs: seq<int>, ys: seq<int>, ky: nat, kx: nat) {
    1 <= ky <= kx <= |rs| <= |qs| && AreDigits(rs) && AreDigits(qs) && 0 <= Value(rs) &&
    (forall j :: 0 <= j < kx - ky ==> qs[j] == 0) && Value(qs) * Value(ys) + Value(rs) == r0 &&
    if r0 >= Weight(|rs| - 1) then kx == |rs| && Value(rs) == r0 else Value(rs) < Raise(Value(ys), ky, kx)
  }

  lemma ShiftedParts(ys: seq<int>, ky: nat)
    requires Shifted(ys, ky)
    ensures 1 <= ky <= |ys| && AreDigits(ys) && Value(ys) > 0
  {
    NormalTop(Value(ys), ky);
  }

  lemma BelowTop(rs: seq<int>, ys: seq<int>, ky: nat, kx: nat)
    requires AreDigits(rs) && Shifted(ys, ky) && ky <= kx <= |rs| && forall j :: kx <= j < |rs| ==> rs[j] == 0
    requires kx == ky || rs[kx - 1] != 0
    ensures 0 <= Value(rs) < Weight(kx) && Value(rs) < Weight(|rs|) && kx == TopOf(Value(rs), ky)
    ensures 0 < Raise(Value(ys), ky, kx) && Value(rs) < 2 * Raise(Value(ys), ky, kx)
    ensures kx == |rs| <==> Value(rs) >= Weight(|rs| - 1) || ky == |rs|
    ensures kx == |rs| && Value(rs) < Weight(|rs| - 1) ==> Value(rs) < Raise(Value(ys), ky, kx)
  {
    hide Weight, Num, Size, Value, Normal;
    ShiftedParts(ys, ky);
    UsedIs(rs, ky, kx);
    RaiseBounds(Value(ys), ky, kx);
    WeightNext(kx - 1);
    WeightMonotone(kx, |rs|);
    if kx < |rs| {
      WeightMonotone(kx, |rs| - 1);
    }
  }

  lemma UsedIs(rs: seq<int>, ky: nat, kx: nat)
    requires AreDigits(rs) && 1 <= ky <= kx <= |rs| && forall j :: kx <= j < |rs| ==> rs[j] == 0
    requires kx == ky || rs[kx - 1] != 0
    ensures 0 <= Value(rs) < Weight(kx) && (kx > ky ==> Weight(kx - 1) <= Value(rs)) && kx == TopOf(Value(rs), ky)
  {
    hide Weight, Num, Size;
    NumZeros(rs, kx, |rs|);
    NumBounds(rs, kx);
    TopDigit(rs, kx);
    SizeUsed(rs);
    ValueUsed(rs);
    UsedBound(rs, kx);
    if kx > ky {
      SizeIs(Value(rs), kx);
    }
  }

  lemma SizeUsed(rs: seq<int>)
    requires AreDigits(rs)
    ensures Size(Value(rs)) == Used(rs, |rs|)
  {
    hide Size, Weight, Num;
    ValueUsed(rs);
    NumBounds(rs, |rs|);
    SizeIs(Value(rs), Used(rs, |rs|));
  }

  lemma LeadStart(qs: seq<int>, e: nat)
    requires e < |qs| && forall j :: 0 <= j < |qs| ==> qs[j] == 0
    ensures qs == qs[e := 0] && AreDigits(qs) && Value(qs) == 0
  {
    NumZeros(qs, 0, |qs|);
  }

  lemma OnceOnly(r: int, m: int, d: int, total: int)
    requires 0 <= m <= 1 && d <= r && r + m * d == total && total < 2 * d
    ensures m == 0
  {
  }

  /** Below the divisor after some subtractions: that is the remainder. */
  lemma TrueRemainder(r0: int, d: int, m: int, r: int)
    requires d > 0 && 0 <= r < d && r + m * d == r0
    ensures r0 % d == r
  {
    DivisionUnique(r0, d, m, r);
  }

  /** The loop for the leading digit goes on while the remainder has a digit above the divisor's top column. */
  lemma EndsBelow(ys: seq<int>, rs: seq<int>, ky: nat, kx: nat)
    requires Shifted(ys, ky) && |ys| == ky && AreDigits(rs) && ky <= kx < |rs|
    requires Above(ys, rs, kx - ky) != Misjudged(ys, rs, kx - ky)
    ensures 0 <= Value(rs) < Weight(kx - 1) && Value(rs) < Raise(Value(ys), ky, kx)
  {
    ShiftedParts(ys, ky);
    ShiftedNormal(ys, ky);
    RaiseBounds(Value(ys), ky, kx);
    NumBounds(rs, |rs|);
    if Value(rs) < Weight(kx) {
      Judged(ys, rs, ky, kx);
    }
  }

  /**
   * Once the divisor was taken from a smaller remainder, t times in all in the
   * width of the array, and the loop has ended: the quotient and the remainder
   * that divide_ goes on to compute do not make up the dividend.
   */
  lemma Overshoot(r0: int, t: int, ys: seq<int>, rs: seq<int>, ky: nat, kx: nat)
    requires Shifted(ys, ky) && |ys| == ky && AreDigits(rs) && ky <= kx < |rs|
    requires t * Raise(Value(ys), ky, kx) > r0
    requires Value(rs) == (r0 - t * Raise(Value(ys), ky, kx)) % Weight(|rs|)
    requires Above(ys, rs, kx - ky) != Misjudged(ys, rs, kx - ky)
    ensures var y, r, len := Value(ys), Value(rs), |rs|;
      (t * Weight(kx - ky) + QuotientOf(r, kx, y, ky, len)) * y + Remains(r, kx, y, ky, len) > r0
  {
    EndsBelow(ys, rs, ky, kx);
    ShiftedNormal(ys, ky);
    hide Weight, Value, Normal, Remains, QuotientOf, Above, Misjudged, Shifted;
    var y, r, len, w := Value(ys), Value(rs), |rs|, Weight(kx - ky);
    WeightMonotone(kx - 1, len - 1);
    RemainsSafe(r, kx, y, ky, len);
    TooMuch(r0, t, y, w, QuotientOf(r, kx, y, ky, len), Remains(r, kx, y, ky, len), r, Weight(len));
  }

  lemma TooMuch(r0: int, t: int, y: int, w: int, q: int, rest: int, r: int, m: int)
    requires m > 0 && t * (y * w) > r0 && r == (r0 - t * (y * w)) % m && q * y + rest == r
    ensures (t * w + q) * y + rest > r0
  {
    DivisionRest(r0 - t * (y * w), m);
    Distribute(y, t * w, q);
    Associate(y, t, w);
    Associate(t, y, w);
  }

  lemma LeadEnd(r0: int, rs: seq<int>, qs: seq<int>, digit: int, ys: seq<int>, ky: nat, kx: nat)
    requires AreDigits(rs) && 1 <= ky <= kx <= |rs| <= |qs| && 0 <= digit <= 1 && AreDigits(qs) && 0 <= Value(rs)
    requires (forall j :: 0 <= j < |qs| ==> qs[j] == 0) && Value(qs) == 0
    requires Value(rs) + digit * Raise(Value(ys), ky, kx) == r0
    requires if r0 >= Weight(|rs| - 1) then kx == |rs| && digit == 0 else Value(rs) < Raise(Value(ys), ky, kx)
    ensures Led(r0, rs, qs[kx - ky := digit], ys, ky, kx)
  {
    hide Num, Weight;
    QuotientGrows(qs, kx - ky, digit, Value(ys));
  }

  // -------------------------------------------------------------- main loop

  lemma RemainsNext(v: int, i: nat, y: int, ky: nat, len: nat)
    requires 1 <= ky <= i < len
    ensures Remains(v, i + 1, y, ky, len) == Remains(Step(v, i, y, ky, len), i, y, ky, len)
  {
    hide Step;
  }

  /** What the main loop keeps as long as the remainder is below the raised divisor. */
  ghost predicate Exactly(r0: int, r: int, qs: seq<int>, y: int, ky: nat, k: nat)
    requires ky <= k
  {
    AreDigits(qs) && Value(qs) * y + r == r0 && 0 <= r < Raise(y, ky, k)
  }

  lemma ExactStep(r0: int, r: int, qs: seq<int>, y: int, ky: nat, i: nat, len: nat)
    requires Normal(y, ky) && ky <= i < len && i - ky < |qs| && qs[i - ky] == 0 && Exactly(r0, r, qs, y, ky, i + 1)
    ensures Exactly(r0, Step(r, i, y, ky, len), qs[i - ky := Chosen(r, i, y, ky, len)], y, ky, i)
  {
    hide Normal, Place, Step, Chosen, Weight, Num;
    BelowNext(r, i, y, ky);
    StepExact(r, i, y, ky, len);
    RaiseBounds(y, ky, i);
    var d := Raise(y, ky, i);
    QuotientBelow(r, 32768, d);
    assert r == d * (r / d) + r % d;
    QuotientGrows(qs, i - ky, r / d, y);
  }

  /** The leading quotient digit, then every digit below it. */
  method LongDivide(r: array<int>, y: array<int>, q: array<int>, ky: nat) returns (ok: bool)
    requires r != y && q != r && q != y && q.Length >= r.Length >= y.Length && AreDigits(r[..]) && Shifted(y[..], ky)
    requires forall j :: 0 <= j < q.Length ==> q[j] == 0
    modifies r, q
    ensures ky >= 1 && Value(y[..]) > 0 && (ok <==> LeadOk(old(Value(r[..])), Value(y[..]), ky, y.Length, r.Length))
    ensures ok ==> AreDigits(r[..]) && Value(r[..]) == DivRemainder(old(Value(r[..])), Value(y[..]), ky, r.Length)
    ensures ok && old(Value(r[..])) < Raise(Value(y[..]), ky, r.Length) ==>
      Exactly(old(Value(r[..])), Value(r[..]), q[..], Value(y[..]), ky, ky)
  {
    hide Weight, Num, AreDigits, Value, Shifted, Remains, Step, Led, Exactly, LeadOk, Raise;
    hide DivRemainder, Chosen, Normal;
    ghost var ys, r0 := y[..], Value(r[..]);
    ghost var yv, len := Value(ys), r.Length;
    ShiftedParts(ys, ky);
    ShiftedNormal(ys, ky);
    var kx: nat;
    kx, ok := LeadingDigit(r, q, y, ky);
    assert y[..] == ys;
    if !ok {
      return;
    }
    ghost var r1, q1 := Value(r[..]), q[..];
    LedParts(r0, r[..], q1, ys, ky, kx);
    var i := kx - 1;
    while i >= ky
      invariant ky - 1 <= i < kx && y[..] == ys && AreDigits(r[..])
      invariant Remains(Value(r[..]), i + 1, yv, ky, len) == Remains(r1, kx, yv, ky, len)
      invariant forall j :: 0 <= j <= i - ky ==> q[j] == 0
      invariant Exactly(r0, r1, q1, yv, ky, kx) ==> Exactly(r0, Value(r[..]), q[..], yv, ky, i + 1)
    {
      ghost var v, qs := Value(r[..]), q[..];
      assert qs[i - ky] == 0;
      RemainsNext(v, i, yv, ky, len);
      QuotientDigit(r, y, q, ky, i);
      assert y[..] == ys;
      if Exactly(r0, v, qs, yv, ky, i + 1) {
        ExactStep(r0, v, qs, yv, ky, i, len);
      }
      i := i - 1;
    }
    Undone(Value(r[..]), yv, ky, len);
    LongEnd(r0, r1, q1, ys, ky, kx, len);
  }

  lemma Undone(v: int, y: int, ky: nat, len: nat)
    requires 1 <= ky <= len
    ensures Remains(v, ky, y, ky, len) == v
  {
  }

  lemma ShiftedNormal(ys: seq<int>, ky: nat)
    requires Shifted(ys, ky)
    ensures Normal(Value(ys), ky) && ky <= |ys|
  {
  }

  lemma LedParts(r0: int, rs: seq<int>, qs: seq<int>, ys: seq<int>, ky: nat, kx: nat)
    requires Led(r0, rs, qs, ys, ky, kx)
    ensures 1 <= ky <= kx <= |rs| <= |qs| && AreDigits(rs) && forall j :: 0 <= j < kx - ky ==> qs[j] == 0
    ensures if r0 >= Weight(|rs| - 1) then kx == |rs| && Value(rs) == r0
            else Exactly(r0, Value(rs), qs, Value(ys), ky, kx)
    ensures r0 < Raise(Value(ys), ky, |rs|) ==> Exactly(r0, Value(rs), qs, Value(ys), ky, kx)
  {
    hide Weight, Num;
  }

  lemma LongEnd(r0: int, r1: int, q1: seq<int>, ys: seq<int>, ky: nat, kx: nat, len: nat)
    requires Shifted(ys, ky) && 1 <= ky <= kx <= len
    requires if r0 >= Weight(len - 1) then kx == len && r1 == r0 else Exactly(r0, r1, q1, Value(ys), ky, kx)
    ensures Value(ys) > 0 && Remains(r1, kx, Value(ys), ky, len) == DivRemainder(r0, Value(ys), ky, len)
  {
    hide Weight, Value, Normal, Remains, Place, Raise, DivRemainder;
    DivEnd(r0, r1, Value(q1), Value(ys), ky, kx, len);
  }

  // ------------------------------------------------------------------ results

  /** The divisor is not zero. */
  ghost predicate Divisor(ys: seq<int>) {
    AreDigits(ys) && Used(ys, |ys|) >= 1
  }

  lemma ScaledDivisor(ys: seq<int>)
    requires Divisor(ys)
    ensures var ky, p := Used(ys, |ys|), Scale(ys[Used(ys, |ys|) - 1]);
      Value(ys) > 0 && Value(ys) * p > 0 && Normal(Value(ys) * p, ky) && Value(ys) * p < Weight(|ys|)
  {
    hide Weight, Num, Scale;
    ValueUsed(ys);
    var ky := Used(ys, |ys|);
    var b := ScaleBounds(ys[ky - 1]);
    var p := Scale(ys[ky - 1]);
    NumNext(ys, ky - 1);
    NumBounds(ys, ky - 1);
    WeightNext(ky - 1);
    WeightMonotone(ky, |ys|);
    ShiftedBounds(Value(ys), ys[ky - 1], Num(ys, ky - 1), Weight(ky - 1), p);
    Strict(0, Value(ys), p);
  }

  /** What divide_ by `ys` leaves of x in an array of `len` digits. */
  ghost function Leaves(x: int, ys: seq<int>, len: nat): int
    requires Divisor(ys) && |ys| <= len
  {
    ScaledDivisor(ys);
    var ky, p := Used(ys, |ys|), Scale(ys[Used(ys, |ys|) - 1]);
    DivRemainder(x * p % Weight(len), Value(ys) * p, ky, len) / p
  }

  /** divide_ of x by `ys` gets past the leading quotient digit. */
  ghost predicate Divides(x: int, ys: seq<int>, len: nat)
    requires Divisor(ys) && |ys| <= len
  {
    ScaledDivisor(ys);
    var ky, p := Used(ys, |ys|), Scale(ys[Used(ys, |ys|) - 1]);
    LeadOk(x * p % Weight(len), Value(ys) * p, ky, |ys|, len)
  }

  lemma ShiftedBounds(y: int, top: int, low: int, w: int, p: int)
    requires y == low + top * w && 0 <= low < w && p > 0
    requires 16384 <= top * p && (top + 1) * p <= 32768
    ensures 16384 * w <= y * p < 32768 * w
  {
    TimesMonotone(16384, top * p, w);
    TimesMonotone((top + 1) * p, 32768, w);
    TimesMonotone(top * w, y, p);
    Distribute(w, top, 1);
    Strict(y, (top + 1) * w, p);
    Associate(top, w, p);
    Associate(top, p, w);
    Associate(top + 1, w, p);
    Associate(top + 1, p, w);
  }

  lemma DivisorDigits(xs: seq<int>, ys: seq<int>)
    requires AreDigits(xs) && Divisor(ys)
    ensures var ky := Used(ys, |ys|);
      1 <= ky <= |ys| && 0 < ys[ky - 1] < 32768 && AreDigits(ys) && Value(xs) % Weight(|xs|) == Value(xs) >= 0
  {
    NumBounds(xs, |xs|);
    SmallMod(Value(xs), Weight(|xs|));
  }

  lemma BecomesShifted(yn: seq<int>, ky: nat)
    requires AreDigits(yn) && 1 <= ky <= |yn| && Normal(Value(yn), ky)
    ensures Shifted(yn, ky)
  {
    hide Weight, Num, Place;
    UsedBound(yn, ky);
    NormalTop(Value(yn), ky);
    PlaceIs(yn, ky - 1);
  }

  /** With a leading zero in the dividend the shift loses nothing and the divisor, raised to the top, is larger. */
  lemma LeadingZero(xs: seq<int>, ys: seq<int>, p: int)
    requires AreDigits(xs) && Divisor(ys) && 1 <= |ys| <= |xs| && xs[|xs| - 1] == 0
    requires p == Scale(ys[Used(ys, |ys|) - 1])
    ensures 0 <= Value(xs) && Value(xs) * p % Weight(|xs|) == Value(xs) * p < Raise(Value(ys) * p, Used(ys, |ys|), |xs|)
  {
    NumZeros(xs, |xs| - 1, |xs|);
    NumBounds(xs, |xs| - 1);
    RoomToShift(Value(xs), ys, |xs|);
  }

  lemma RoomToShift(x: int, ys: seq<int>, len: nat)
    requires Divisor(ys) && 1 <= |ys| <= len && 0 <= x < Weight(len - 1)
    ensures var p := Scale(ys[Used(ys, |ys|) - 1]);
      x * p % Weight(len) == x * p && 0 <= x * p < Raise(Value(ys) * p, Used(ys, |ys|), len)
  {
    hide Weight, Num, Scale, Normal, Raise;
    var ky := Used(ys, |ys|);
    var b := ScaleBounds(ys[ky - 1]);
    var p := Scale(ys[ky - 1]);
    ScaledDivisor(ys);
    RaiseBounds(Value(ys) * p, ky, len);
    TimesMonotone(0, x, p);
    Strict(x, Weight(len - 1), p);
    TimesMonotone(p, 16384, Weight(len - 1));
    WeightNext(len - 1);
    SmallMod(x * p, Weight(len));
  }

  /** Undoing the shift turns the shifted division into the division. */
  lemma ShiftBack(x: int, y: int, q: int, r: int, p: int)
    requires p > 0 && y > 0 && q * (y * p) + r == x * p && 0 <= r < y * p
    ensures x / y == q && x % y == r / p
  {
    Associate(q, y, p);
    Distribute(p, x, q * y);
    var m := x - q * y;
    assert r == p * m;
    Below(m, y, p);
    Gap(p, m);
    DivisionUnique(r, p, m, 0);
    DivisionUnique(x, y, q, m);
  }

  lemma ExactEnd(xs: seq<int>, ys: seq<int>, r: int, qs: seq<int>, ky: nat, p: int)
    requires p > 0 && Value(ys) > 0 && Exactly(Value(xs) * p, r, qs, Value(ys) * p, ky, ky)
    ensures AreDigits(qs) && Value(qs) == Value(xs) / Value(ys) && r / p == Value(xs) % Value(ys)
  {
    hide Num, Weight;
    ModOne(0);
    ShiftBack(Value(xs), Value(ys), Value(qs), r, p);
  }

  /**
   * divide_: quotient and remainder. The divisor is shifted in place and
   * shifted back.
   */
  method Divide(x: array<int>, y: array<int>, q: array<int>, r: array<int>) returns (ok: bool)
    requires x != y && x != q && x != r && y != q && y != r && q != r
    requires q.Length >= x.Length == r.Length >= y.Length >= 2
    requires AreDigits(x[..]) && Divisor(y[..])
    modifies y, q, r
    ensures ok <==> Divides(Value(x[..]), old(y[..]), x.Length)
    ensures ok ==> y[..] == old(y[..]) && AreDigits(r[..]) && Value(r[..]) == Leaves(Value(x[..]), y[..], x.Length)
    ensures ok && x[x.Length - 1] == 0 ==>
      Value(y[..]) > 0 && AreDigits(q[..]) &&
      Value(q[..]) == Value(x[..]) / Value(y[..]) && Value(r[..]) == Value(x[..]) % Value(y[..])
  {
    hide Weight, Num, AreDigits, Value, Power, Used, Shifted, LeadOk, DivRemainder, Scale, Exactly, Raise, Normal;
    ghost var xs, ys := x[..], y[..];
    Copy(r, x);
    DivisorDigits(xs, ys);
    var ky := SkipZeros(y);
    assert y[..] == ys && x[..] == xs;
    var a := ShiftAmount(y[ky - 1]);
    ScaleIs(y[ky - 1], a);
    ghost var p := Power(2, a);
    ScaledDivisor(ys);
    SmallMod(Value(ys) * p, Weight(|ys|));
    LeftShift(y, a);
    LeftShift(r, a);
    assert x[..] == xs;
    BecomesShifted(y[..], ky);
    ghost var yn := y[..];
    CopyInt(q, 0);
    assert y[..] == yn;
    ok := LongDivide(r, y, q, ky);
    assert y[..] == yn && x[..] == xs;
    if !ok {
      return;
    }
    ghost var qs, rv := q[..], Value(r[..]);
    if xs[|xs| - 1] == 0 {
      LeadingZero(xs, ys, p);
      assert Exactly(Value(xs) * p, rv, qs, Value(ys) * p, ky, ky);
      ExactEnd(xs, ys, rv, qs, ky, p);
    }
    RightShift(y, a);
    RightShift(r, a);
    assert q[..] == qs && x[..] == xs;
    DivisionUnique(Value(ys) * p, p, Value(ys), 0);
    SameDigits(y[..], ys);
  }

  /** A number has one representation in a given width. */
  lemma SameDigits(s: seq<int>, t: seq<int>)
    requires AreDigits(s) && AreDigits(t) && |s| == |t| && Value(s) == Value(t)
    ensures s == t
  {
    hide Num, Weight;
    forall i | 0 <= i < |s|
      ensures s[i] == t[i]
    {
      NumMod(s, i, |s|);
      NumMod(t, i, |t|);
      NumMod(s, i + 1, |s|);
      NumMod(t, i + 1, |t|);
      NumNext(s, i);
      NumNext(t, i);
      Distribute(Weight(i), s[i], t[i]);
      Gap(Weight(i), s[i] - t[i]);
    }
  }
}
