/**
 * Montgomery reduction on values: what one pass of the digit loop in mont_
 * (src/webclient/BigInt.js) adds, shifts out and drops, and exactly when the
 * final number is the Montgomery product.
 */
module Montgomery {
  import opened Digits

  /** `np` is the negated inverse of `n` modulo the radix. */
  ghost predicate NegInverse(n: int, np: int) {
    (n * np + 1) % 32768 == 0
  }

  /** The multiple of `n` that clears the lowest digit of `t + xi * y`. */
  ghost function Clearing(t: int, xi: int, y: int, np: int): (u: int)
    ensures 0 <= u < 32768
  {
    (t + xi * y) % 32768 * np % 32768
  }

  ghost function Folded(t: int, xi: int, y: int, n: int, np: int): int {
    (t + xi * y + Clearing(t, xi, y, np) * n) / 32768
  }

  /** The partial sums of algorithm 14.36 of the Handbook of Applied Cryptography. */
  ghost function Partial(xs: seq<int>, y: int, n: int, np: int, i: nat): int {
    if i == 0 then 0 else Folded(Partial(xs, y, n, np, i - 1), Digit(xs, i - 1), y, n, np)
  }

  /** The same sums when only `w` digits are kept after each pass. */
  ghost function Kept(xs: seq<int>, y: int, n: int, np: int, w: nat, i: nat): int {
    if i == 0 then 0 else Folded(Kept(xs, y, n, np, w, i - 1), Digit(xs, i - 1), y, n, np) % Weight(w)
  }

  ghost function Corrected(t: int, n: int): int {
    if t >= n then t - n else t
  }

  /** Every partial sum fits in `w` digits. */
  ghost predicate Fits(xs: seq<int>, y: int, n: int, np: int, w: nat, k: nat) {
    forall i :: 0 < i <= k ==> Partial(xs, y, n, np, i) < Weight(w)
  }

  /** Which passes overflow `w` digits, as a number with digits 0 and 1. */
  ghost function Lost(xs: seq<int>, y: int, n: int, np: int, w: nat, i: nat): int {
    if i == 0 then 0 else
      Lost(xs, y, n, np, w, i - 1) +
      if Folded(Kept(xs, y, n, np, w, i - 1), Digit(xs, i - 1), y, n, np) >= Weight(w) then Weight(i - 1) else 0
  }

  // -------------------------------------------------------- inverses of the radix

  lemma RadixInverse(n: int, np: int) returns (inv: int)
    requires n > 0 && NegInverse(n, np)
    ensures Same(32768 * inv, 1, n)
  {
    inv := (n * np + 1) / 32768;
    SameByMultiple(32768 * inv, 1, np, n);
  }

  lemma {:induction false} WeightInverse(n: int, inv: int, k: nat)
    requires n > 0 && Same(32768 * inv, 1, n)
    ensures Same(Weight(k) * Power(inv, k), 1, n)
  {
    hide Same;
    if k == 0 {
      SameByMultiple(1, 1, 0, n);
    } else {
      WeightInverse(n, inv, k - 1);
      Regroup(32768, Weight(k - 1), inv, Power(inv, k - 1));
      SameTimes(32768 * inv, 1, Weight(k - 1) * Power(inv, k - 1), 1, n);
    }
  }

  /** A power of the radix cancels modulo `n`. */
  lemma CancelWeight(n: int, np: int, k: nat, a: int, b: int)
    requires n > 0 && NegInverse(n, np) && Same(a * Weight(k), b * Weight(k), n)
    ensures Same(a, b, n)
  {
    hide Same, NegInverse;
    var inv := RadixInverse(n, np);
    WeightInverse(n, inv, k);
    Cancel(Weight(k), Power(inv, k), a, b, n);
  }

  // ------------------------------------------------------------------- one pass

  /** The division by the radix is exact, which is what the clearing multiple is for. */
  lemma FoldExact(t: int, xi: int, y: int, n: int, np: int)
    requires NegInverse(n, np)
    ensures 32768 * Folded(t, xi, y, n, np) == t + xi * y + Clearing(t, xi, y, np) * n
  {
    var s, u := t + xi * y, Clearing(t, xi, y, np);
    SameMod(s, 32768);
    SameScale(s % 32768, s, np, 32768);
    SameMod(s % 32768 * np, 32768);
    assert Same(u, s * np, 32768);
    SameScale(u, s * np, n, 32768);
    SamePlus(u * n, s * np * n, s, s, 32768);
    ClearedSum(s, np, n);
    SameScale(n * np + 1, 0, s, 32768);
    assert Same(u * n + s, 0, 32768);
  }

  lemma ClearedSum(s: int, np: int, n: int)
    ensures s * np * n + s == (n * np + 1) * s
  {
    Associate(s, np, n);
    Distribute(s, n * np, 1);
  }

  lemma PassBound(t: int, xi: int, y: int, n: int, np: int)
    requires NegInverse(n, np) && 0 <= xi < 32768 && 0 <= y && 0 < n && 0 <= t < n + y
    ensures 0 <= Folded(t, xi, y, n, np) < n + y
  {
    hide Folded, Clearing, NegInverse;
    FoldExact(t, xi, y, n, np);
    var u := Clearing(t, xi, y, np);
    TimesMonotone(0, xi, y);
    TimesMonotone(xi, 32767, y);
    TimesMonotone(0, u, n);
    TimesMonotone(u, 32767, n);
  }

  // -------------------------------------------------------------------- all passes

  ghost predicate Usable(xs: seq<int>, y: int, n: int, np: int, w: nat) {
    AreDigits(xs) && NegInverse(n, np) && 0 <= y <= n && 0 < n < Weight(w)
  }

  lemma {:induction false} KeptBound(xs: seq<int>, y: int, n: int, np: int, w: nat, i: nat)
    requires Usable(xs, y, n, np, w)
    ensures 0 <= Kept(xs, y, n, np, w, i) < n + y
  {
    hide Folded, Weight, AreDigits;
    if i > 0 {
      KeptBound(xs, y, n, np, w, i - 1);
      var f := PassOutcome(xs, y, n, np, w, i);
    }
  }

  /** A pass loses nothing or exactly one unit above the top digit. */
  lemma PassOutcome(xs: seq<int>, y: int, n: int, np: int, w: nat, i: nat) returns (f: int)
    requires Usable(xs, y, n, np, w) && 0 < i
    requires 0 <= Kept(xs, y, n, np, w, i - 1) < n + y
    ensures f == Folded(Kept(xs, y, n, np, w, i - 1), Digit(xs, i - 1), y, n, np)
    ensures 0 <= f < n + y
    ensures Kept(xs, y, n, np, w, i) == (if f >= Weight(w) then f - Weight(w) else f)
  {
    hide Folded, Weight, NegInverse;
    f := Folded(Kept(xs, y, n, np, w, i - 1), Digit(xs, i - 1), y, n, np);
    PassBound(Kept(xs, y, n, np, w, i - 1), Digit(xs, i - 1), y, n, np);
    if f >= Weight(w) {
      DivisionUnique(f, Weight(w), 1, f - Weight(w));
    } else {
      SmallMod(f, Weight(w));
    }
  }

  /** Where everything went: kept, lost at the top, or absorbed as a multiple of `n`. */
  lemma {:induction false} Account(xs: seq<int>, y: int, n: int, np: int, w: nat, i: nat) returns (u: int)
    requires Usable(xs, y, n, np, w)
    ensures Weight(i) * Kept(xs, y, n, np, w, i) + Weight(w + 1) * Lost(xs, y, n, np, w, i)
         == Num(xs, i) * y + n * u
  {
    hide Folded, Clearing, NegInverse, AreDigits;
    if i == 0 {
      u := 0;
    } else {
      var u' := Account(xs, y, n, np, w, i - 1);
      KeptBound(xs, y, n, np, w, i - 1);
      var f := PassOutcome(xs, y, n, np, w, i);
      var t, xi := Kept(xs, y, n, np, w, i - 1), Digit(xs, i - 1);
      FoldExact(t, xi, y, n, np);
      var c := Clearing(t, xi, y, np);
      u := AccountStep(Weight(i - 1), t, Weight(w), Lost(xs, y, n, np, w, i - 1), Num(xs, i - 1), y, n, u', f, xi, c);
    }
  }

  lemma AccountStep(wi: int, t: int, ww: int, lost: int, x: int, y: int, n: int,
                    u': int, f: int, xi: int, c: int) returns (u: int)
    requires wi * t + (32768 * ww) * lost == x * y + n * u'
    requires 32768 * f == t + xi * y + c * n
    ensures 32768 * wi * f + (32768 * ww) * lost == (x + xi * wi) * y + n * u
    ensures 32768 * wi * (f - ww) + (32768 * ww) * (lost + wi) == (x + xi * wi) * y + n * u
  {
    u := u' + wi * c;
    ScaledPass(wi, t, y, n, f, xi, c);
    Distribute(n, u', wi * c);
    Distribute(y, x, xi * wi);
    LossMoves(wi, f, ww, lost);
  }

  lemma ScaledPass(wi: int, t: int, y: int, n: int, f: int, xi: int, c: int)
    requires 32768 * f == t + xi * y + c * n
    ensures 32768 * wi * f == wi * t + (xi * wi) * y + n * (wi * c)
  {
    assert wi * (32768 * f) == wi * (t + xi * y) + wi * (c * n) by { Distribute(wi, t + xi * y, c * n); }
    Distribute(wi, t, xi * y);
    Associate(wi, xi, y);
    Associate(wi, n, c);
  }

  /** Dropping a unit above the top digit books it as lost. */
  lemma LossMoves(wi: int, f: int, ww: int, lost: int)
    ensures 32768 * wi * (f - ww) + (32768 * ww) * (lost + wi) == 32768 * wi * f + (32768 * ww) * lost
  {
    Distribute(32768 * wi, f, ww);
    Distribute(32768 * ww, lost, wi);
  }

  /** Nothing is lost exactly when every partial sum fits, and then the kept sums are the true ones. */
  lemma {:induction false} LostOrFits(xs: seq<int>, y: int, n: int, np: int, w: nat, i: nat)
    requires Usable(xs, y, n, np, w)
    ensures 0 <= Lost(xs, y, n, np, w, i)
    ensures Lost(xs, y, n, np, w, i) == 0 <==> Fits(xs, y, n, np, w, i)
    ensures Fits(xs, y, n, np, w, i) ==> Kept(xs, y, n, np, w, i) == Partial(xs, y, n, np, i)
  {
    hide Folded, NegInverse, AreDigits;
    if i > 0 {
      LostOrFits(xs, y, n, np, w, i - 1);
      KeptBound(xs, y, n, np, w, i - 1);
      var f := PassOutcome(xs, y, n, np, w, i);
      assert Fits(xs, y, n, np, w, i) <==> Fits(xs, y, n, np, w, i - 1) && Partial(xs, y, n, np, i) < Weight(w);
    }
  }

  /** The loss is too small to be a multiple of the modulus. */
  lemma {:induction false} LostBound(xs: seq<int>, y: int, n: int, np: int, w: nat, i: nat)
    requires Usable(xs, y, n, np, w)
    ensures 32767 * Lost(xs, y, n, np, w, i) < Weight(i)
    ensures Lost(xs, y, n, np, w, i) != 0 ==> 2 * n > Weight(w)
  {
    hide Folded, NegInverse, AreDigits;
    if i > 0 {
      LostBound(xs, y, n, np, w, i - 1);
      KeptBound(xs, y, n, np, w, i - 1);
      var f := PassOutcome(xs, y, n, np, w, i);
    }
  }

  /**
   * The exact correctness of mont_: after `k` passes, `k` the number of digits
   * of `n`, the corrected sum is the Montgomery product if and only if every
   * partial sum fitted in the `w` digits that the scratch array keeps.
   */
  lemma ProductExact(xs: seq<int>, y: int, n: int, np: int, w: nat, k: nat)
    requires Usable(xs, y, n, np, w) && n < Weight(k) && k <= w
    ensures Same(Corrected(Kept(xs, y, n, np, w, k), n) * Weight(k), Num(xs, k) * y, n)
       <==> Fits(xs, y, n, np, w, k)
    ensures 0 <= Corrected(Kept(xs, y, n, np, w, k), n) < n
  {
    hide Folded, Kept, Lost, Fits, Same, NegInverse;
    var t, lost := Kept(xs, y, n, np, w, k), Lost(xs, y, n, np, w, k);
    LostOrFits(xs, y, n, np, w, k);
    LostBound(xs, y, n, np, w, k);
    WeightMonotone(k, w);
    KeptBound(xs, y, n, np, w, k);
    var u := Account(xs, y, n, np, w, k);
    LossShows(t, lost, Num(xs, k) * y, n, np, k, w + 1, u);
    CorrectedSame(t, n, Weight(k));
    SameSymmetric(t * Weight(k), Corrected(t, n) * Weight(k), Num(xs, k) * y, n);
  }

  lemma SameSymmetric(a: int, b: int, c: int, m: int)
    requires m > 0 && Same(a, b, m)
    ensures Same(a, c, m) <==> Same(b, c, m)
  {
  }

  lemma CorrectedSame(t: int, n: int, w: int)
    requires n > 0
    ensures Same(t * w, Corrected(t, n) * w, n)
  {
    hide Same;
    SameByMultiple(t, Corrected(t, n), if t >= n then 1 else 0, n);
    SameScale(t, Corrected(t, n), w, n);
  }

  lemma LossShows(t: int, lost: int, xy: int, n: int, np: int, k: nat, v: nat, u: int)
    requires n > 0 && NegInverse(n, np) && 0 <= lost < n
    requires Weight(k) * t + Weight(v) * lost == xy + n * u
    ensures Same(t * Weight(k), xy, n) <==> lost == 0
  {
    hide NegInverse, Weight;
    if lost == 0 {
      SameByMultiple(t * Weight(k), xy, u, n);
    }
    if Same(t * Weight(k), xy, n) {
      var q := SameMultiple(t * Weight(k), xy, n);
      Distribute(n, u, q);
      SameByMultiple(lost * Weight(v), 0 * Weight(v), u - q, n);
      CancelWeight(n, np, v, lost, 0);
      SmallMod(lost, n);
    }
  }

  /** A scratch array with room for twice the modulus never overflows. */
  lemma {:induction false} RoomyFits(xs: seq<int>, y: int, n: int, np: int, w: nat, k: nat)
    requires Usable(xs, y, n, np, w) && n + y <= Weight(w)
    ensures Fits(xs, y, n, np, w, k)
  {
    hide Folded, NegInverse, AreDigits, Weight;
    if k > 0 {
      RoomyFits(xs, y, n, np, w, k - 1);
      LostOrFits(xs, y, n, np, w, k - 1);
      KeptBound(xs, y, n, np, w, k - 1);
      var f := PassOutcome(xs, y, n, np, w, k);
      assert Partial(xs, y, n, np, k) == f;
    }
  }

  /**
   * One spare digit is not enough: with n = 32767 kept in two digits, the
   * single pass over x = y = 32766 reaches 32768, which needs a second digit;
   * it is dropped, and the result is 0 where the product is 1.
   */
  lemma OneSpareDigitFails()
    ensures Usable([32766], 32766, 32767, 1, 1)
    ensures Corrected(Kept([32766], 32766, 32767, 1, 1, 1), 32767) == 0
    ensures !Same(0 * Weight(1), 32766 * 32766, 32767)
    ensures !Fits([32766], 32766, 32767, 1, 1, 1)
  {
    var xs := [32766];
    assert Weight(1) == 32768 * Weight(0) == 32768;
    assert Digit(xs, 0) == 32766;
    assert Partial(xs, 32766, 32767, 1, 0) == 0 && Kept(xs, 32766, 32767, 1, 1, 0) == 0;
    assert Clearing(0, 32766, 32766, 1) == 4;
    assert Folded(0, 32766, 32766, 32767, 1) == 32768;
    assert Partial(xs, 32766, 32767, 1, 1) == 32768;
  }
}
