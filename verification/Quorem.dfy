/**
 * quorem of lualib-src/lua-cjson/dtoa.c: one decimal digit of a quotient of
 * two numbers in 32-bit words, estimated from the top words alone and
 * corrected at most once.
 */
module Quorem {
  import opened Digits

  // ---------------------------------------------------------- numbers in words

  ghost predicate AreWords(s: seq<int>) {
    forall i :: 0 <= i < |s| ==> 0 <= s[i] < 0x1_0000_0000
  }

  ghost function WordWeight(k: nat): (w: int)
    ensures w >= 1
  {
    if k == 0 then 1 else 0x1_0000_0000 * WordWeight(k - 1)
  }

  /** The number formed by the first `k` words. */
  ghost function WordNum(s: seq<int>, k: nat): int
    requires k <= |s|
  {
    if k == 0 then 0 else WordNum(s, k - 1) + s[k - 1] * WordWeight(k - 1)
  }

  lemma {:induction false} WordBounds(s: seq<int>, k: nat)
    requires AreWords(s) && k <= |s|
    ensures 0 <= WordNum(s, k) < WordWeight(k)
  {
    if k > 0 {
      WordBounds(s, k - 1);
      TimesMonotone(s[k - 1], 0xFFFF_FFFF, WordWeight(k - 1));
      TimesMonotone(0, s[k - 1], WordWeight(k - 1));
    }
  }

  lemma {:induction false} WordFrame(s: seq<int>, t: seq<int>, k: nat)
    requires k <= |s| && k <= |t| && forall i :: 0 <= i < k ==> s[i] == t[i]
    ensures WordNum(s, k) == WordNum(t, k)
  {
    if k > 0 {
      WordFrame(s, t, k - 1);
    }
  }

  lemma {:induction false} WordZeros(s: seq<int>, k: nat, m: nat)
    requires k <= m <= |s| && forall i :: k <= i < m ==> s[i] == 0
    ensures WordNum(s, m) == WordNum(s, k)
  {
    if k < m {
      WordZeros(s, k, m - 1);
    }
  }

  lemma WordNext(s: seq<int>, k: nat)
    requires k < |s|
    ensures WordNum(s, k + 1) == WordNum(s, k) + s[k] * WordWeight(k)
    ensures WordWeight(k + 1) == 0x1_0000_0000 * WordWeight(k)
  {
  }

  // ------------------------------------------------------------- the estimate

  /**
   * The quotient of the top words, the divisor's rounded up, is never above
   * the true quotient and at most one below it. The divisor's top word has
   * exactly four leading zero bits, so the quotient of numbers of the same
   * length is below 32.
   */
  lemma OneBelow(b: int, s: int, bn: int, sn: int, w: int, bl: int, sl: int)
    requires w > 0 && b == bn * w + bl && s == sn * w + sl && 0 <= bl < w && 0 <= sl < w
    requires 0x800_0000 <= sn < 0x1000_0000 && 0 <= bn < 0x1_0000_0000
    ensures bn / (sn + 1) * s <= b < (bn / (sn + 1) + 2) * s
    ensures 0 <= bn / (sn + 1) < 32
  {
    var q := bn / (sn + 1);
    assert bn == (sn + 1) * q + bn % (sn + 1);
    Gap(sn + 1, q);
    if q >= 32 {
      TimesMonotone(32, q, sn + 1);
    }
    NotAbove(b, s, bn, sn, w, bl, sl, q);
    NotFarBelow(b, s, bn, sn, w, bl, sl, q);
  }

  lemma NotAbove(b: int, s: int, bn: int, sn: int, w: int, bl: int, sl: int, q: int)
    requires w > 0 && b == bn * w + bl && s == sn * w + sl && 0 <= bl && sl < w && 0 <= q && (sn + 1) * q <= bn
    ensures q * s <= b
  {
    Distribute(w, sn, 1);
    TimesMonotone(s, (sn + 1) * w, q);
    TimesMonotone((sn + 1) * q, bn, w);
    Associate(q, sn + 1, w);
    Associate(sn + 1, q, w);
  }

  lemma NotFarBelow(b: int, s: int, bn: int, sn: int, w: int, bl: int, sl: int, q: int)
    requires w > 0 && b == bn * w + bl && s == sn * w + sl && bl < w && 0 <= sl && 0 <= q < 32
    requires bn < (sn + 1) * q + sn + 1 && sn >= 0x800_0000
    ensures b < (q + 2) * s
  {
    Distribute(q, sn, 1);
    assert (q + 2) * sn == q * sn + 2 * sn by { Distribute(sn, q, 2); }
    assert bn + 1 <= (q + 2) * sn;
    TimesMonotone(bn + 1, (q + 2) * sn, w);
    Distribute(w, bn, 1);
    Associate(q + 2, sn, w);
    TimesMonotone(sn * w, s, q + 2);
  }

  // --------------------------------------------------------------- subtraction

  /** One word of b - q * S, with the carry of the product and the borrow. */
  lemma SubtractWord(t: seq<int>, b: seq<int>, s: seq<int>, q: int, i: nat, carry: int, borrow: int)
    requires i < |t| == |b| && i < |s| && t[i] == b[i]
    requires WordNum(t, i) == WordNum(b, i) - q * WordNum(s, i) + (carry + borrow) * WordWeight(i)
    ensures var ys := s[i] * q + carry; var y := b[i] - ys % 0x1_0000_0000 - borrow;
      var borrow' := if y < 0 then 1 else 0;
      WordNum(t[i := y + borrow' * 0x1_0000_0000], i + 1)
      == WordNum(b, i + 1) - q * WordNum(s, i + 1) + (ys / 0x1_0000_0000 + borrow') * WordWeight(i + 1)
  {
    hide WordNum, WordWeight;
    var ys := s[i] * q + carry;
    var y := b[i] - ys % 0x1_0000_0000 - borrow;
    var borrow' := if y < 0 then 1 else 0;
    var t' := t[i := y + borrow' * 0x1_0000_0000];
    WordFrame(t, t', i);
    WordNext(t', i);
    WordNext(b, i);
    WordNext(s, i);
    ColumnSum(WordNum(b, i), WordNum(s, i), q, carry + borrow, WordWeight(i), b[i], s[i],
      ys / 0x1_0000_0000 + borrow', t'[i]);
  }

  lemma ColumnSum(b: int, s: int, q: int, c: int, w: int, bi: int, si: int, c': int, ti: int)
    requires ti == bi - si * q - c + c' * 0x1_0000_0000
    ensures b - q * s + c * w + ti * w == b + bi * w - q * (s + si * w) + c' * (0x1_0000_0000 * w)
  {
    Distribute(q, s, si * w);
    Associate(q, si, w);
    Distribute(w, bi - si * q, c);
    Distribute(w, bi, si * q);
    Distribute(w, bi - si * q - c, c' * 0x1_0000_0000);
    Associate(c', 0x1_0000_0000, w);
  }

  /** The subtraction loops of quorem: b -= q * S, exact because the result fits. */
  method SubtractMultiple(b: array<int>, s: seq<int>, q: int)
    requires AreWords(b[..]) && AreWords(s) && |s| <= b.Length && 0 <= q < 0x1_0000_0000
    requires 0 <= WordNum(b[..], |s|) - q * WordNum(s, |s|)
    modifies b
    ensures AreWords(b[..]) && WordNum(b[..], |s|) == old(WordNum(b[..], |s|)) - q * WordNum(s, |s|)
    ensures forall i :: |s| <= i < b.Length ==> b[i] == old(b[i])
  {
    hide WordNum, WordWeight;
    ghost var b0 := b[..];
    var carry, borrow, i := 0, 0, 0;
    NoWords(b0, s, q);
    while i < |s|
      invariant 0 <= i <= |s| && 0 <= carry <= q && 0 <= borrow <= 1 && AreWords(b[..])
      invariant forall j :: i <= j < b.Length ==> b[j] == b0[j]
      invariant WordNum(b[..], i) == WordNum(b0, i) - q * WordNum(s, i) + (carry + borrow) * WordWeight(i)
    {
      ghost var t := b[..];
      SubtractWord(t, b0, s, q, i, carry, borrow);
      WordProduct(s[i], q, carry);
      var ys := s[i] * q + carry;
      assert 0 <= ys < 0x1_0000_0000_0000_0000;
      carry := ys / 0x1_0000_0000;
      var y := b[i] - ys % 0x1_0000_0000 - borrow;
      borrow := if y < 0 then 1 else 0;
      b[i] := y + borrow * 0x1_0000_0000;
      assert b[..] == t[i := y + borrow * 0x1_0000_0000];
      i := i + 1;
    }
    WordBounds(b[..], |s|);
    WordBounds(b0, |s|);
    WordBounds(s, |s|);
    NoBorrowLeft(WordNum(b[..], |s|), WordNum(b0, |s|), q, WordNum(s, |s|), carry + borrow, WordWeight(|s|));
  }

  lemma NoWords(b: seq<int>, s: seq<int>, q: int)
    ensures WordNum(b, 0) == WordNum(b, 0) - q * WordNum(s, 0) + (0 + 0) * WordWeight(0)
  {
  }

  lemma WordProduct(s: int, q: int, carry: int)
    requires 0 <= s < 0x1_0000_0000 && 0 <= q < 0x1_0000_0000 && 0 <= carry <= q
    ensures 0 <= s * q + carry && (s * q + carry) / 0x1_0000_0000 <= q && s * q + carry < 0x1_0000_0000_0000_0000
  {
    TimesMonotone(0, s, q);
    TimesMonotone(s, 0xFFFF_FFFF, q);
  }

  lemma NoBorrowLeft(t: int, b: int, q: int, s: int, c: int, w: int)
    requires t == b - q * s + c * w && 0 <= t < w && 0 <= b < w && 0 <= b - q * s && 0 <= q && 0 <= s && 0 <= c
    ensures t == b - q * s
  {
    TimesMonotone(0, q, s);
    Gap(w, c);
  }

  // ------------------------------------------------------------------ quorem

  /** A number without leading zero words. */
  ghost predicate Trimmed(s: seq<int>, wds: nat) {
    wds <= |s| && (wds > 1 ==> s[wds - 1] != 0)
  }

  /** cmp for two numbers without leading zero words */
  method Compare(a: array<int>, wa: nat, s: seq<int>) returns (r: int)
    requires AreWords(a[..]) && AreWords(s) && wa <= a.Length && Trimmed(a[..], wa) && Trimmed(s, |s|)
    requires |s| > 0 && s[|s| - 1] != 0 && wa <= |s|
    ensures r < 0 <==> WordNum(a[..], wa) < WordNum(s, |s|)
    ensures r >= 0 ==> wa == |s|
  {
    hide WordNum, WordWeight;
    ghost var b := a[..];
    if wa != |s| {
      ShorterLess(b, wa, s);
      return wa - |s|;
    }
    var i := wa;
    while i > 0
      invariant 0 <= i <= wa && forall j :: i <= j < wa ==> b[j] == s[j]
    {
      i := i - 1;
      if a[i] != s[i] {
        DiffersAt(b, s, i, wa);
        return if a[i] < s[i] then -1 else 1;
      }
    }
    WordFrame(b, s, wa);
    return 0;
  }

  lemma ShorterLess(b: seq<int>, wa: nat, s: seq<int>)
    requires AreWords(b) && AreWords(s) && wa <= |b| && wa < |s| && s[|s| - 1] != 0
    ensures WordNum(b, wa) < WordNum(s, |s|)
  {
    WordBounds(b, wa);
    var n := |s| - 1;
    WordBounds(s, n);
    TimesMonotone(1, s[n], WordWeight(n));
    WeightGrows(wa, n);
  }

  lemma {:induction false} WeightGrows(i: nat, j: nat)
    requires i <= j
    ensures WordWeight(i) <= WordWeight(j)
  {
    if i < j {
      WeightGrows(i, j - 1);
    }
  }

  lemma {:induction false} DiffersAt(b: seq<int>, s: seq<int>, i: nat, n: nat)
    requires AreWords(b) && AreWords(s) && i < n <= |b| && n <= |s| && b[i] != s[i]
    requires forall j :: i < j < n ==> b[j] == s[j]
    ensures WordNum(b, n) < WordNum(s, n) <==> b[i] < s[i]
  {
    hide WordNum, WordWeight;
    WordNext(b, n - 1);
    WordNext(s, n - 1);
    if n > i + 1 {
      DiffersAt(b, s, i, n - 1);
    } else {
      WordBounds(b, i);
      WordBounds(s, i);
      Distribute(WordWeight(i), b[i], 1);
      Distribute(WordWeight(i), s[i], 1);
      if b[i] < s[i] {
        TimesMonotone(b[i] + 1, s[i], WordWeight(i));
      } else {
        TimesMonotone(s[i] + 1, b[i], WordWeight(i));
      }
    }
  }

  /** Dropping leading zero words after a subtraction, as both branches of quorem do. */
  method Trim(b: array<int>, top: nat) returns (wds: nat)
    requires top < b.Length && AreWords(b[..])
    ensures wds <= top + 1 && Trimmed(b[..], wds) && WordNum(b[..], wds) == WordNum(b[..], top + 1)
  {
    hide WordNum;
    if b[top] != 0 {
      return top + 1;
    }
    var n := top;
    var i: int := top - 1;
    while i > 0 && b[i] == 0
      invariant i == n - 1 && 0 <= n <= top && -1 <= i
      invariant forall j :: n <= j <= top ==> b[j] == 0
    {
      n := n - 1;
      i := i - 1;
    }
    WordZeros(b[..], n, top + 1);
    wds := n;
  }

  /**
   * quorem: for a divisor whose top word has exactly four leading zero bits
   * and a dividend of no more words, the result is the quotient and `b`
   * becomes the remainder. Below ten times the divisor it is a decimal digit.
   */
  method Quorem(b: array<int>, wds: nat, s: seq<int>) returns (q: int, wds': nat)
    requires AreWords(b[..]) && AreWords(s) && 0 < |s| <= b.Length && wds <= |s| && Trimmed(b[..], wds)
    requires 0x800_0000 <= s[|s| - 1] < 0x1000_0000
    modifies b
    ensures AreWords(b[..]) && wds' <= |s| && Trimmed(b[..], wds')
    ensures WordNum(s, |s|) > 0
    ensures q == old(WordNum(b[..], wds)) / WordNum(s, |s|) && 0 <= q
    ensures old(WordNum(b[..], wds)) < 10 * WordNum(s, |s|) ==> q < 10
    ensures WordNum(b[..], wds') == old(WordNum(b[..], wds)) % WordNum(s, |s|)
  {
    hide WordNum, WordWeight;
    ghost var b0 := b[..];
    ghost var sv, bv := WordNum(s, |s|), WordNum(b0, wds);
    if wds < |s| {
      ShorterLess(b0, wds, s);
      WordBounds(b0, wds);
      SmallMod(bv, sv);
      return 0, wds;
    }
    var n := |s| - 1;
    q := b[n] / (s[n] + 1);
    Estimate(b0, s, q);
    if q != 0 {
      SubtractMultiple(b, s, q);
      wds' := Trim(b, n);
    } else {
      wds' := wds;
    }
    assert WordNum(b[..], wds') == bv - q * sv;
    ghost var rest := WordNum(b[..], wds');
    var c := Compare(b, wds', s);
    if c >= 0 {
      OneMore(bv, sv, q);
      q := q + 1;
      SubtractMultiple(b, s, 1);
      wds' := Trim(b, n);
    }
    DigitDone(bv, sv, q, WordNum(b[..], wds'));
  }

  lemma Estimate(b: seq<int>, s: seq<int>, q: int)
    requires AreWords(b) && AreWords(s) && 0 < |s| <= |b| && 0x800_0000 <= s[|s| - 1] < 0x1000_0000
    requires q == b[|s| - 1] / (s[|s| - 1] + 1)
    ensures 0 <= q < 0x1_0000_0000 && q * WordNum(s, |s|) <= WordNum(b, |s|) < (q + 2) * WordNum(s, |s|)
    ensures WordNum(s, |s|) > 0
  {
    hide WordNum, WordWeight;
    var n := |s| - 1;
    WordNext(b, n);
    WordNext(s, n);
    WordBounds(b, n);
    WordBounds(s, n);
    WordBounds(b, |s|);
    TimesMonotone(1, s[n], WordWeight(n));
    OneBelow(WordNum(b, |s|), WordNum(s, |s|), b[n], s[n], WordWeight(n), WordNum(b, n), WordNum(s, n));
  }

  lemma OneMore(b: int, s: int, q: int)
    requires s > 0 && b - q * s >= s
    ensures b - (q + 1) * s == b - q * s - 1 * s >= 0
  {
    Distribute(s, q, 1);
  }

  lemma DigitDone(b: int, s: int, q: int, r: int)
    requires s > 0 && r == b - q * s && 0 <= r < s && 0 <= q
    ensures q == b / s && r == b % s
    ensures b < 10 * s ==> q < 10
  {
    DivisionUnique(b, s, q, r);
    if q >= 10 {
      TimesMonotone(10, q, s);
    }
  }
}
