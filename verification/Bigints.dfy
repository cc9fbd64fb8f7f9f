/**
 * The arithmetic of lualib-src/lua-cjson/dtoa.c on numbers in 32-bit words:
 * multadd, mult, pow5mult with its cached powers, lshift, cmp and diff. Every
 * intermediate sum is shown to fit the 64-bit word that holds it.
 */
module Bigints {
  import opened Digits
  import opened Quorem

  const TwoTo64: int := 0x1_0000_0000_0000_0000

  ghost function Val(s: seq<int>): int {
    WordNum(s, |s|)
  }

  /** No leading zero word, but for zero itself in one word. */
  ghost predicate Neat(s: seq<int>) {
    AreWords(s) && |s| >= 1 && Trimmed(s, |s|)
  }

  // -------------------------------------------------------------------- columns

  lemma {:induction false} WordWeightAdd(i: nat, j: nat)
    ensures WordWeight(i + j) == WordWeight(i) * WordWeight(j)
  {
    if i > 0 {
      WordWeightAdd(i - 1, j);
      assert WordWeight(i + j) == 0x1_0000_0000 * WordWeight(i - 1 + j);
      Associate(0x1_0000_0000, WordWeight(i - 1), WordWeight(j));
    }
  }

  /** Putting down the low word and carrying the rest loses nothing. */
  lemma CarryWord(s: seq<int>, i: nat, c: int)
    requires i < |s| && c >= 0
    ensures var t := s[i := c % 0x1_0000_0000];
      WordNum(t, i + 1) + c / 0x1_0000_0000 * WordWeight(i + 1) == WordNum(s, i) + c * WordWeight(i)
  {
    hide WordNum, WordWeight;
    var t, w := s[i := c % 0x1_0000_0000], WordWeight(i);
    WordFrame(s, t, i);
    WordNext(t, i);
    Associate(c / 0x1_0000_0000, 0x1_0000_0000, w);
    Distribute(w, 0x1_0000_0000 * (c / 0x1_0000_0000), c % 0x1_0000_0000);
  }

  lemma WordsNone(s: seq<int>)
    ensures WordNum(s, 0) == 0 && WordWeight(0) == 1
  {
  }

  /** A product of two words, a word and a carry fit 64 bits. */
  lemma ColumnFits(x: int, y: int, z: int, carry: int)
    requires 0 <= x < 0x1_0000_0000 && 0 <= y < 0x1_0000_0000 && 0 <= z < 0x1_0000_0000 && 0 <= carry < 0x1_0000_0000
    ensures 0 <= x * y + z + carry < TwoTo64 && 0 <= (x * y + z + carry) / 0x1_0000_0000 < 0x1_0000_0000
  {
    TimesMonotone(0, x, y);
    TimesMonotone(x, 0xFFFF_FFFF, y);
  }

  // -------------------------------------------------------------------- multadd

  /** multadd: b * m + a, in place with one word more if it is needed. */
  method MultAdd(b: seq<int>, m: int, a: int) returns (r: seq<int>)
    requires AreWords(b) && |b| >= 1 && 0 <= m < 0x8000_0000 && 0 <= a < 0x8000_0000
    ensures AreWords(r) && Val(r) == Val(b) * m + a && |b| <= |r| <= |b| + 1
    ensures Neat(b) && m > 0 ==> Neat(r)
  {
    hide WordNum, WordWeight;
    r := b;
    var carry, i := a, 0;
    WordsNone(b);
    while i < |b|
      invariant 0 <= i <= |b| == |r| && 0 <= carry < 0x1_0000_0000 && AreWords(r)
      invariant forall j :: i <= j < |b| ==> r[j] == b[j]
      invariant WordNum(r, i) + carry * WordWeight(i) == WordNum(b, i) * m + a
    {
      ColumnFits(b[i], m, 0, carry);
      var y := r[i] * m + carry;
      assert 0 <= y < TwoTo64;
      AddColumn(r, b, i, m, a, carry);
      r := r[i := y % 0x1_0000_0000];
      carry := y / 0x1_0000_0000;
      i := i + 1;
    }
    ghost var s := r;
    if carry != 0 {
      r := r + [carry];
    }
    OneMoreWord(s, carry, |b|);
    if Neat(b) && m > 0 && carry == 0 && |b| > 1 {
      TopKept(r, b, m, a);
    }
  }

  lemma AddColumn(r: seq<int>, b: seq<int>, i: nat, m: int, a: int, carry: int)
    requires i < |b| == |r| && r[i] == b[i] && carry >= 0 && r[i] * m + carry >= 0
    requires WordNum(r, i) + carry * WordWeight(i) == WordNum(b, i) * m + a
    ensures var y := r[i] * m + carry; var t := r[i := y % 0x1_0000_0000];
      WordNum(t, i + 1) + y / 0x1_0000_0000 * WordWeight(i + 1) == WordNum(b, i + 1) * m + a
  {
    hide WordNum, WordWeight;
    var y, w := r[i] * m + carry, WordWeight(i);
    CarryWord(r, i, y);
    WordNext(b, i);
    Distribute(w, b[i] * m, carry);
    Distribute(m, WordNum(b, i), b[i] * w);
    Associate(m, b[i], w);
  }

  lemma OneMoreWord(s: seq<int>, carry: int, n: nat)
    requires AreWords(s) && |s| == n && 0 <= carry < 0x1_0000_0000
    ensures var r := if carry != 0 then s + [carry] else s;
      AreWords(r) && Val(r) == WordNum(s, n) + carry * WordWeight(n)
  {
    hide WordNum, WordWeight;
    if carry != 0 {
      WordFrame(s, s + [carry], n);
      WordNext(s + [carry], n);
    }
  }

  /** A number that keeps its length keeps a top word. */
  lemma TopKept(r: seq<int>, b: seq<int>, m: int, a: int)
    requires AreWords(r) && AreWords(b) && |r| == |b| >= 1 && b[|b| - 1] != 0 && m > 0 && a >= 0
    requires Val(r) == Val(b) * m + a
    ensures r[|r| - 1] != 0
  {
    hide WordNum, WordWeight;
    var n := |b| - 1;
    WordNext(b, n);
    WordNext(r, n);
    WordBounds(b, n);
    WordBounds(r, n);
    WordBounds(b, |b|);
    TimesMonotone(1, b[n], WordWeight(n));
    TimesMonotone(1, m, Val(b));
  }

  // ----------------------------------------------------------------------- mult

  /** One row: y * x added from word `j` on. */
  method Row(z: array<int>, x: seq<int>, y: int, j: nat)
    requires AreWords(z[..]) && AreWords(x) && 0 <= y < 0x1_0000_0000 && j + |x| < z.Length
    requires forall p :: j + |x| <= p < z.Length ==> z[p] == 0
    modifies z
    ensures AreWords(z[..]) && Val(z[..]) == old(Val(z[..])) + y * (Val(x) * WordWeight(j))
    ensures forall p :: j + |x| < p < z.Length ==> z[p] == 0
  {
    hide WordNum, WordWeight;
    ghost var z0 := z[..];
    var carry, i := 0, 0;
    WordsNone(x);
    while i < |x|
      invariant 0 <= i <= |x| && 0 <= carry < 0x1_0000_0000 && AreWords(z[..])
      invariant forall p :: j + i <= p < z.Length ==> z[p] == z0[p]
      invariant WordNum(z[..], j + i) + carry * WordWeight(j + i)
        == WordNum(z0, j + i) + y * (WordNum(x, i) * WordWeight(j))
    {
      ghost var t := z[..];
      ColumnFits(x[i], y, z[j + i], carry);
      var sum := x[i] * y + z[j + i] + carry;
      assert 0 <= sum < TwoTo64;
      RowColumn(t, z0, x, y, i, j, carry);
      z[j + i] := sum % 0x1_0000_0000;
      assert z[..] == t[j + i := sum % 0x1_0000_0000];
      carry := sum / 0x1_0000_0000;
      i := i + 1;
    }
    ghost var t := z[..];
    z[j + |x|] := carry;
    assert z[..] == t[j + |x| := carry];
    RowTotal(t, z0, carry, j + |x|);
  }

  lemma RowColumn(t: seq<int>, z0: seq<int>, x: seq<int>, y: int, i: nat, j: nat, carry: int)
    requires i < |x| && j + i < |t| == |z0| && t[j + i] == z0[j + i] && x[i] * y + t[j + i] + carry >= 0
    requires WordNum(t, j + i) + carry * WordWeight(j + i) == WordNum(z0, j + i) + y * (WordNum(x, i) * WordWeight(j))
    ensures var sum := x[i] * y + t[j + i] + carry; var t' := t[j + i := sum % 0x1_0000_0000];
      WordNum(t', j + i + 1) + sum / 0x1_0000_0000 * WordWeight(j + i + 1)
      == WordNum(z0, j + i + 1) + y * (WordNum(x, i + 1) * WordWeight(j))
  {
    hide WordNum, WordWeight;
    CarryWord(t, j + i, x[i] * y + t[j + i] + carry);
    WordNext(z0, j + i);
    WordNext(x, i);
    WordWeightAdd(i, j);
    RowSum(x[i], y, t[j + i], carry, WordWeight(i), WordWeight(j), WordNum(x, i));
  }

  lemma RowSum(x: int, y: int, z: int, carry: int, wi: int, wj: int, low: int)
    ensures (x * y + z + carry) * (wi * wj) + y * (low * wj)
      == z * (wi * wj) + carry * (wi * wj) + y * ((low + x * wi) * wj)
  {
    var w := wi * wj;
    Distribute(w, x * y + z, carry);
    Distribute(w, x * y, z);
    Distribute(wj, low, x * wi);
    Associate(x, wi, wj);
    Distribute(y, low * wj, x * w);
    Associate(y, x, w);
  }

  lemma RowTotal(t: seq<int>, z0: seq<int>, carry: int, n: nat)
    requires n < |t| == |z0| && AreWords(t) && 0 <= carry < 0x1_0000_0000
    requires forall p :: n <= p < |t| ==> t[p] == z0[p] && z0[p] == 0
    ensures AreWords(t[n := carry])
    ensures Val(t[n := carry]) - Val(z0) == WordNum(t, n) + carry * WordWeight(n) - WordNum(z0, n)
  {
    hide WordNum, WordWeight;
    var s := t[n := carry];
    WordFrame(t, s, n);
    WordNext(s, n);
    WordZeros(s, n + 1, |s|);
    WordZeros(z0, n, |z0|);
  }

  /** mult: the product, without leading zero words. */
  method Mult(a: seq<int>, b: seq<int>) returns (c: seq<int>)
    requires AreWords(a) && AreWords(b)
    ensures AreWords(c) && Val(c) == Val(a) * Val(b) && (c != [] ==> c[|c| - 1] != 0)
  {
    hide WordNum, WordWeight;
    var x, y := if |a| < |b| then b else a, if |a| < |b| then a else b;
    var z := new int[|x| + |y|](_ => 0);
    WordZeros(z[..], 0, z.Length);
    WordsNone(y);
    WordsNone(z[..]);
    for j := 0 to |y|
      invariant AreWords(z[..]) && Val(z[..]) == Val(x) * WordNum(y, j)
      invariant forall p :: j + |x| <= p < z.Length ==> z[p] == 0
    {
      NextRow(Val(x), y, j);
      if y[j] != 0 {
        Row(z, x, y[j], j);
      }
    }
    var wc := z.Length;
    while wc > 0 && z[wc - 1] == 0
      invariant 0 <= wc <= z.Length && forall p :: wc <= p < z.Length ==> z[p] == 0
    {
      wc := wc - 1;
    }
    c := z[..wc];
    WordZeros(z[..], wc, z.Length);
    WordFrame(z[..], c, wc);
  }

  lemma NextRow(xv: int, y: seq<int>, j: nat)
    requires j < |y|
    ensures xv * WordNum(y, j + 1) == xv * WordNum(y, j) + y[j] * (xv * WordWeight(j))
    ensures y[j] == 0 ==> xv * WordNum(y, j + 1) == xv * WordNum(y, j)
  {
    hide WordNum, WordWeight;
    WordNext(y, j);
    Distribute(xv, WordNum(y, j), y[j] * WordWeight(j));
    Associate(xv, y[j], WordWeight(j));
  }

  // ------------------------------------------------------------------- pow5mult

  /** The list p5s: 5^4, 5^8, 5^16, each the square of the one before. */
  class Pow5 {
    var chain: seq<seq<int>>

    ghost predicate Valid()
      reads this
    {
      forall i :: 0 <= i < |chain| ==> IsPower(chain[i], i)
    }

    constructor ()
      ensures Valid() && chain == []
    {
      chain := [];
    }

    /** pow5mult: b * 5^k, whatever has been cached; the cache only grows. */
    method Pow5Mult(b: seq<int>, k: nat) returns (r: seq<int>)
      requires Valid() && AreWords(b) && |b| >= 1
      modifies this
      ensures Valid() && old(chain) <= chain
      ensures AreWords(r) && Val(r) == Val(b) * Power(5, k)
    {
      hide WordNum, IsPower, Power, Val, AreWords;
      r := b;
      var i := k % 4;
      SmallPowers();
      if i != 0 {
        r := MultAdd(b, if i == 1 then 5 else if i == 2 then 25 else 125, 0);
      }
      var n := k / 4;
      FirstPart(Val(b), Val(r), k, n, i);
      if n == 0 {
        NoPowerLeft(Val(r));
        return;
      }
      if chain == [] {
        FirstPower();
        chain := [[625]];
      }
      var j := 0;
      PowerIs(chain[0], 0);
      while true
        invariant Valid() && old(chain) <= chain && 0 <= j < |chain| && n > 0 && AreWords(r) && AreWords(chain[j])
        invariant Val(r) * Power(Val(chain[j]), n) == Val(b) * Power(5, k)
        decreases n
      {
        ghost var v, p := Val(r), Val(chain[j]);
        if n % 2 == 1 {
          r := Mult(r, chain[j]);
        }
        HalfPower(v, p, n);
        n := n / 2;
        if n == 0 {
          NoPowerLeft(p * p);
          break;
        }
        Extend(j);
        j := j + 1;
      }
    }

    /** The next power: cached, or the square of this one. */
    method Extend(j: nat)
      requires Valid() && j < |chain|
      modifies this
      ensures Valid() && old(chain) <= chain && j + 1 < |chain|
      ensures AreWords(chain[j + 1]) && Val(chain[j + 1]) == old(Val(chain[j]) * Val(chain[j]))
    {
      hide WordNum, IsPower, Power, Val;
      PowerIs(chain[j], j);
      if j + 1 == |chain| {
        var next := Mult(chain[j], chain[j]);
        NextPower(next, chain[j], j);
        chain := chain + [next];
      }
      PowerIs(chain[j + 1], j + 1);
      SquareOf(chain[j], chain[j + 1], j);
    }
  }

  ghost predicate IsPower(s: seq<int>, i: nat) {
    AreWords(s) && Power(2, i) >= 0 && Val(s) == Power(625, Power(2, i))
  }

  lemma PowerIs(s: seq<int>, i: nat)
    requires IsPower(s, i)
    ensures AreWords(s) && (i == 0 ==> Val(s) == 625)
  {
    assert Power(2, 0) == 1 && Power(625, 1) == 625 * Power(625, 0);
  }

  lemma FirstPower()
    ensures IsPower([625], 0)
  {
    assert Power(2, 0) == 1 && Power(625, 1) == 625 * Power(625, 0);
    WordsNone([625]);
    assert WordNum([625], 1) == WordNum([625], 0) + 625 * WordWeight(0);
  }

  lemma Doubled(i: nat)
    ensures Power(2, i) >= 0 && Power(2, i + 1) == Power(2, i) + Power(2, i)
    ensures Power(625, Power(2, i + 1)) == Power(625, Power(2, i)) * Power(625, Power(2, i))
  {
    PowerTwoPositive(i);
    PowerAdd(625, Power(2, i), Power(2, i));
  }

  lemma NextPower(next: seq<int>, s: seq<int>, i: nat)
    requires IsPower(s, i) && AreWords(next) && Val(next) == Val(s) * Val(s)
    ensures IsPower(next, i + 1)
  {
    hide WordNum, Power;
    Doubled(i);
  }

  lemma SquareOf(s: seq<int>, next: seq<int>, i: nat)
    requires IsPower(s, i) && IsPower(next, i + 1)
    ensures Val(next) == Val(s) * Val(s)
  {
    hide WordNum, Power;
    Doubled(i);
  }

  lemma SmallPowers()
    ensures Power(5, 0) == 1 && Power(5, 1) == 5 && Power(5, 2) == 25 && Power(5, 3) == 125 && Power(5, 4) == 625
  {
    assert Power(5, 3) == 5 * Power(5, 2) && Power(5, 4) == 5 * Power(5, 3);
  }

  lemma FirstPart(b: int, r: int, k: nat, n: nat, i: nat)
    requires k == 4 * n + i && i < 4 && r == b * Power(5, i)
    ensures r * Power(625, n) == b * Power(5, k)
  {
    hide Power;
    SmallPowers();
    PowerPower(5, 4, n);
    PowerAdd(5, i, 4 * n);
    Associate(b, Power(5, i), Power(625, n));
  }

  lemma NoPowerLeft(p: int)
    ensures Power(p, 0) == 1
  {
  }

  lemma HalfPower(v: int, p: int, n: nat)
    requires n > 0
    ensures (if n % 2 == 1 then v * p else v) * Power(p * p, n / 2) == v * Power(p, n)
  {
    var h: nat := n / 2;
    PowerTimes(p, p, h);
    PowerAdd(p, h, h);
    if n % 2 == 1 {
      assert Power(p, n) == p * Power(p, h + h);
      Associate(v, p, Power(p, h + h));
    }
  }

  // ---------------------------------------------------------------- cmp and diff

  /** cmp */
  method Compare(a: seq<int>, b: seq<int>) returns (r: int)
    requires Neat(a) && Neat(b)
    ensures (r < 0 <==> Val(a) < Val(b)) && (r == 0 <==> Val(a) == Val(b))
    ensures r > 0 ==> |a| >= |b|
    ensures r < 0 ==> |a| <= |b|
  {
    hide WordNum, WordWeight;
    if |a| < |b| {
      ShorterLess(a, |a|, b);
      return |a| - |b|;
    }
    if |a| > |b| {
      ShorterLess(b, |b|, a);
      return |a| - |b|;
    }
    var i := |a|;
    while i > 0
      invariant 0 <= i <= |a| && forall j :: i <= j < |a| ==> a[j] == b[j]
    {
      i := i - 1;
      if a[i] != b[i] {
        DiffersAt(a, b, i, |a|);
        DiffersAt(b, a, i, |a|);
        return if a[i] < b[i] then -1 else 1;
      }
    }
    WordFrame(a, b, |a|);
    return 0;
  }

  /** diff: the difference and its sign. */
  method Diff(a0: seq<int>, b0: seq<int>) returns (sign: bool, c: seq<int>)
    requires Neat(a0) && Neat(b0)
    ensures Neat(c) && sign == (Val(a0) < Val(b0))
    ensures Val(c) == if sign then Val(b0) - Val(a0) else Val(a0) - Val(b0)
  {
    hide WordNum, WordWeight;
    var i := Compare(a0, b0);
    if i == 0 {
      ZeroWord();
      return false, [0];
    }
    sign := i < 0;
    var a, b := if sign then b0 else a0, if sign then a0 else b0;
    c := Subtract(a, b);
    var wa := |a|;
    WordBounds(c, 0);
    WordsNone(c);
    while c[wa - 1] == 0
      invariant 1 <= wa <= |c| && forall p :: wa <= p < |c| ==> c[p] == 0
      decreases wa
    {
      if wa == 1 {
        WordZeros(c, 0, |c|);
      }
      wa := wa - 1;
    }
    WordZeros(c, wa, |c|);
    WordFrame(c, c[..wa], wa);
    c := c[..wa];
  }

  lemma ZeroWord()
    ensures Neat([0]) && Val([0]) == 0
  {
    assert WordNum([0], 1) == WordNum([0], 0) + 0 * WordWeight(0);
  }

  /** The loops of diff: a - b for the larger a, borrowing from word to word. */
  method Subtract(a: seq<int>, b: seq<int>) returns (c: seq<int>)
    requires AreWords(a) && AreWords(b) && |b| <= |a| && Val(b) <= Val(a)
    ensures AreWords(c) && |c| == |a| && Val(c) == Val(a) - Val(b)
  {
    hide WordNum, WordWeight;
    c := a;
    var borrow, i := 0, 0;
    WordsNone(a);
    WordsNone(b);
    while i < |a|
      invariant 0 <= i <= |a| == |c| && 0 <= borrow <= 1 && AreWords(c)
      invariant forall j :: i <= j < |a| ==> c[j] == a[j]
      invariant WordNum(c, i) == WordNum(a, i) - WordNum(b, if i < |b| then i else |b|) + borrow * WordWeight(i)
    {
      var y := a[i] - (if i < |b| then b[i] else 0) - borrow;
      BorrowColumn(c, a, b, i, borrow);
      borrow := if y < 0 then 1 else 0;
      c := c[i := y + borrow * 0x1_0000_0000];
      i := i + 1;
    }
    WordBounds(c, |c|);
    WordBounds(a, |a|);
    WordBounds(b, |b|);
  }

  lemma BorrowColumn(c: seq<int>, a: seq<int>, b: seq<int>, i: nat, borrow: int)
    requires i < |a| == |c| && |b| <= |a|
    requires WordNum(c, i) == WordNum(a, i) - WordNum(b, if i < |b| then i else |b|) + borrow * WordWeight(i)
    ensures var y := a[i] - (if i < |b| then b[i] else 0) - borrow;
      var borrow' := if y < 0 then 1 else 0;
      WordNum(c[i := y + borrow' * 0x1_0000_0000], i + 1)
      == WordNum(a, i + 1) - WordNum(b, if i + 1 < |b| then i + 1 else |b|) + borrow' * WordWeight(i + 1)
  {
    hide WordNum, WordWeight;
    var bi := if i < |b| then b[i] else 0;
    var y := a[i] - bi - borrow;
    var borrow' := if y < 0 then 1 else 0;
    var t, w := c[i := y + borrow' * 0x1_0000_0000], WordWeight(i);
    WordFrame(c, t, i);
    WordNext(t, i);
    WordNext(a, i);
    if i < |b| {
      WordNext(b, i);
    }
    Distribute(w, a[i] - bi, borrow);
    Distribute(w, a[i], bi);
    Distribute(w, y, borrow' * 0x1_0000_0000);
    Associate(borrow', 0x1_0000_0000, w);
  }

  // --------------------------------------------------------------------- lshift

  /** lshift: b * 2^k, whole words first, then the bits. */
  method LShift(b: seq<int>, k: nat) returns (r: seq<int>)
    requires AreWords(b) && |b| >= 1
    ensures AreWords(r) && Val(r) == Val(b) * Power(2, k)
    ensures |r| == k / 32 + |b| || |r| == k / 32 + |b| + 1
  {
    hide WordNum, WordWeight, Power;
    var n, bits := k / 32, k % 32;
    var shifted := b;
    if bits != 0 {
      shifted := ShiftBits(b, bits);
    } else {
      NoPowerLeft(2);
    }
    r := seq(n, _ => 0) + shifted;
    RaisedWords(shifted, n, |shifted|);
    WordPower(n);
    PowerAdd(2, bits, 32 * n);
    Associate(Val(b), Power(2, bits), Power(2, 32 * n));
  }

  lemma {:induction false} WordPower(n: nat)
    ensures WordWeight(n) == Power(2, 32 * n)
  {
    if n > 0 {
      WordPower(n - 1);
      PowerAdd(2, 32, 32 * (n - 1));
      Power32();
    }
  }

  lemma Power32()
    ensures Power(2, 32) == 0x1_0000_0000
  {
    assert Power(2, 8) == 256;
    PowerAdd(2, 8, 8);
    PowerAdd(2, 16, 16);
  }

  lemma {:induction false} RaisedWords(s: seq<int>, n: nat, k: nat)
    requires k <= |s|
    ensures WordNum(seq(n, _ => 0) + s, n + k) == WordNum(s, k) * WordWeight(n)
  {
    hide WordWeight, WordNum;
    var t := seq(n, _ => 0) + s;
    if k == 0 {
      WordZeros(t, 0, n);
      WordsNone(t);
      WordsNone(s);
    } else {
      RaisedWords(s, n, k - 1);
      WordNext(t, n + k - 1);
      WordNext(s, k - 1);
      WordWeightAdd(k - 1, n);
      Distribute(WordWeight(n), WordNum(s, k - 1), s[k - 1] * WordWeight(k - 1));
      Associate(s[k - 1], WordWeight(k - 1), WordWeight(n));
      assert t[n + k - 1] == s[k - 1];
    }
  }

  /** The loop over the words with the bits that spill into the next one. */
  method ShiftBits(b: seq<int>, bits: nat) returns (r: seq<int>)
    requires AreWords(b) && |b| >= 1 && 0 < bits < 32
    ensures AreWords(r) && Val(r) == Val(b) * Power(2, bits) && |b| <= |r| <= |b| + 1
  {
    hide WordNum, WordWeight, Power;
    var p, q := Power(2, bits), Power(2, 32 - bits);
    Complement(bits);
    r := [];
    var z, i := 0, 0;
    WordsNone(b);
    WordsNone(r);
    while i < |b|
      invariant 0 <= i <= |b| && |r| == i && 0 <= z < p && AreWords(r)
      invariant Val(r) + z * WordWeight(i) == WordNum(b, i) * p
    {
      SpillWord(b[i], p, q);
      ShiftColumn(r, b, i, p, q, z);
      r := r + [b[i] * p % 0x1_0000_0000 + z];
      z := b[i] / q;
      i := i + 1;
    }
    ghost var s := r;
    if z != 0 {
      r := r + [z];
    }
    OneMoreWord(s, z, |b|);
  }

  lemma Complement(bits: nat)
    requires 0 < bits < 32
    ensures Power(2, bits) * Power(2, 32 - bits) == 0x1_0000_0000
    ensures 1 <= Power(2, bits) < 0x1_0000_0000 && Power(2, 32 - bits) >= 2
  {
    hide Power;
    Power32();
    PowerAdd(2, bits, 32 - bits);
    PowerTwoPositive(bits);
    PowerTwoPositive(31 - bits);
    Doubles(31 - bits);
    TimesMonotone(2, Power(2, 32 - bits), Power(2, bits));
  }

  lemma Doubles(n: nat)
    ensures Power(2, n + 1) == 2 * Power(2, n)
  {
  }

  /** A word times p, split at the word boundary; the low part leaves room for what spills in. */
  lemma SpillWord(d: int, p: int, q: int)
    requires 0 <= d < 0x1_0000_0000 && p * q == 0x1_0000_0000 && p > 0 && q > 0
    ensures d * p == 0x1_0000_0000 * (d / q) + d * p % 0x1_0000_0000
    ensures 0 <= d / q < p && 0 <= d * p % 0x1_0000_0000 <= 0x1_0000_0000 - p
  {
    var h, l := d / q, d % q;
    assert d == q * h + l;
    Distribute(p, q * h, l);
    Associate(p, q, h);
    TimesMonotone(l, q - 1, p);
    TimesMonotone(0, l, p);
    Distribute(p, q, 1);
    DivisionUnique(d * p, 0x1_0000_0000, h, p * l);
    QuotientBelow(d, p, q);
  }

  lemma ShiftColumn(r: seq<int>, b: seq<int>, i: nat, p: int, q: int, z: int)
    requires i < |b| && |r| == i && q > 0 && b[i] * p == 0x1_0000_0000 * (b[i] / q) + b[i] * p % 0x1_0000_0000
    requires Val(r) + z * WordWeight(i) == WordNum(b, i) * p
    ensures var t := r + [b[i] * p % 0x1_0000_0000 + z];
      Val(t) + b[i] / q * WordWeight(i + 1) == WordNum(b, i + 1) * p
  {
    hide WordNum, WordWeight;
    var low, h, w := b[i] * p % 0x1_0000_0000, b[i] / q, WordWeight(i);
    var t := r + [low + z];
    WordFrame(r, t, i);
    WordNext(t, i);
    WordNext(b, i);
    Distribute(w, low, z);
    Distribute(p, WordNum(b, i), b[i] * w);
    Associate(p, b[i], w);
    Distribute(w, 0x1_0000_0000 * h, low);
    Associate(h, 0x1_0000_0000, w);
  }
}
