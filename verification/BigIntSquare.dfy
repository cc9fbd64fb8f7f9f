/** squareMod_ of src/webclient/BigInt.js: squaring with each cross product taken once. */
module BigIntSquare {
  import opened Digits
  import opened BigInt
  import opened BigIntDivide
  import opened BigIntModular

  /** What the first `i` rows put down: x^2 without the square of the digits still to come. */
  ghost function Covered(x: int, low: int): int {
    low * (x + (x - low))
  }

  /** One row: digit `d = x[i]` shifted, times itself plus twice the digits from `i + 1` to `j`. */
  ghost function RowPart(xs: seq<int>, i: nat, j: nat): int {
    Shifted(xs, i) * (Shifted(xs, i) + 2 * (Num(xs, j) - Num(xs, i + 1)))
  }

  ghost function Shifted(xs: seq<int>, i: nat): int {
    Digit(xs, i) * Weight(i)
  }

  /** After `i` rows only the last digit written may be too large, and by at most one bit. */
  ghost predicate SquareAt(s: seq<int>, xs: seq<int>, kx: nat, i: nat) {
    AreDigits(xs) && i <= kx && 2 * kx <= |s| &&
    (forall p :: 0 <= p < |s| ==> 0 <= s[p] < if p == i + kx - 1 then 65536 else 32768) &&
    (forall p :: i + kx <= p < |s| ==> s[p] == 0) &&
    Value(s) == Covered(Num(xs, kx), Num(xs, i))
  }

  ghost predicate RowAt(s: seq<int>, s0: seq<int>, xs: seq<int>, i: nat, j: nat, c: int) {
    i < j && |s| == |s0| && i + j <= |s| && 0 <= c < 65536 &&
    (forall p :: 0 <= p < i + j ==> 0 <= s[p] < 32768) &&
    (forall p :: i + j <= p < |s| ==> s[p] == s0[p]) &&
    Num(s, i + j) + c * Weight(i + j) == Num(s0, i + j) + RowPart(xs, i, j)
  }

  lemma RowPartNext(xs: seq<int>, i: nat, j: nat)
    requires i < j
    ensures RowPart(xs, i, j + 1) == RowPart(xs, i, j) + 2 * Digit(xs, i) * Digit(xs, j) * Weight(i + j)
  {
    hide Num, Weight, Digit;
    NumNext(xs, j);
    var d, e := Shifted(xs, i), Digit(xs, j) * Weight(j);
    var r := d + 2 * (Num(xs, j) - Num(xs, i + 1));
    Distribute(d, r, 2 * e);
    WeightAdd(i, j);
    Regroup(Digit(xs, i), Weight(i), Digit(xs, j), Weight(j));
    assert d * (2 * e) == 2 * (d * e);
    Associate(2, Digit(xs, i) * Digit(xs, j), Weight(i + j));
    assert 2 * Digit(xs, i) * Digit(xs, j) == 2 * (Digit(xs, i) * Digit(xs, j));
  }

  lemma RowPartFirst(xs: seq<int>, i: nat)
    ensures RowPart(xs, i, i + 1) == Digit(xs, i) * Digit(xs, i) * Weight(i + i)
  {
    hide Num, Weight, Digit;
    WeightAdd(i, i);
    Regroup(Digit(xs, i), Weight(i), Digit(xs, i), Weight(i));
  }

  /** A full row moves one more digit out of the square still to come. */
  lemma CoveredNext(x: int, low: int, d: int)
    ensures Covered(x, low + d) == Covered(x, low) + d * (d + 2 * (x - (low + d)))
  {
    var m := x + (x - low);
    assert (low + d) * (m - d) == low * m - low * d + d * (m - d) by {
      Distribute(m - d, low, d);
      Distribute(low, m, d);
    }
    assert d * (m - d) - low * d == d * (m - d - low) by { Distribute(d, m - d, low); }
  }

  // ------------------------------------------------------------ bounds

  /**
   * The sum at the last column of a row would only just fit in 31 bits if
   * every part were as large as its own bound allows; the value of the whole
   * row keeps it strictly below.
   */
  lemma LastColumn(s: seq<int>, s0: seq<int>, xs: seq<int>, kx: nat, i: nat, c: int)
    requires i + 1 < kx && SquareAt(s0, xs, kx, i) && RowAt(s, s0, xs, i, kx - 1, c)
    ensures c + Digit(s, i + kx - 1) + 2 * Digit(xs, i) * Digit(xs, kx - 1) < 0x8000_0000
  {
    hide Weight, Num, Covered, RowPart;
    var m: nat := i + kx - 1;
    var e := 2 * Digit(xs, i) * Digit(xs, kx - 1);
    var sum := c + Digit(s, m) + e;
    LowDigits(s, m);
    assert Num(s, m) + sum * Weight(m) == Value(s0) + RowPart(xs, i, kx) by {
      RowPartNext(xs, i, kx - 1);
      NumNext(s0, m);
      NumZeros(s0, m + 1, |s0|);
      Distribute(Weight(m), c, Digit(s, m));
      Distribute(Weight(m), c + Digit(s, m), e);
    }
    RowTotal(xs, kx, i);
    WholeRowBound(xs, kx, i + 1);
    Below(sum, 0x8000_0000, Weight(m));
  }

  lemma RowTotal(xs: seq<int>, kx: nat, i: nat)
    ensures Covered(Num(xs, kx), Num(xs, i)) + RowPart(xs, i, kx) == Covered(Num(xs, kx), Num(xs, i + 1))
  {
    hide Weight, Num, Covered;
    NumNext(xs, i);
    CoveredNext(Num(xs, kx), Num(xs, i), Shifted(xs, i));
  }

  lemma LowDigits(s: seq<int>, m: nat)
    requires m <= |s| && forall p :: 0 <= p < m ==> 0 <= s[p] < 32768
    ensures 0 <= Num(s, m) < Weight(m)
  {
    NumFrame(s, s[..m], m);
    NumBounds(s[..m], m);
  }

  lemma WholeRowBound(xs: seq<int>, kx: nat, i: nat)
    requires AreDigits(xs) && 1 <= i <= kx && 2 <= i + kx
    ensures 0 <= Covered(Num(xs, kx), Num(xs, i)) < 0x8000_0000 * Weight(i + kx - 2)
  {
    hide Weight, Num;
    NumBounds(xs, kx);
    NumBounds(xs, i);
    NumGrows(xs, i, kx);
    HalfSquare(Num(xs, kx), Num(xs, i), Weight(kx), Weight(i));
    WeightAdd(i, kx);
    WeightNext(i + kx - 1);
    WeightNext(i + kx - 2);
  }

  lemma HalfSquare(x: int, low: int, wx: int, wl: int)
    requires 0 <= low <= x < wx && low < wl
    ensures 0 <= Covered(x, low) < 2 * (wl * wx)
  {
    var m := x + (x - low);
    TimesMonotone(0, low, m);
    TimesMonotone(low, wl - 1, m);
    TimesMonotone(m, 2 * wx, wl - 1);
    Distribute(2 * wx, wl, 1);
  }

  // --------------------------------------------------------------- the loops

  lemma ColumnBound(s: seq<int>, s0: seq<int>, xs: seq<int>, kx: nat, i: nat, j: nat, c: int)
    requires i < j < kx && SquareAt(s0, xs, kx, i) && RowAt(s, s0, xs, i, j, c)
    ensures i + j < |s| && 0 <= Digit(s, i + j) + 2 * Digit(xs, i) * Digit(xs, j) + c < 0x8000_0000
  {
    hide Weight, Num, Covered, RowPart;
    DigitProduct(Digit(xs, i), Digit(xs, j));
    Associate(2, Digit(xs, i), Digit(xs, j));
    if j == kx - 1 {
      LastColumn(s, s0, xs, kx, i, c);
    }
  }

  lemma ColumnSum(s: seq<int>, s0: seq<int>, xs: seq<int>, i: nat, j: nat, c: int)
    requires i < j && RowAt(s, s0, xs, i, j, c) && i + j < |s|
    ensures var sum := Digit(s, i + j) + 2 * Digit(xs, i) * Digit(xs, j) + c;
      Num(s[i + j := sum % 32768], i + j + 1) + sum / 32768 * Weight(i + j + 1) ==
        Num(s0, i + j + 1) + RowPart(xs, i, j + 1)
  {
    hide Weight, Num, RowPart;
    var m: nat, e := i + j, 2 * Digit(xs, i) * Digit(xs, j);
    var sum := s[m] + e + c;
    CarryStep(s, m, sum);
    RowPartNext(xs, i, j);
    NumNext(s0, m);
    Distribute3(Weight(m), s[m], e, c);
  }

  lemma ColumnStep(s: seq<int>, s0: seq<int>, xs: seq<int>, kx: nat, i: nat, j: nat, c: int)
    requires i < j < kx && SquareAt(s0, xs, kx, i) && RowAt(s, s0, xs, i, j, c)
    ensures i + j < |s|
    ensures var sum := Digit(s, i + j) + 2 * Digit(xs, i) * Digit(xs, j) + c;
      0 <= sum < 0x8000_0000 && RowAt(s[i + j := sum % 32768], s0, xs, i, j + 1, sum / 32768)
  {
    hide Weight, Num, RowPart, SquareAt;
    ColumnBound(s, s0, xs, kx, i, j, c);
    ColumnSum(s, s0, xs, i, j, c);
  }

  lemma RowBegins(s: seq<int>, xs: seq<int>, kx: nat, i: nat)
    requires i < kx && SquareAt(s, xs, kx, i)
    ensures i + i < |s|
    ensures var sum := Digit(s, i + i) + Digit(xs, i) * Digit(xs, i);
      0 <= sum < 0x8000_0000 && RowAt(s[i + i := sum % 32768], s, xs, i, i + 1, sum / 32768)
  {
    hide Weight, Num, Covered, RowPart;
    var m: nat, e := i + i, Digit(xs, i) * Digit(xs, i);
    DigitProduct(Digit(xs, i), Digit(xs, i));
    CarryStep(s, m, s[m] + e);
    RowPartFirst(xs, i);
    NumNext(s, m);
    Distribute(Weight(m), s[m], e);
  }

  lemma RowEnds(s: seq<int>, s0: seq<int>, xs: seq<int>, kx: nat, i: nat, c: int)
    requires i < kx && SquareAt(s0, xs, kx, i) && RowAt(s, s0, xs, i, kx, c)
    ensures i + kx < |s| && SquareAt(s[i + kx := c], xs, kx, i + 1)
  {
    hide Weight, Num, Covered, RowPart;
    var m: nat := i + kx;
    var t := s[m := c];
    NumFrame(s, t, m);
    NumNext(t, m);
    NumZeros(t, m + 1, |t|);
    NumZeros(s0, m, |s0|);
    RowTotal(xs, kx, i);
  }

  lemma SquareBegins(s: seq<int>, xs: seq<int>, kx: nat)
    requires AreDigits(xs) && 2 * kx <= |s| && forall p :: 0 <= p < |s| ==> s[p] == 0
    ensures SquareAt(s, xs, kx, 0)
  {
    NumZeros(s, 0, |s|);
  }

  lemma SquareBelow(x: int, w: int)
    requires 0 <= x < w
    ensures 0 <= x * x < w * w
  {
    TimesMonotone(0, x, x);
    TimesMonotone(x, w - 1, x);
    TimesMonotone(x, w, w - 1);
    Distribute(w, w, 1);
  }

  lemma SquareEnds(s: seq<int>, xs: seq<int>, kx: nat)
    requires SquareAt(s, xs, kx, kx)
    ensures AreDigits(s) && Value(s) == Num(xs, kx) * Num(xs, kx)
  {
    hide Weight, Num;
    if kx > 0 {
      var m: nat := 2 * kx - 1;
      var x := Num(xs, kx);
      NumBounds(xs, kx);
      NumZeros(s, m + 1, |s|);
      NumNext(s, m);
      LowDigits(s, m);
      SquareBelow(x, Weight(kx));
      WeightAdd(kx, kx);
      WeightNext(m);
      Below(s[m], 32768, Weight(m));
    }
  }

  /** The double loop of squareMod_: every intermediate sum stays below 2^31. */
  method Square(s: array<int>, x: array<int>, kx: nat)
    requires s != x && AreDigits(x[..]) && kx <= x.Length && 2 * kx <= s.Length
    requires forall p :: 0 <= p < s.Length ==> s[p] == 0
    modifies s
    ensures AreDigits(s[..]) && Value(s[..]) == Num(x[..], kx) * Num(x[..], kx)
  {
    hide Weight, Num, Covered, RowPart, SquareAt, RowAt, AreDigits;
    ghost var xs := x[..];
    SquareBegins(s[..], xs, kx);
    for i := 0 to kx
      invariant SquareAt(s[..], xs, kx, i)
    {
      ghost var s0 := s[..];
      RowBegins(s0, xs, kx, i);
      var c := s[2 * i] + x[i] * x[i];
      s[2 * i] := Low(c);
      assert s[..] == s0[i + i := c % 32768];
      c := High(c);
      for j := i + 1 to kx
        invariant RowAt(s[..], s0, xs, i, j, c)
      {
        ghost var s1 := s[..];
        ColumnStep(s1, s0, xs, kx, i, j, c);
        c := s[i + j] + 2 * x[i] * x[j] + c;
        s[i + j] := Low(c);
        assert s[..] == s1[i + j := c % 32768];
        c := High(c);
      }
      ghost var s2 := s[..];
      RowEnds(s2, s0, xs, kx, i, c);
      s[i + kx] := c;
      assert s[..] == s2[i + kx := c];
    }
    SquareEnds(s[..], xs, kx);
  }

  /** The length of the scratch array: twice the digits of x, or the length of n. */
  ghost function SquareLength(xs: seq<int>, ns: seq<int>): nat {
    if Used(xs, |xs|) > |ns| then 2 * Used(xs, |xs|) else 2 * |ns|
  }

  /** squareMod_: the square, what divide_ leaves of it, cut to the length of x. */
  method SquareMod(x: array<int>, n: array<int>) returns (ok: bool)
    requires x != n && n.Length >= 2 && AreDigits(x[..]) && Divisor(n[..])
    modifies x, n
    ensures var v, len := old(Value(x[..]) * Value(x[..])), old(SquareLength(x[..], n[..]));
      len >= n.Length && (ok <==> Divides(v, old(n[..]), len))
    ensures ok ==> n[..] == old(n[..]) && AreDigits(x[..])
    ensures var v, len := old(Value(x[..]) * Value(x[..])), old(SquareLength(x[..], n[..]));
      ok ==> Value(x[..]) == Leaves(v, n[..], len) % Weight(x.Length)
    ensures var v, len := old(Value(x[..]) * Value(x[..])), old(SquareLength(x[..], n[..]));
      ok && v < Weight(len - 1) && Value(n[..]) <= Weight(x.Length) ==>
        Value(n[..]) > 0 && Value(x[..]) == v % Value(n[..])
  {
    hide Weight, Num, AreDigits, Value, Divisor, Leaves, Divides;
    ghost var xs, ns := x[..], n[..];
    var kx := SkipZeros(x);
    var k := if kx > n.Length then 2 * kx else 2 * n.Length;
    var s0 := new int[k];
    CopyInt(s0, 0);
    Square(s0, x, kx);
    SquareIs(xs, ns, k);
    assert x[..] == xs && n[..] == ns;
    ok := Mod(s0, n);
    if !ok {
      return;
    }
    assert n[..] == ns;
    Copy(x, s0);
    assert n[..] == ns;
  }

  lemma SquareIs(xs: seq<int>, ns: seq<int>, len: nat)
    requires AreDigits(xs) && Divisor(ns) && |ns| >= 2 && |ns| <= len
    ensures Value(xs) == Num(xs, Used(xs, |xs|))
    ensures var v := Value(xs) * Value(xs);
      v < Weight(len - 1) && Value(ns) <= Weight(|xs|) ==>
        Value(ns) > 0 && Leaves(v, ns, len) % Weight(|xs|) == v % Value(ns)
  {
    hide Weight, Num, Leaves;
    ValueUsed(xs);
    NumBounds(xs, |xs|);
    var v := Value(xs) * Value(xs);
    TimesMonotone(0, Value(xs), Value(xs));
    if v < Weight(len - 1) && Value(ns) <= Weight(|xs|) {
      PlainlyReduced(v, ns, len, |xs|);
    }
  }
}
