/** greaterShift of src/webclient/BigInt.js: is x, raised by some digits, above y? */
module BigIntCompare {
  import opened Digits
  import opened BigInt

  ghost function Raised(xs: seq<int>, shift: nat): seq<int> {
    seq(shift, i => 0) + xs
  }

  lemma {:induction false} RaisedNum(xs: seq<int>, shift: nat, k: nat)
    ensures Num(Raised(xs, shift), shift + k) == Num(xs, k) * Weight(shift)
  {
    hide Weight, Num;
    var s := Raised(xs, shift);
    if k == 0 {
      NumZeros(s, 0, shift);
      NumZero(s);
      NumZero(xs);
    } else {
      RaisedNum(xs, shift, k - 1);
      NumNext(s, shift + k - 1);
      NumNext(xs, k - 1);
      WeightAdd(k - 1, shift);
      Distribute(Weight(shift), Num(xs, k - 1), Digit(xs, k - 1) * Weight(k - 1));
      Associate(Digit(xs, k - 1), Weight(k - 1), Weight(shift));
      assert Digit(s, shift + k - 1) == Digit(xs, k - 1);
    }
  }

  lemma RaisedValue(xs: seq<int>, shift: nat)
    requires AreDigits(xs)
    ensures AreDigits(Raised(xs, shift)) && |Raised(xs, shift)| == shift + |xs|
    ensures Value(Raised(xs, shift)) == Value(xs) * Weight(shift)
    ensures Num(Raised(xs, shift), shift) == 0
    ensures forall i :: shift <= i < shift + |xs| ==> Raised(xs, shift)[i] == xs[i - shift]
  {
    hide Num, Weight;
    RaisedNum(xs, shift, |xs|);
    RaisedNum(xs, shift, 0);
    NumZero(xs);
  }

  /** Digit `i` is the highest that is not zero. */
  ghost predicate HighestAt(s: seq<int>, i: int) {
    0 <= i < |s| && s[i] > 0 && forall j :: i < j < |s| ==> s[j] == 0
  }

  ghost predicate Above(xs: seq<int>, ys: seq<int>, shift: nat) {
    Value(xs) * Weight(shift) > Value(ys)
  }

  /**
   * Where greaterShift gives the wrong answer: both scans for leading digits
   * start one column early, and neither looks at anything when the shift
   * passes the end of y.
   */
  ghost predicate Misjudged(xs: seq<int>, ys: seq<int>, shift: nat) {
    if shift >= |ys| then Value(xs) > 0
    else if Above(xs, ys, shift) then |xs| + shift < |ys| && HighestAt(ys, |xs| - 1 + shift)
    else HighestAt(xs, |ys| - 1 - shift)
  }

  /** The shift passes the end of y. */
  lemma PastEnd(xs: seq<int>, ys: seq<int>, shift: nat)
    requires AreDigits(xs) && AreDigits(ys) && shift >= |ys|
    ensures Above(xs, ys, shift) <==> Misjudged(xs, ys, shift)
  {
    hide Num, Weight;
    NumBounds(xs, |xs|);
    NumBounds(ys, |ys|);
    WeightMonotone(|ys|, shift);
    if Value(xs) > 0 {
      TimesMonotone(1, Value(xs), Weight(shift));
    }
  }

  /** A digit of x above the top column of y. */
  lemma HigherInX(xs: seq<int>, ys: seq<int>, shift: nat, i: nat)
    requires AreDigits(xs) && AreDigits(ys) && |ys| <= i + shift && i < |xs| && xs[i] > 0
    ensures Above(xs, ys, shift)
  {
    hide Num, Weight, Raised;
    RaisedValue(xs, shift);
    LongerWins(Raised(xs, shift), ys, i + shift);
  }

  /** A digit of y above the top column of x. */
  lemma HigherInY(xs: seq<int>, ys: seq<int>, shift: nat, i: nat)
    requires AreDigits(xs) && AreDigits(ys) && |xs| + shift <= i < |ys| && ys[i] > 0
    ensures !Above(xs, ys, shift)
  {
    hide Num, Weight, Raised;
    RaisedValue(xs, shift);
    LongerWins(ys, Raised(xs, shift), i);
  }

  /** The first scan found digit `i` of x, and answers yes. */
  lemma FoundInX(xs: seq<int>, ys: seq<int>, shift: nat, i: nat)
    requires AreDigits(xs) && AreDigits(ys) && shift < |ys| && |ys| - 1 - shift <= i < |xs| && xs[i] > 0
    ensures Above(xs, ys, shift) != Misjudged(xs, ys, shift)
  {
    var top: nat := |ys| - 1 - shift;
    if i > top {
      HigherInX(xs, ys, shift, i);
    } else if exists j :: top < j < |xs| && xs[j] != 0 {
      var j :| top < j < |xs| && xs[j] != 0;
      HigherInX(xs, ys, shift, j);
    }
  }

  /** The second scan found digit `i` of y, and answers no. */
  lemma FoundInY(xs: seq<int>, ys: seq<int>, shift: nat, i: nat)
    requires AreDigits(xs) && AreDigits(ys) && 0 < |xs| && |xs| - 1 + shift <= i < |ys| && ys[i] > 0
    requires forall j :: |ys| - 1 - shift <= j < |xs| ==> xs[j] == 0
    ensures Above(xs, ys, shift) <==> Misjudged(xs, ys, shift)
  {
    var top := |xs| - 1 + shift;
    if i > top {
      HigherInY(xs, ys, shift, i);
    } else if exists j :: top < j < |ys| && ys[j] != 0 {
      var j :| top < j < |ys| && ys[j] != 0;
      HigherInY(xs, ys, shift, j);
    } else if |xs| + shift == |ys| {
      hide Num, Weight;
      var shorter := xs[..|xs| - 1];
      NumZeros(xs, |xs| - 1, |xs|);
      NumFrame(xs, shorter, |xs| - 1);
      HigherInY(shorter, ys, shift, i);
    }
  }

  lemma NotMisjudged(xs: seq<int>, ys: seq<int>, shift: nat)
    requires 0 < |xs| && shift < |ys|
    requires forall j :: |ys| - 1 - shift <= j < |xs| ==> xs[j] == 0
    requires forall j :: |xs| - 1 + shift <= j < |ys| ==> ys[j] == 0
    ensures !Misjudged(xs, ys, shift)
  {
  }

  /** greaterShift: right unless the arguments are misjudged. */
  method GreaterShift(x: array<int>, y: array<int>, shift: nat) returns (g: bool)
    requires AreDigits(x[..]) && AreDigits(y[..]) && x.Length > 0
    ensures g <==> Above(x[..], y[..], shift) != Misjudged(x[..], y[..], shift)
  {
    hide Num, Weight, Raised, Above, Misjudged;
    ghost var xs, ys := x[..], y[..];
    var k := if x.Length + shift < y.Length then x.Length + shift else y.Length;
    var i := y.Length - 1 - shift;
    while i < x.Length && i >= 0
      invariant y.Length - 1 - shift <= i && (shift >= y.Length ==> i < 0)
      invariant forall j :: y.Length - 1 - shift <= j < i && 0 <= j < x.Length ==> x[j] == 0
    {
      if x[i] > 0 {
        FoundInX(xs, ys, shift, i);
        return true;
      }
      i := i + 1;
    }
    i := x.Length - 1 + shift;
    while i < y.Length
      invariant x.Length - 1 + shift <= i
      invariant forall j :: x.Length - 1 + shift <= j < i && j < y.Length ==> y[j] == 0
    {
      if y[i] > 0 {
        FoundInY(xs, ys, shift, i);
        return false;
      }
      i := i + 1;
    }
    if shift >= y.Length {
      PastEnd(xs, ys, shift);
      return false;
    }
    NotMisjudged(xs, ys, shift);
    g := CompareColumns(x, y, shift, k);
  }

  /** The last loop of greaterShift: the columns that both numbers have, from the top. */
  method CompareColumns(x: array<int>, y: array<int>, shift: nat, k: nat) returns (g: bool)
    requires AreDigits(x[..]) && AreDigits(y[..]) && x.Length > 0 && shift < y.Length
    requires k == if x.Length + shift < y.Length then x.Length + shift else y.Length
    requires forall j :: y.Length - 1 - shift <= j < x.Length ==> x[j] == 0
    requires forall j :: x.Length - 1 + shift <= j < y.Length ==> y[j] == 0
    ensures g <==> Above(x[..], y[..], shift)
  {
    hide Num, Weight, Raised;
    ghost var xs, ys := x[..], y[..];
    ghost var s := Raised(xs, shift);
    RaisedValue(xs, shift);
    NumZeros(s, k, |s|);
    NumZeros(ys, k, |ys|);
    var i := k - 1;
    while i >= shift
      invariant shift - 1 <= i < k || i == k - 1
      invariant forall j :: i < j < k && shift <= j ==> s[j] == ys[j]
    {
      if x[i - shift] > y[i] {
        HigherDigit(s, ys, i);
        NumTail(s, ys, i + 1, k);
        return true;
      } else if x[i - shift] < y[i] {
        HigherDigit(ys, s, i);
        NumTail(s, ys, i + 1, k);
        return false;
      }
      i := i - 1;
    }
    EqualAbove(s, ys, shift, k);
    return false;
  }

  lemma EqualAbove(s: seq<int>, t: seq<int>, shift: nat, k: nat)
    requires AreDigits(s) && AreDigits(t) && Num(s, shift) == 0
    requires forall j :: shift <= j < k ==> Digit(s, j) == Digit(t, j)
    ensures Num(s, k) <= Num(t, k)
  {
    NumBounds(t, shift);
    NumBounds(t, k);
    if shift <= k {
      NumTail(s, t, shift, k);
    } else {
      NumBounds(s, k);
      NumGrows(s, k, shift);
    }
  }

  /** One digit against another: greaterShift([1, 0], [5], 0) finds 1 above 5. */
  lemma SmallerFoundGreater()
    ensures Misjudged([1, 0], [5], 0) && !Above([1, 0], [5], 0)
  {
    var xs, ys := [1, 0], [5];
    OneDigitValue(xs);
    OneDigitValue(ys);
    assert HighestAt(xs, 0);
    assert Weight(0) == 1;
  }

  lemma OneDigitValue(s: seq<int>)
    requires |s| > 0 && forall j :: 1 <= j < |s| ==> s[j] == 0
    ensures Value(s) == s[0]
  {
    NumZeros(s, 1, |s|);
    assert Num(s, 1) == Num(s, 0) + Digit(s, 0) * Weight(0);
  }
}
