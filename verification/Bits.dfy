/** The binary digits of a number. */
module Bits {
  import opened Basics

  /** Binary digit `k`, counted from the least significant. */
  function Bit(x: nat, k: nat): (b: nat)
    ensures b < 2
  {
    PowerPositive(k);
    x / Pow2(k) % 2
  }

  lemma {:induction false} PowerPositive(k: nat)
    ensures Pow2(k) > 0
  {
    if k > 0 {
      PowerPositive(k - 1);
    }
  }

  lemma LowestBit(x: nat)
    ensures Bit(x, 0) == x % 2
  {
    assert Pow2(0) == 1;
    assert x / 1 == x;
  }

  /** The digits of a number are those of its half, and the lowest. */
  lemma HigherBit(x: nat, k: nat)
    requires k > 0
    ensures Bit(x, k) == Bit(x / 2, k - 1)
  {
    PowerPositive(k - 1);
    Halve(x, Pow2(k - 1));
  }

  lemma Halve(x: nat, p: nat)
    requires p > 0
    ensures x / (2 * p) == x / 2 / p
  {
    var q := x / 2 / p;
    var r := x / 2 - q * p;
    assert x == 2 * (q * p) + (2 * r + x % 2);
    assert 2 * (q * p) == q * (2 * p);
    Quotient(x, 2 * p, q, 2 * r + x % 2);
  }

  lemma Quotient(x: int, d: int, q: int, r: int)
    requires d > 0 && x == q * d + r && 0 <= r < d
    ensures x / d == q && x % d == r
  {
    var e := x / d - q;
    assert (e >= 1 ==> e * d >= d) && (e <= -1 ==> e * d <= -d);
    assert x == (x / d) * d + x % d;
    assert e * d == r - x % d;
  }

  /** Two numbers put together: `low` below position n, `high` from there on. */
  lemma {:induction false} Joined(low: nat, high: nat, n: nat, i: nat)
    requires low < Pow2(n)
    ensures Bit(low + high * Pow2(n), i) == if i < n then Bit(low, i) else Bit(high, i - n)
  {
    var x := low + high * Pow2(n);
    if n == 0 {
      assert x == high;
    } else {
      var p := high * Pow2(n - 1);
      assert high * Pow2(n) == 2 * p;
      if i == 0 {
        LowestBit(x);
        LowestBit(low);
      } else {
        HigherBit(x, i);
        assert x / 2 == low / 2 + p;
        Joined(low / 2, high, n - 1, i - 1);
        if i < n {
          HigherBit(low, i);
        }
      }
    }
  }
}
