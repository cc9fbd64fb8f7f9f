/**
 * The arithmetic of divide_ of src/webclient/BigInt.js (algorithm 14.20 of the
 * Handbook of Applied Cryptography) on numbers: what each step of the long
 * division leaves, and when that is the remainder.
 */
module BigIntQuotient {
  import opened Digits
  import opened BigInt

  // ------------------------------------------------------------------ digits

  /** Digit `i` of a number. */
  function Place(v: int, i: nat): int {
    v / Weight(i) % 32768
  }

  /** The number of digits of a number. */
  function Size(v: int): nat
    decreases v
  {
    if v <= 0 then 0 else Size(v / 32768) + 1
  }

  lemma PlaceNext(v: int, k: nat)
    ensures v % Weight(k + 1) == v % Weight(k) + Place(v, k) * Weight(k) && 0 <= Place(v, k) < 32768
  {
    hide Weight;
    var w, q := Weight(k), v / Weight(k);
    WeightNext(k);
    assert v == w * q + v % w && q == 32768 * (q / 32768) + q % 32768;
    Distribute(w, 32768 * (q / 32768), q % 32768);
    Associate(w, 32768, q / 32768);
    TimesMonotone(q % 32768, 32767, w);
    TimesMonotone(0, q % 32768, w);
    DivisionUnique(v, 32768 * w, q / 32768, v % w + q % 32768 * w);
  }

  lemma PlaceIs(s: seq<int>, i: nat)
    requires AreDigits(s) && i < |s|
    ensures Place(Value(s), i) == s[i]
  {
    hide Weight, Num, Place;
    NumMod(s, i, |s|);
    NumMod(s, i + 1, |s|);
    PlaceNext(Value(s), i);
    NumNext(s, i);
    SameFactor(Place(Value(s), i), s[i], Weight(i));
  }

  lemma SameFactor(a: int, b: int, w: int)
    requires w > 0 && a * w == b * w
    ensures a == b
  {
    Distribute(w, a, b);
    Gap(w, a - b);
  }

  lemma {:induction false} SizeIs(v: int, k: nat)
    requires 0 <= v < Weight(k) && (k > 0 ==> Weight(k - 1) <= v)
    ensures Size(v) == k
    decreases k
  {
    if k > 1 {
      WeightNext(k - 2);
      WeightNext(k - 1);
      SizeIs(v / 32768, k - 1);
    }
  }

  // ----------------------------------------------------------- the estimate

  /** The leading digits of the divisor. */
  function Lead2(v: int, k: nat): int
    requires k >= 1
  {
    Place(v, k - 1) * 32768 + if k > 1 then Place(v, k - 2) else 0
  }

  /** The digits of the remainder that the estimate looks at. */
  function Lead3(v: int, i: nat): int
    requires i >= 1
  {
    (Place(v, i) * 32768 + Place(v, i - 1)) * 32768 + if i > 1 then Place(v, i - 2) else 0
  }

  /** Two digits over one, or the largest digit. */
  function FirstGuess(r: int, i: nat, y1: int): int
    requires i >= 1
  {
    if y1 <= 0 || Place(r, i) == y1 then 32767 else (Place(r, i) * 32768 + Place(r, i - 1)) / y1
  }

  /** The guess lowered until three digits bear it out. */
  function Guess(r: int, i: nat, y: int, ky: nat): int
    requires i >= 1 && ky >= 1
  {
    var q, t, d := FirstGuess(r, i, Place(y, ky - 1)), Lead3(r, i), Lead2(y, ky);
    if d <= 0 || q * d <= t then q else t / d
  }

  /** A divisor of `ky` digits with its highest bit set. */
  ghost predicate Normal(y: int, ky: nat) {
    ky >= 1 && 16384 * Weight(ky - 1) <= y < Weight(ky)
  }

  lemma NormalTop(y: int, ky: nat)
    requires Normal(y, ky)
    ensures 16384 <= Place(y, ky - 1) < 32768 && Lead2(y, ky) >= 16384 * 32768 && y > 0
  {
    hide Weight, Place;
    PlaceNext(y, ky - 1);
    SmallMod(y, Weight(ky));
    DivisionRest(y, Weight(ky - 1));
    Distribute(Weight(ky - 1), Place(y, ky - 1), 1);
    Below(16384, Place(y, ky - 1) + 1, Weight(ky - 1));
    if ky > 1 {
      PlaceNext(y, ky - 2);
    }
  }

  lemma DivisionRest(v: int, w: int)
    requires w > 0
    ensures 0 <= v % w < w
  {
  }

  lemma Split2(v: int, k: nat) returns (rest: int)
    requires 1 <= k
    ensures 32768 * (v % Weight(k)) == Lead2(v, k) * Weight(k - 1) + rest && 0 <= rest < Weight(k - 1)
  {
    hide Weight, Place;
    PlaceNext(v, k - 1);
    var d, w := Place(v, k - 1), Weight(k - 1);
    if k > 1 {
      PlaceNext(v, k - 2);
      WeightNext(k - 2);
      DivisionRest(v, Weight(k - 2));
      rest := 32768 * (v % Weight(k - 2));
      Distribute(w, d * 32768, Place(v, k - 2));
      Associate(Place(v, k - 2), 32768, Weight(k - 2));
    } else {
      ModOne(v);
      rest := 0;
    }
    Associate(d, 32768, w);
  }

  lemma ModOne(v: int)
    ensures Weight(0) == 1 && v % Weight(0) == 0
  {
  }

  lemma Split3(v: int, i: nat) returns (rest: int)
    requires 1 <= i
    ensures 32768 * (v % Weight(i + 1)) == Lead3(v, i) * Weight(i - 1) + rest && 0 <= rest < Weight(i - 1)
  {
    hide Weight, Place, Lead2, Lead3;
    rest := Split2(v, i);
    LeadNext(v, i);
    PlaceNext(v, i);
    WeightNext(i - 1);
    LeadSum(v % Weight(i), Place(v, i), Weight(i - 1), Lead2(v, i), rest);
  }

  lemma LeadNext(v: int, i: nat)
    requires i >= 1
    ensures Lead3(v, i) == Place(v, i) * 0x4000_0000 + Lead2(v, i)
  {
    hide Place;
  }

  lemma LeadSum(low: int, d: int, w: int, l2: int, rest: int)
    requires 32768 * low == l2 * w + rest
    ensures 32768 * (low + d * (32768 * w)) == (d * 0x4000_0000 + l2) * w + rest
  {
    Distribute(w, d * 0x4000_0000, l2);
    Associate(d, 0x4000_0000, w);
    Associate(d, 32768, w);
  }

  /** A digit that is not too large passes the test on the leading digits. */
  lemma PassesTest(q: int, u: int, v: int, t3: int, d2: int, b: int, ru: int, rv: int)
    requires u == t3 * b + ru && v == d2 * b + rv && 0 <= ru < b && 0 <= rv && 0 <= q && q * v <= u
    ensures q * d2 <= t3
  {
    TimesMonotone(0, rv, q);
    Distribute(q, d2 * b, rv);
    Associate(q, d2, b);
    Distribute(b, t3, 1);
    Below(q * d2, t3 + 1, b);
  }

  /** A digit that passes the test is at most one too large. */
  lemma AtMostOneOver(q: int, u: int, v: int, t3: int, d2: int, b: int, ru: int, rv: int)
    requires u == t3 * b + ru && v == d2 * b + rv && 0 <= ru < b && 0 <= rv < b
    requires 0 <= q < 65536 && q * d2 <= t3 && d2 >= 16384 * 32768
    ensures q * v < u + v
  {
    Distribute(q, d2 * b, rv);
    Associate(q, d2, b);
    TimesMonotone(q * d2, t3, b);
    TimesMonotone(q, 65535, rv);
    TimesMonotone(16384 * 32768, d2, b);
  }

  /** The divisor raised to the column of digit `i`. */
  function Raise(y: int, ky: nat, i: nat): int
    requires ky <= i
  {
    y * Weight(i - ky)
  }

  lemma RaiseSplit(y: int, d2: int, w: int, ry: int, we: int)
    requires 32768 * y == d2 * w + ry && 0 <= ry < w && we > 0
    ensures 32768 * (y * we) == d2 * (w * we) + ry * we && 0 <= ry * we < w * we
  {
    Associate(32768, y, we);
    Distribute(we, d2 * w, ry);
    Associate(d2, w, we);
    TimesMonotone(0, ry, we);
    TimesMonotone(ry, w - 1, we);
    Distribute(we, w, 1);
  }

  lemma RaiseBounds(y: int, ky: nat, i: nat)
    requires Normal(y, ky) && ky <= i
    ensures 0 < Raise(y, ky, i) < Weight(i) && 16384 * Weight(i - 1) <= Raise(y, ky, i)
    ensures Raise(y, ky, i + 1) == 32768 * Raise(y, ky, i)
  {
    hide Weight;
    var e := i - ky;
    Strict(y, Weight(ky), Weight(e));
    WeightAdd(ky, e);
    WeightAdd(ky - 1, e);
    TimesMonotone(16384 * Weight(ky - 1), y, Weight(e));
    Associate(16384, Weight(ky - 1), Weight(e));
    WeightNext(e);
    Associate(y, 32768, Weight(e));
  }

  /** Remainder and divisor, raised and scaled by one digit, split at their leading digits. */
  lemma Scaled(r: int, i: nat, y: int, ky: nat) returns (ru: int, rv: int)
    requires Normal(y, ky) && ky <= i && 0 <= r < Weight(i + 1)
    ensures 32768 * r == Lead3(r, i) * Weight(i - 1) + ru && 0 <= ru < Weight(i - 1)
    ensures 32768 * Raise(y, ky, i) == Lead2(y, ky) * Weight(i - 1) + rv && 0 <= rv < Weight(i - 1)
  {
    hide Weight, Lead2, Lead3;
    ru := Split3(r, i);
    SmallMod(r, Weight(i + 1));
    var ry := Split2(y, ky);
    SmallMod(y, Weight(ky));
    var e := i - ky;
    rv := ry * Weight(e);
    WeightAdd(ky - 1, e);
    RaiseSplit(y, Lead2(y, ky), Weight(ky - 1), ry, Weight(e));
  }

  /** The true digit passes the test. */
  lemma TrueDigit(r: int, i: nat, y: int, ky: nat)
    requires Normal(y, ky) && ky <= i && 0 <= r < Weight(i + 1)
    ensures Raise(y, ky, i) > 0 && 0 <= r / Raise(y, ky, i)
    ensures r / Raise(y, ky, i) * Lead2(y, ky) <= Lead3(r, i)
    ensures r < Raise(y, ky, i + 1) ==> r / Raise(y, ky, i) < 32768
  {
    hide Weight, Lead2, Lead3, Raise;
    var ru, rv := Scaled(r, i, y, ky);
    RaiseBounds(y, ky, i);
    var d := Raise(y, ky, i);
    var t := r / d;
    assert r == d * t + r % d;
    Gap(d, t);
    Associate(32768, d, t);
    PassesTest(t, 32768 * r, 32768 * d, Lead3(r, i), Lead2(y, ky), Weight(i - 1), ru, rv);
    if r < 32768 * d {
      QuotientBelow(r, 32768, d);
    }
  }

  /** A digit that passes the test is the true digit or one more. */
  lemma PassedDigit(r: int, i: nat, y: int, ky: nat, q: int)
    requires Normal(y, ky) && ky <= i && 0 <= r < Weight(i + 1) && 0 <= q < 65536 && q * Lead2(y, ky) <= Lead3(r, i)
    ensures q * Raise(y, ky, i) < r + Raise(y, ky, i)
  {
    NormalTop(y, ky);
    hide Weight, Lead2, Lead3, Raise, Normal, Place;
    var ru, rv := Scaled(r, i, y, ky);
    var d := Raise(y, ky, i);
    AtMostOneOver(q, 32768 * r, 32768 * d, Lead3(r, i), Lead2(y, ky), Weight(i - 1), ru, rv);
    Associate(q, 32768, d);
  }

  /** The first estimate, two digits over one, is not below the true digit. */
  lemma FirstEstimate(t: int, ri: int, r1: int, r2: int, y1: int, y2: int)
    requires 0 <= t && 0 <= y2 && 0 < y1 && 0 <= r2 < 32768
    requires t * (y1 * 32768 + y2) <= (ri * 32768 + r1) * 32768 + r2
    ensures t <= (ri * 32768 + r1) / y1
  {
    TimesMonotone(0, y2, t);
    Distribute(t, y1 * 32768, y2);
    Associate(t, y1, 32768);
    assert t * y1 <= ri * 32768 + r1;
    var a := ri * 32768 + r1;
    assert a == y1 * (a / y1) + a % y1;
    Distribute(y1, t, a / y1);
    Gap(y1, t - a / y1);
  }

  lemma Places(v: int, i: nat)
    requires i >= 1
    ensures 0 <= Place(v, i) < 32768 && 0 <= Place(v, i - 1) < 32768 && (i > 1 ==> 0 <= Place(v, i - 2) < 32768)
  {
    hide Place, Weight;
    PlaceNext(v, i);
    PlaceNext(v, i - 1);
    if i > 1 {
      PlaceNext(v, i - 2);
    }
  }

  lemma GuessBound(r: int, i: nat, y: int, ky: nat)
    requires i >= 1 && Normal(y, ky)
    ensures Place(y, ky - 1) > 0 && 0 <= FirstGuess(r, i, Place(y, ky - 1)) < 65536
    ensures 0 <= Guess(r, i, y, ky) <= FirstGuess(r, i, Place(y, ky - 1))
    ensures Guess(r, i, y, ky) * Lead2(y, ky) <= Lead3(r, i)
  {
    NormalTop(y, ky);
    Places(r, i);
    hide Place, Weight, Lead2, Normal;
    var y1, a := Place(y, ky - 1), Place(r, i) * 32768 + Place(r, i - 1);
    TimesMonotone(16384, y1, 65536);
    QuotientBelow(a, 65536, y1);
    var q, t, d := FirstGuess(r, i, y1), Lead3(r, i), Lead2(y, ky);
    assert t >= 0;
    hide Lead3, FirstGuess;
    if q * d > t {
      LoweredGuess(q, t, d);
    }
  }

  lemma LoweredGuess(q: int, t: int, d: int)
    requires d > 0 && 0 <= t < q * d
    ensures 0 <= t / d <= q && t / d * d <= t
  {
    QuotientBelow(t, q, d);
    assert t == d * (t / d) + t % d;
  }

  /**
   * The guess is the true digit or one more, unless it is held at the largest
   * digit and the remainder is larger than that allows.
   */
  lemma GuessGood(r: int, i: nat, y: int, ky: nat)
    requires Normal(y, ky) && ky <= i && 0 <= r < Weight(i + 1) && Place(y, ky - 1) > 0
    requires r < Raise(y, ky, i + 1) || Place(r, i) != Place(y, ky - 1)
    ensures Raise(y, ky, i) > 0
    ensures var q, d := Guess(r, i, y, ky), Raise(y, ky, i); 0 <= q < 65536 && r / d <= q && q * d < r + d
  {
    GuessBound(r, i, y, ky);
    TrueDigit(r, i, y, ky);
    PassedDigit(r, i, y, ky, Guess(r, i, y, ky));
    NormalTop(y, ky);
    Places(r, i);
    FirstAbove(r, i, y, ky);
    hide Weight, Place, Normal, Raise;
    var t, q := r / Raise(y, ky, i), FirstGuess(r, i, Place(y, ky - 1));
    var l3, l2 := Lead3(r, i), Lead2(y, ky);
    assert t <= q;
    hide FirstGuess, Lead2, Lead3;
    if q * l2 > l3 {
      NotBelow(t, l3, l2);
    }
  }

  lemma NotBelow(t: int, a: int, b: int)
    requires b > 0 && t * b <= a
    ensures t <= a / b
  {
    assert a == b * (a / b) + a % b;
    Distribute(b, t, a / b);
    Gap(b, t - a / b);
  }

  lemma FirstAbove(r: int, i: nat, y: int, ky: nat)
    requires Normal(y, ky) && ky <= i && 0 <= r < Weight(i + 1) && Place(y, ky - 1) > 0
    requires r < Raise(y, ky, i + 1) || Place(r, i) != Place(y, ky - 1)
    ensures Raise(y, ky, i) > 0 && r / Raise(y, ky, i) <= FirstGuess(r, i, Place(y, ky - 1))
  {
    TrueDigit(r, i, y, ky);
    Places(r, i);
    if ky > 1 {
      PlaceNext(y, ky - 2);
    }
    hide Weight, Place, Raise, Normal;
    if Place(r, i) != Place(y, ky - 1) {
      FirstEstimate(r / Raise(y, ky, i), Place(r, i), Place(r, i - 1), if i > 1 then Place(r, i - 2) else 0,
        Place(y, ky - 1), if ky > 1 then Place(y, ky - 2) else 0);
    }
  }

  // -------------------------------------------------------------- the steps

  /**
   * The remainder after one quotient digit: the multiple taken away in the width
   * of the array, one added back when the sign bit is set.
   */
  function Step(r: int, i: nat, y: int, ky: nat, len: nat): int
    requires 1 <= ky <= i < len
  {
    var d := Raise(y, ky, i);
    var v := (r - Guess(r, i, y, ky) * d) % Weight(len);
    if v >= 16384 * Weight(len - 1) then (v + d) % Weight(len) else v
  }

  /** What is left when the digits below `k` are done. */
  function Remains(r: int, k: nat, y: int, ky: nat, len: nat): int
    requires 1 <= ky && k <= len
    decreases k
  {
    if k <= ky then r else Remains(Step(r, k - 1, y, ky, len), k - 1, y, ky, len)
  }

  /** Subtracting a digit's multiple, and adding one back when the sign says so. */
  lemma SignedRemainder(r: int, d: int, q: int, m: int, half: int)
    requires d > 0 && r >= 0 && r / d <= q && q * d < r + d && d < half && 2 * half <= m
    ensures -d < r - q * d < d
    ensures (r - q * d) % m == if r - q * d >= 0 then r - q * d else r - q * d + m
    ensures ((r - q * d) % m + d) % m == r - q * d + d
    ensures r - q * d >= 0 ==> (r - q * d) % m < half
    ensures r - q * d < 0 ==> (r - q * d) % m > m - half && q > 0
  {
    var v := r - q * d;
    assert r == d * (r / d) + r % d;
    TimesMonotone(r / d, q, d);
    if v >= 0 {
      SmallMod(v, m);
      SmallMod(v + d, m);
    } else {
      DivisionUnique(v, m, -1, v + m);
      DivisionUnique(v + m + d, m, 1, v + d);
      Gap(d, q);
    }
  }

  /** A quotient digit that is the true one or one more is corrected to the true one. */
  lemma Corrected(r: int, d: int, q: int, m: int, half: int)
    requires d > 0 && r >= 0 && r / d <= q && q * d < r + d && d < half && m == 32768 * half
    ensures var v := (r - q * d) % m;
      if v >= 16384 * half then (v + d) % m == r % d && q - 1 == r / d else v == r % d && q == r / d
  {
    SignedRemainder(r, d, q, m, half);
    var v := r - q * d;
    Distribute(d, q, 1);
    if v >= 0 {
      DivisionUnique(r, d, q, v);
    } else {
      DivisionUnique(r, d, q - 1, v + d);
    }
  }

  /** The quotient digit that is kept. */
  function Chosen(r: int, i: nat, y: int, ky: nat, len: nat): int
    requires 1 <= ky <= i < len
  {
    var q := Guess(r, i, y, ky);
    if (r - q * Raise(y, ky, i)) % Weight(len) >= 16384 * Weight(len - 1) then q - 1 else q
  }

  /** The guess at digit `i` is held at the largest digit although the remainder is larger than that allows. */
  ghost predicate Held(r: int, i: nat, y: int, ky: nat)
    requires 1 <= ky <= i
  {
    r >= Raise(y, ky, i + 1) && Place(r, i) == Place(y, ky - 1)
  }

  /** One step is right unless its guess is held. */
  lemma StepExact(r: int, i: nat, y: int, ky: nat, len: nat)
    requires Normal(y, ky) && ky <= i < len && 0 <= r < Weight(i + 1) && !Held(r, i, y, ky)
    ensures var d := Raise(y, ky, i); d > 0 && Step(r, i, y, ky, len) == r % d && Chosen(r, i, y, ky, len) == r / d
  {
    NormalTop(y, ky);
    GuessGood(r, i, y, ky);
    RaiseBounds(y, ky, i);
    hide Weight, Place, Normal, Raise, Guess, Held;
    WeightMonotone(i, len - 1);
    WeightNext(len - 1);
    Corrected(r, Raise(y, ky, i), Guess(r, i, y, ky), Weight(len), Weight(len - 1));
  }

  lemma ModOfMultiple(r: int, y: int, w: int)
    requires y > 0 && w > 0
    ensures y * w > 0 && r % (y * w) % y == r % y
  {
    Strict(0, y, w);
    var d := y * w;
    assert r == d * (r / d) + r % d;
    Associate(y, w, r / d);
    ModShift(r % d, w * (r / d), y);
  }

  /** Below the raised divisor, long division leaves the remainder. */
  lemma {:induction false} RemainsExact(r: int, k: nat, y: int, ky: nat, len: nat)
    requires Normal(y, ky) && ky <= k <= len && 0 <= r < Raise(y, ky, k)
    ensures y > 0 && Remains(r, k, y, ky, len) == r % y
    decreases k
  {
    NormalTop(y, ky);
    hide Place, Normal, Step, Weight;
    if k == ky {
      assert Raise(y, ky, k) == y * Weight(0);
      ModOne(0);
      SmallMod(r, y);
    } else {
      BelowNext(r, k - 1, y, ky);
      StepExact(r, k - 1, y, ky, len);
      ModOfMultiple(r, y, Weight(k - 1 - ky));
      RemainsExact(r % Raise(y, ky, k - 1), k - 1, y, ky, len);
    }
  }

  lemma BelowNext(r: int, i: nat, y: int, ky: nat)
    requires Normal(y, ky) && ky <= i && r < Raise(y, ky, i + 1)
    ensures r < Weight(i + 1) && !Held(r, i, y, ky) && Raise(y, ky, i) > 0
  {
    RaiseBounds(y, ky, i);
    hide Weight;
    WeightNext(i);
  }

  /** What divide_ leaves of the shifted dividend in an array of `len` digits. */
  function DivRemainder(r: int, y: int, ky: nat, len: nat): int
    requires 1 <= ky <= len && y > 0
  {
    if r < Weight(len - 1) then r % y else Remains(r, len, y, ky, len)
  }

  /** Multiples of the divisor taken away beforehand make no difference. */
  lemma DivEnd(r0: int, r1: int, m: int, y: int, ky: nat, kx: nat, len: nat)
    requires Normal(y, ky) && ky <= kx <= len
    requires if r0 >= Weight(len - 1) then kx == len && r1 == r0 else m * y + r1 == r0 && 0 <= r1 < Raise(y, ky, kx)
    ensures y > 0 && Remains(r1, kx, y, ky, len) == DivRemainder(r0, y, ky, len)
  {
    NormalTop(y, ky);
    hide Weight, Normal, Remains, Place, Raise;
    if r0 < Weight(len - 1) {
      RemainsExact(r1, kx, y, ky, len);
      ModShift(r1, m, y);
    }
  }

  /** A dividend that fills the array, too large for the divisor, with the same top digit. */
  ghost predicate Capped(r: int, y: int, ky: nat, len: nat)
    requires 1 <= ky <= len
  {
    r >= Raise(y, ky, len) && (len == ky || Place(r, len - 1) == Place(y, ky - 1))
  }

  /** Every other dividend leaves its remainder. */
  lemma DivRemainderExact(r: int, y: int, ky: nat, len: nat)
    requires Normal(y, ky) && ky <= len && 0 <= r < Weight(len) && !Capped(r, y, ky, len)
    ensures y > 0 && DivRemainder(r, y, ky, len) == r % y
  {
    NormalTop(y, ky);
    hide Place, Weight, Normal, Step;
    if r >= Weight(len - 1) {
      if r < Raise(y, ky, len) {
        RemainsExact(r, len, y, ky, len);
      } else {
        StepExact(r, len - 1, y, ky, len);
        ModOfMultiple(r, y, Weight(len - 1 - ky));
        RemainsExact(r % Raise(y, ky, len - 1), len - 1, y, ky, len);
      }
    }
  }

  // --------------------------------------------------------- nothing is lost

  /** The digits taken from `k` down, as one number. */
  function QuotientOf(r: int, k: nat, y: int, ky: nat, len: nat): int
    requires 1 <= ky && k <= len
    decreases k
  {
    if k <= ky then 0
    else Chosen(r, k - 1, y, ky, len) * Weight(k - 1 - ky) + QuotientOf(Step(r, k - 1, y, ky, len), k - 1, y, ky, len)
  }

  /** The estimate at digit `i` does not see the digits above. */
  lemma PlaceView(r: int, i: nat, j: nat)
    requires j <= i
    ensures Place(r % Weight(i + 1), j) == Place(r, j)
  {
    hide Weight, Place;
    var v := r % Weight(i + 1);
    WeightAdd(j + 1, i - j);
    ModOfMultiple(r, Weight(j + 1), Weight(i - j));
    WeightAdd(j, i + 1 - j);
    ModOfMultiple(r, Weight(j), Weight(i + 1 - j));
    PlaceNext(r, j);
    PlaceNext(v, j);
    SameFactor(Place(v, j), Place(r, j), Weight(j));
  }

  lemma GuessView(r: int, i: nat, y: int, ky: nat)
    requires i >= 1 && ky >= 1
    ensures Guess(r % Weight(i + 1), i, y, ky) == Guess(r, i, y, ky)
  {
    hide Weight, Place;
    PlaceView(r, i, i);
    PlaceView(r, i, i - 1);
    if i > 1 {
      PlaceView(r, i, i - 2);
    }
  }

  /** Whatever lies above digit `i`, the guess is at most one too large for the whole remainder. */
  lemma GuessWithin(r: int, i: nat, y: int, ky: nat)
    requires Normal(y, ky) && ky <= i && 0 <= r
    ensures 0 <= Guess(r, i, y, ky) < 65536 && Guess(r, i, y, ky) * Raise(y, ky, i) < r + Raise(y, ky, i)
  {
    assert ky >= 1;
    hide Weight, Place, Normal, Raise, Guess, Lead2, Lead3;
    var w := Weight(i + 1);
    var v := r % w;
    DivisionRest(r, w);
    assert r == w * (r / w) + v;
    Gap(w, r / w);
    GuessView(r, i, y, ky);
    GuessBound(v, i, y, ky);
    PassedDigit(v, i, y, ky, Guess(v, i, y, ky));
  }

  /** A held guess leaves less than two units of the top digit. */
  lemma HeldLeaves(r: int, y: int, ky: nat, len: nat)
    requires Normal(y, ky) && ky < len && 0 <= r < Weight(len) && Held(r, len - 1, y, ky)
    ensures Guess(r, len - 1, y, ky) == 32767
    ensures 0 <= r - 32767 * Raise(y, ky, len - 1) < 2 * Weight(len - 1)
  {
    var i := len - 1;
    assert r >= Raise(y, ky, len) && Place(r, i) == Place(y, ky - 1);
    RaiseBounds(y, ky, i);
    HeldGuess(r, i, y, ky);
    hide Weight, Place, Normal, Raise, Guess, Held;
    TopBelow(r, i);
    TopAbove(y, ky, i);
    HeldBound(r, Raise(y, ky, i), Place(r, i), Weight(i));
  }

  lemma HeldBound(r: int, d: int, a: int, w: int)
    requires 32768 * d <= r < (a + 1) * w && a * w <= 32768 * d && 0 < d < w
    ensures 0 <= r - 32767 * d < 2 * w
  {
    Distribute(w, a, 1);
  }

  lemma HeldGuess(r: int, i: nat, y: int, ky: nat)
    requires Normal(y, ky) && ky <= i && 0 <= r < Weight(i + 1) && Held(r, i, y, ky)
    ensures Guess(r, i, y, ky) == 32767
  {
    hide Weight, Place, Normal, Lead2, Lead3;
    NormalTop(y, ky);
    TrueDigit(r, i, y, ky);
    RaiseBounds(y, ky, i);
    var d := Raise(y, ky, i);
    hide Raise;
    NotBelow(32768, r, d);
    TimesMonotone(32767, r / d, Lead2(y, ky));
  }

  lemma TopBelow(r: int, i: nat)
    requires 0 <= r < Weight(i + 1)
    ensures r < (Place(r, i) + 1) * Weight(i)
  {
    hide Weight, Place;
    PlaceNext(r, i);
    SmallMod(r, Weight(i + 1));
    DivisionRest(r, Weight(i));
    Distribute(Weight(i), Place(r, i), 1);
  }

  lemma TopAbove(y: int, ky: nat, i: nat)
    requires Normal(y, ky) && ky <= i
    ensures Place(y, ky - 1) * Weight(i) <= Raise(y, ky, i + 1)
  {
    hide Weight, Place;
    PlaceNext(y, ky - 1);
    SmallMod(y, Weight(ky));
    DivisionRest(y, Weight(ky - 1));
    var e := i + 1 - ky;
    TimesMonotone(Place(y, ky - 1) * Weight(ky - 1), y, Weight(e));
    Associate(Place(y, ky - 1), Weight(ky - 1), Weight(e));
    WeightAdd(ky - 1, e);
  }

  /** What a turn of the main loop may start from: two units of the top digit, or anything at the top digit. */
  ghost predicate Within(r: int, k: nat, len: nat)
    requires len >= 1
  {
    0 <= r && (r < 2 * Weight(len - 1) || (k == len && r < Weight(len)))
  }

  /** No step wraps: it takes away the digit that it keeps times the raised divisor, and no more. */
  lemma StepSafe(r: int, i: nat, y: int, ky: nat, len: nat)
    requires Normal(y, ky) && ky <= i < len && Within(r, i + 1, len)
    ensures Step(r, i, y, ky, len) == r - Chosen(r, i, y, ky, len) * Raise(y, ky, i)
    ensures 0 <= Step(r, i, y, ky, len) < 2 * Weight(len - 1)
  {
    var d, q, m, half := Raise(y, ky, i), Guess(r, i, y, ky), Weight(len), Weight(len - 1);
    assert ky >= 1;
    hide Weight, Place, Normal, Raise, Guess, Held, Step, Chosen;
    RaiseBounds(y, ky, i);
    WeightMonotone(i, len - 1);
    WeightNext(len - 1);
    GuessWithin(r, i, y, ky);
    var v := (r - q * d) % m;
    StepParts(r, i, y, ky, len, v);
    if r < 2 * half {
      StepCore(r, d, q, m, half, v, Step(r, i, y, ky, len), Chosen(r, i, y, ky, len));
    } else if Held(r, i, y, ky) {
      HeldLeaves(r, y, ky, len);
      HeldCore(r, d, q, m, half, v, Step(r, i, y, ky, len), Chosen(r, i, y, ky, len));
    } else {
      StepExact(r, i, y, ky, len);
      ExactCore(r, d, Step(r, i, y, ky, len), Chosen(r, i, y, ky, len));
    }
  }

  lemma StepCore(r: int, d: int, q: int, m: int, half: int, v: int, step: int, chosen: int)
    requires 0 <= r < 2 * half && 0 <= q && q * d < r + d && 0 < d < half && m == 32768 * half && v == (r - q * d) % m
    requires v >= 16384 * half ==> step == (v + d) % m && chosen == q - 1
    requires v < 16384 * half ==> step == v && chosen == q
    ensures step == r - chosen * d && 0 <= step < 2 * half
  {
    NoWrap(r, d, q, m, half);
  }

  lemma HeldCore(r: int, d: int, q: int, m: int, half: int, v: int, step: int, chosen: int)
    requires half > 0 && m == 32768 * half && q == 32767 && 0 <= r - 32767 * d < 2 * half && v == (r - q * d) % m
    requires v < 16384 * half ==> step == v && chosen == q
    ensures step == r - chosen * d && 0 <= step < 2 * half
  {
    SmallMod(r - q * d, m);
  }

  lemma ExactCore(r: int, d: int, step: int, chosen: int)
    requires d > 0 && step == r % d && chosen == r / d
    ensures step == r - chosen * d && 0 <= step < d
  {
  }

  lemma StepParts(r: int, i: nat, y: int, ky: nat, len: nat, v: int)
    requires 1 <= ky <= i < len && v == (r - Guess(r, i, y, ky) * Raise(y, ky, i)) % Weight(len)
    ensures v >= 16384 * Weight(len - 1) ==>
      Step(r, i, y, ky, len) == (v + Raise(y, ky, i)) % Weight(len) &&
      Chosen(r, i, y, ky, len) == Guess(r, i, y, ky) - 1
    ensures v < 16384 * Weight(len - 1) ==>
      Step(r, i, y, ky, len) == v && Chosen(r, i, y, ky, len) == Guess(r, i, y, ky)
  {
    hide Guess, Raise, Weight;
  }

  lemma NoWrap(r: int, d: int, q: int, m: int, half: int)
    requires 0 <= r < 2 * half && 0 <= q && q * d < r + d && 0 < d < half && m == 32768 * half
    ensures var v := (r - q * d) % m;
      if v >= 16384 * half then (v + d) % m == r - (q - 1) * d && 0 <= r - (q - 1) * d < 2 * half
      else v == r - q * d && 0 <= v < 2 * half
  {
    var v := r - q * d;
    TimesMonotone(0, q, d);
    Distribute(d, q, 1);
    if v >= 0 {
      SmallMod(v, m);
    } else {
      DivisionUnique(v, m, -1, v + m);
      DivisionUnique(v + m + d, m, 1, v + d);
    }
  }

  /** The quotient digits and what remains make up the dividend, for every dividend. */
  lemma {:induction false} RemainsSafe(r: int, k: nat, y: int, ky: nat, len: nat)
    requires Normal(y, ky) && ky <= k <= len && Within(r, k, len)
    ensures QuotientOf(r, k, y, ky, len) * y + Remains(r, k, y, ky, len) == r && 0 <= Remains(r, k, y, ky, len)
    decreases k
  {
    assert ky >= 1;
    hide Weight, Place, Normal, Step, Chosen;
    if k > ky {
      StepSafe(r, k - 1, y, ky, len);
      var c, w, r' := Chosen(r, k - 1, y, ky, len), Weight(k - 1 - ky), Step(r, k - 1, y, ky, len);
      RemainsSafe(r', k - 1, y, ky, len);
      QuotientNext(r, k, y, ky, len);
      hide QuotientOf, Remains;
      Telescope(r, r', c, w, y, QuotientOf(r', k - 1, y, ky, len), Remains(r', k - 1, y, ky, len));
    }
  }

  lemma QuotientNext(r: int, k: nat, y: int, ky: nat, len: nat)
    requires 1 <= ky < k <= len
    ensures var r' := Step(r, k - 1, y, ky, len);
      Remains(r, k, y, ky, len) == Remains(r', k - 1, y, ky, len) &&
      QuotientOf(r, k, y, ky, len) ==
        Chosen(r, k - 1, y, ky, len) * Weight(k - 1 - ky) + QuotientOf(r', k - 1, y, ky, len)
  {
    hide Step, Chosen, Weight;
  }

  lemma Telescope(r: int, r': int, c: int, w: int, y: int, q: int, rest: int)
    requires r' == r - c * (y * w) && q * y + rest == r'
    ensures (c * w + q) * y + rest == r
  {
    Distribute(y, c * w, q);
    Associate(y, c, w);
    Associate(c, y, w);
  }

  /** What divide_ leaves of any dividend is congruent to it. */
  lemma DivRemainderSafe(r: int, y: int, ky: nat, len: nat) returns (q: int)
    requires Normal(y, ky) && ky <= len && 0 <= r < Weight(len)
    ensures y > 0 && DivRemainder(r, y, ky, len) == r + y * q && DivRemainder(r, y, ky, len) >= 0
  {
    NormalTop(y, ky);
    hide Weight, Place, Normal, Remains, QuotientOf, DivRemainder;
    DivRemainderIs(r, y, ky, len);
    if r < Weight(len - 1) {
      q := -(r / y);
      Negated(r, y);
    } else {
      RemainsSafe(r, len, y, ky, len);
      q := -QuotientOf(r, len, y, ky, len);
      TakenBack(r, y, QuotientOf(r, len, y, ky, len), Remains(r, len, y, ky, len));
    }
  }

  lemma DivRemainderIs(r: int, y: int, ky: nat, len: nat)
    requires 1 <= ky <= len && y > 0
    ensures DivRemainder(r, y, ky, len) == if r < Weight(len - 1) then r % y else Remains(r, len, y, ky, len)
  {
    hide Weight, Remains;
  }

  lemma TakenBack(r: int, y: int, m: int, rest: int)
    requires m * y + rest == r
    ensures rest == r + y * -m
  {
    Distribute(y, 0, m);
  }

  lemma Negated(r: int, y: int)
    requires y > 0
    ensures r % y == r + y * -(r / y)
  {
    Distribute(y, 0, r / y);
  }

  // --------------------------------------------------------- normalisation

  /** The power of two that sets the highest bit of a digit. */
  function Scale(top: int): (p: int)
    ensures p >= 1
    decreases 16384 - top
  {
    if 0 < top < 16384 then 2 * Scale(2 * top) else 1
  }

  lemma {:induction false} ScaleIs(top: int, a: nat)
    requires 0 < top && 16384 <= top * Power(2, a) && (top + 1) * Power(2, a) <= 32768
    ensures Power(2, a) == Scale(top)
    decreases a
  {
    hide Power;
    PowerTwoPositive(a);
    if a == 0 {
      assert Power(2, 0) == 1 by { PowerZeroIs(2); }
    } else {
      PowerTwoPositive(a - 1);
      var p := Power(2, a - 1);
      PowerNext(2, a - 1);
      Associate(top, 2, p);
      Associate(top + 1, 2, p);
      TimesMonotone(1, p, top + 1);
      Distribute(p, 2 * top, 1);
      Distribute(p, 2 * top, 2);
      ScaleIs(2 * top, a - 1);
    }
  }

  lemma PowerZeroIs(b: int)
    ensures Power(b, 0) == 1
  {
  }

  lemma PowerNext(b: int, a: nat)
    ensures Power(b, a + 1) == b * Power(b, a)
  {
  }

  /** A digit scaled: between half a radix and a radix; the scale divides the radix. */
  lemma {:induction false} ScaleBounds(top: int) returns (b: nat)
    requires 0 < top < 32768
    ensures 16384 <= top * Scale(top) && (top + 1) * Scale(top) <= 32768 && Scale(top) <= 16384
    ensures b >= 1 && Power(2, b) * Scale(top) == 32768
    decreases 16384 - top
  {
    hide Power;
    if top < 16384 {
      var b' := ScaleBounds(2 * top);
      var p := Scale(2 * top);
      Associate(top, 2, p);
      PowerNext(2, b' - 1);
      PowerTwoPositive(b' - 1);
      ScaleEven(top, p, Power(2, b' - 1));
      b := b' - 1;
      if b == 0 {
        PowerZeroIs(2);
      }
    } else {
      b := 15;
      Power15();
    }
  }

  lemma Power15()
    ensures Power(2, 15) == 32768
  {
    assert Power(2, 5) == 32;
    PowerAdd(2, 5, 5);
    PowerAdd(2, 10, 5);
  }

  lemma ScaleEven(top: int, p: int, h: int)
    requires 0 < top < 16384 && p >= 1 && h >= 1 && 2 * h * p == 32768
    requires (2 * top + 1) * p <= 32768
    ensures (top + 1) * (2 * p) <= 32768 && h * (2 * p) == 32768 && h > 1 && 2 * p <= 16384
  {
    Associate(h, 2, p);
    Below(2 * top, 2 * h, p) by {
      Distribute(p, 2 * top, 1);
    }
    TimesMonotone(top + 1, h, 2 * p);
    if h == 1 {
      assert false;
    }
    TimesMonotone(2, h, 2 * p);
  }
}
