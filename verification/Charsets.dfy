/** Character sets of LPeg (lptypes.h and the start of lpcode.c): 256 bits in 32 bytes. */
module Charsets {
  import opened Basics

  /** struct Charset: bit c % 8 of byte c / 8 is set when character c is in the set. */
  type Charset = cs: seq<bv8> | |cs| == 32 witness seq(32, _ => 0)

  /** 1 << k. */
  function Bit(k: nat): bv8
    requires k < 8
  {
    match k
    case 0 => 1
    case 1 => 2
    case 2 => 4
    case 3 => 8
    case 4 => 16
    case 5 => 32
    case 6 => 64
    case 7 => 128
  }

  /** Bit k of a byte. */
  predicate Has(b: bv8, k: nat)
    requires k < 8
  {
    b & Bit(k) != 0
  }

  /** testchar. */
  predicate Contains(cs: Charset, c: Byte) {
    Has(cs[c / 8], c % 8)
  }

  function FullSet(): Charset { seq(32, _ => 0xFF) }

  function EmptySet(): Charset { seq(32, _ => 0) }

  function Or8(x: bv8, y: bv8): bv8 { x | y }

  function And8(x: bv8, y: bv8): bv8 { x & y }

  function Not8(x: bv8): bv8 { !x }

  function Union(a: Charset, b: Charset): Charset {
    seq(32, i requires 0 <= i < 32 => Or8(a[i], b[i]))
  }

  function Intersection(a: Charset, b: Charset): Charset {
    seq(32, i requires 0 <= i < 32 => And8(a[i], b[i]))
  }

  /** cs_complement. */
  function Complement(a: Charset): Charset {
    seq(32, i requires 0 <= i < 32 => Not8(a[i]))
  }

  /** The set of one character: setchar on an empty set. */
  function Single(c: Byte): Charset {
    seq(32, i requires 0 <= i < 32 => if i == c / 8 then Bit(c % 8) else 0)
  }

  /** cs_disjoint. */
  predicate Disjoint(a: Charset, b: Charset) {
    forall i :: 0 <= i < 32 ==> And8(a[i], b[i]) == 0
  }

  lemma FullContains(c: Byte)
    ensures Contains(FullSet(), c)
  {
  }

  lemma EmptyContains(c: Byte)
    ensures !Contains(EmptySet(), c)
  {
  }

  lemma UnionContains(a: Charset, b: Charset, c: Byte)
    ensures Contains(Union(a, b), c) <==> Contains(a, c) || Contains(b, c)
  {
    hide Has, Or8;
    OneBit(a[c / 8], b[c / 8], c % 8);
  }

  lemma IntersectionContains(a: Charset, b: Charset, c: Byte)
    ensures Contains(Intersection(a, b), c) <==> Contains(a, c) && Contains(b, c)
  {
    hide Has, And8;
    OneBit(a[c / 8], b[c / 8], c % 8);
  }

  lemma ComplementContains(a: Charset, c: Byte)
    ensures Contains(Complement(a), c) <==> !Contains(a, c)
  {
    hide Has, Not8;
    OneBit(a[c / 8], a[c / 8], c % 8);
  }

  lemma SingleContains(c: Byte, d: Byte)
    ensures Contains(Single(c), d) <==> c == d
  {
    hide Has, Bit;
    BitsApart(c % 8, d % 8);
  }

  lemma DisjointContains(a: Charset, b: Charset, c: Byte)
    requires Disjoint(a, b) && Contains(a, c)
    ensures !Contains(b, c)
  {
    hide Has, And8;
    OneBit(a[c / 8], b[c / 8], c % 8);
    NoBit(c % 8);
  }

  /** cs_disjoint: the bytewise test holds exactly when no character is in both sets. */
  lemma DisjointExact(a: Charset, b: Charset)
    ensures Disjoint(a, b) <==> forall c: Byte :: !(Contains(a, c) && Contains(b, c))
  {
    hide Has, And8;
    if Disjoint(a, b) {
      forall c: Byte
        ensures !(Contains(a, c) && Contains(b, c))
      {
        if Contains(a, c) {
          DisjointContains(a, b, c);
        }
      }
    } else {
      var i :| 0 <= i < 32 && And8(a[i], b[i]) != 0;
      var k := ByteHas(And8(a[i], b[i]));
      OneBit(a[i], b[i], k);
      var c: Byte := 8 * i + k;
      assert c / 8 == i && c % 8 == k;
      assert Contains(a, c) && Contains(b, c);
    }
  }

  /** Bitwise operations, seen through a one-bit mask. */
  lemma OrMask(x: bv8, y: bv8, m: bv8)
    ensures (x | y) & m != 0 <==> x & m != 0 || y & m != 0
  {
  }

  lemma AndMask(x: bv8, y: bv8, m: bv8)
    requires m & (m - 1) == 0
    ensures (x & y) & m != 0 <==> x & m != 0 && y & m != 0
  {
  }

  lemma NotMask(x: bv8, m: bv8)
    requires m != 0 && m & (m - 1) == 0
    ensures (!x) & m != 0 <==> x & m == 0
  {
  }

  lemma BitMask(k: nat)
    requires k < 8
    ensures Bit(k) != 0 && Bit(k) & (Bit(k) - 1) == 0
  {
  }

  /** Bitwise operations, bit by bit. */
  lemma OneBit(x: bv8, y: bv8, k: nat)
    requires k < 8
    ensures Has(Or8(x, y), k) <==> Has(x, k) || Has(y, k)
    ensures Has(And8(x, y), k) <==> Has(x, k) && Has(y, k)
    ensures Has(Not8(x), k) <==> !Has(x, k)
  {
    hide Bit;
    BitMask(k);
    OrMask(x, y, Bit(k));
    AndMask(x, y, Bit(k));
    NotMask(x, Bit(k));
  }

  lemma BitsApart(j: nat, k: nat)
    requires j < 8 && k < 8
    ensures Has(Bit(j), k) <==> j == k
    ensures !Has(0, k)
  {
  }

  lemma NoBit(k: nat)
    requires k < 8
    ensures !Has(0, k) && Has(0xFF, k)
  {
  }

  /** What charsettype tells apart; the opcodes IFail, IChar, IAny and ISet of the source. */
  datatype Kind = KFail | KChar(c: Byte) | KAny | KSet

  /** Which of the four kinds a set is. */
  ghost predicate IsKind(cs: Charset, k: Kind) {
    match k
    case KFail => forall c: Byte :: !Contains(cs, c)
    case KChar(c) => forall d: Byte :: Contains(cs, d) <==> d == c
    case KAny => forall c: Byte :: Contains(cs, c)
    case KSet => (exists c: Byte, d: Byte :: c != d && Contains(cs, c) && Contains(cs, d))
                 && exists c: Byte :: !Contains(cs, c)
  }

  ghost function KindOf(cs: Charset): (k: Kind)
    ensures IsKind(cs, k)
  {
    if forall c: Byte :: !Contains(cs, c) then KFail
    else if forall c: Byte :: Contains(cs, c) then KAny
    else
      var c: Byte :| Contains(cs, c);
      if IsKind(cs, KChar(c)) then KChar(c) else KSet
  }

  /** The kinds exclude each other. */
  lemma KindUnique(cs: Charset, k: Kind)
    requires IsKind(cs, k)
    ensures k == KindOf(cs)
  {
    hide Contains;
    var k' := KindOf(cs);
    assert IsKind(cs, k');
    var zero: Byte, one: Byte := 0, 1;
    assert Contains(cs, zero) || !Contains(cs, zero);
    assert Contains(cs, one) || !Contains(cs, one);
    assert k.KChar? ==> Contains(cs, k.c);
    assert k'.KChar? ==> Contains(cs, k'.c);
  }

  /** b & (b - 1) == 0, for b != 0: exactly one bit is set. */
  predicate OneBitSet(b: bv8) {
    b != 0 && b & (b - 1) == 0
  }

  /** A byte with a bit missing. */
  lemma ByteLacks(b: bv8) returns (k: nat)
    requires b != 0xFF
    ensures k < 8 && !Has(b, k)
  {
    k := if b & 1 == 0 then 0 else if b & 2 == 0 then 1 else if b & 4 == 0 then 2 else if b & 8 == 0 then 3
         else if b & 16 == 0 then 4 else if b & 32 == 0 then 5 else if b & 64 == 0 then 6 else 7;
  }

  /** A byte with a bit set. */
  lemma ByteHas(b: bv8) returns (k: nat)
    requires b != 0
    ensures k < 8 && Has(b, k)
  {
    k := if b & 1 != 0 then 0 else if b & 2 != 0 then 1 else if b & 4 != 0 then 2 else if b & 8 != 0 then 3
         else if b & 16 != 0 then 4 else if b & 32 != 0 then 5 else if b & 64 != 0 then 6 else 7;
  }

  /** A byte with more than one bit set: a lowest one and another. */
  lemma ByteHasTwo(b: bv8) returns (j: nat, k: nat)
    requires b != 0 && !OneBitSet(b)
    ensures j < 8 && k < 8 && j != k && Has(b, j) && Has(b, k)
  {
    j := ByteHas(b);
    k := ByteHas(b & (b - 1));
    if j == k {
      j := ByteHas(b & !Bit(k));
    }
  }

  lemma OneBitCases(b: bv8)
    requires OneBitSet(b)
    ensures b == 1 || b == 2 || b == 4 || b == 8 || b == 16 || b == 32 || b == 64 || b == 128
  {
  }

  /** The position of the only bit, found by halving as charsettype does. */
  method BitPosition(b: bv8) returns (k: nat)
    requires OneBitSet(b)
    ensures k < 8 && b == Bit(k)
  {
    OneBitCases(b);
    var rest := b;
    k := 0;
    if rest & 0xF0 != 0 {
      k, rest := k + 4, rest >> 4;
    }
    if rest & 0x0C != 0 {
      k, rest := k + 2, rest >> 2;
    }
    if rest & 0x02 != 0 {
      k := k + 1;
    }
  }

  /** Two characters in and one out, from the bytes that hold them. */
  lemma Mixed(cs: Charset, i: nat, j: nat, out: nat)
    requires i < 32 && j < 32 && out < 32
    requires cs[i] != 0 && cs[j] != 0 && cs[out] != 0xFF
    requires i != j || !OneBitSet(cs[i])
    ensures IsKind(cs, KSet)
  {
    hide Has;
    var n := ByteLacks(cs[out]);
    var z: Byte := out * 8 + n;
    assert !Contains(cs, z);
    if i != j {
      var k := ByteHas(cs[i]);
      var l := ByteHas(cs[j]);
      var c: Byte, d: Byte := i * 8 + k, j * 8 + l;
      assert Contains(cs, c) && Contains(cs, d) && c != d;
    } else {
      var k, l := ByteHasTwo(cs[i]);
      var c: Byte, d: Byte := i * 8 + k, i * 8 + l;
      assert Contains(cs, c) && Contains(cs, d) && c != d;
    }
  }

  /** What charsettype has seen in the first n bytes: nothing, one character, or every character. */
  ghost predicate Seen(cs: Charset, n: nat, count: nat, candidate: int)
    requires n <= 32
  {
    || (count == 0 && forall j :: 0 <= j < n ==> cs[j] == 0)
    || (count == 1 && 0 <= candidate < n && OneBitSet(cs[candidate])
        && forall j :: 0 <= j < n && j != candidate ==> cs[j] == 0)
    || (n > 0 && count == n * 8 && forall j :: 0 <= j < n ==> cs[j] == 0xFF)
  }

  /** charsettype. */
  method CharsetType(cs: Charset) returns (k: Kind)
    ensures k == KindOf(cs)
  {
    hide KindOf, IsKind;
    var count: nat := 0;
    var candidate := -1;
    for i := 0 to 32
      invariant Seen(cs, i, count, candidate)
    {
      var b := cs[i];
      if b == 0 {
        if count > 1 {
          assert cs[0] == 0xFF;
          Mixed(cs, 0, 0, i);
          KindUnique(cs, KSet);
          return KSet;
        }
      } else if b == 0xFF {
        if count < i * 8 {
          var out := if count == 0 then 0 else candidate;
          Mixed(cs, i, i, out);
          KindUnique(cs, KSet);
          return KSet;
        } else {
          count := count + 8;
        }
      } else if b & (b - 1) == 0 {
        if count > 0 {
          var j := if count == 1 then candidate else 0;
          Mixed(cs, i, j, i);
          KindUnique(cs, KSet);
          return KSet;
        } else {
          count := count + 1;
          candidate := i;
        }
      } else {
        Mixed(cs, i, i, i);
        KindUnique(cs, KSet);
        return KSet;
      }
    }
    if count == 0 {
      k := KFail;
    } else if count == 1 {
      var p := BitPosition(cs[candidate]);
      k := KChar(candidate * 8 + p);
    } else {
      k := KAny;
    }
    SeenAll(cs, count, candidate, k);
    KindUnique(cs, k);
  }

  lemma SeenAll(cs: Charset, count: nat, candidate: int, k: Kind)
    requires Seen(cs, 32, count, candidate)
    requires if count == 0 then k == KFail
             else if count == 1 then k.KChar? && k.c / 8 == candidate && cs[candidate] == Bit(k.c % 8)
             else k == KAny
    ensures IsKind(cs, k)
  {
    hide Has, Bit;
    forall c: Byte
      ensures match k
              case KFail => !Contains(cs, c)
              case KAny => Contains(cs, c)
              case _ => (Contains(cs, c) <==> c == k.c)
    {
      NoBit(c % 8);
      if k.KChar? {
        BitsApart(k.c % 8, c % 8);
      }
    }
  }
}
