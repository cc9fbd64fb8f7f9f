/** What the words, constants and functions of SHA-1 are, as sections 2 to 5 of FIPS 180-4 describe them. */
module Sha1Laws {
  import opened Basics
  import opened Binary = Bits
  import opened Sha1
  import opened Sha1Stream

  // ------------------------------------------------------- bitwise functions

  lemma OnBitsHalf(f: BitOp, x: Word, y: Word, z: Word, n: nat)
    requires n > 0
    ensures var r := OnBits(f, x, y, z, n);
      r / 2 == OnBits(f, x / 2, y / 2, z / 2, n - 1) &&
      r % 2 == if OnBit(f, x % 2 == 1, y % 2 == 1, z % 2 == 1) then 1 else 0
  {
    hide OnBit;
  }

  /** A bitwise operation on words acts on every bit alone. */
  lemma {:induction false} OnBitsAt(f: BitOp, x: Word, y: Word, z: Word, n: nat, k: nat)
    requires k < n
    ensures Bit(OnBits(f, x, y, z, n), k) == if OnBit(f, Bit(x, k) == 1, Bit(y, k) == 1, Bit(z, k) == 1) then 1 else 0
  {
    hide OnBits, OnBit, Bit;
    OnBitsHalf(f, x, y, z, n);
    var r := OnBits(f, x, y, z, n);
    if k == 0 {
      LowestBit(r);
      LowestBit(x);
      LowestBit(y);
      LowestBit(z);
    } else {
      OnBitsAt(f, x / 2, y / 2, z / 2, n - 1, k - 1);
      HigherBit(r, k);
      HigherBit(x, k);
      HigherBit(y, k);
      HigherBit(z, k);
    }
  }

  /** Exclusive or: a bit is set if and only if the two bits differ. */
  lemma XorLaw(x: Word, y: Word, k: nat)
    requires k < 32
    ensures Bit(Xor(x, y), k) == 1 <==> Bit(x, k) != Bit(y, k)
  {
    hide OnBits, Bit;
    OnBitsAt(Xor2, x, y, 0, 32, k);
  }

  /** The functions of section 4.1.1: choice in rounds 0 to 19, majority in rounds 40 to 59, parity in the others. */
  lemma FLaw(t: nat, x: Word, y: Word, z: Word, k: nat)
    requires k < 32
    ensures var a, b, c := Bit(x, k), Bit(y, k), Bit(z, k);
      Bit(F(t, x, y, z), k) ==
      if t < 20 then if a == 1 then b else c
      else if 40 <= t < 60 then if a + b + c >= 2 then 1 else 0
      else (a + b + c) % 2
  {
    hide OnBits, Bit;
    OnBitsAt(if t < 20 then Ch else if t < 40 || t >= 60 then Parity else Maj, x, y, z, 32, k);
  }

  // ---------------------------------------------------------------- rotation

  lemma Powers()
    ensures Pow2(1) == 2 && Pow2(2) == 4 && Pow2(5) == 0x20 && Pow2(27) == 0x800_0000
    ensures Pow2(30) == 0x4000_0000 && Pow2(31) == 0x8000_0000 && Pow2(32) == 0x1_0000_0000
  {
    assert Pow2(4) == 16 && Pow2(8) == 0x100 && Pow2(12) == 0x1000 && Pow2(16) == 0x1_0000;
    assert Pow2(20) == 0x10_0000 && Pow2(24) == 0x100_0000 && Pow2(28) == 0x1000_0000;
  }

  lemma RolParts(x: Word, n: nat)
    requires x < 0x1_0000_0000 && n in {1, 5, 30}
    ensures Pow2(32 - n) > 0 && x / Pow2(32 - n) < Pow2(n)
    ensures Rol(x, n) == x / Pow2(32 - n) + x % Pow2(32 - n) * Pow2(n)
  {
    Powers();
    hide Pow2;
    if n == 1 {
      Quotient(x * 2, 0x1_0000_0000, x / 0x8000_0000, x % 0x8000_0000 * 2);
    } else if n == 5 {
      Quotient(x * 0x20, 0x1_0000_0000, x / 0x800_0000, x % 0x800_0000 * 0x20);
    } else {
      Quotient(x * 0x4000_0000, 0x1_0000_0000, x / 4, x % 4 * 0x4000_0000);
    }
  }

  /** Rotation to the left as section 3.2 has it: bit i comes from bit i - n, modulo 32. */
  lemma RolLaw(x: Word, n: nat, i: nat)
    requires x < 0x1_0000_0000 && n in {1, 5, 30} && i < 32
    ensures Bit(Rol(x, n), i) == Bit(x, (i + 32 - n) % 32)
  {
    hide Rol, Bit, Pow2;
    RolParts(x, n);
    var high, low := x / Pow2(32 - n), x % Pow2(32 - n);
    assert x == low + high * Pow2(32 - n);
    Binary.Joined(high, low, n, i);
    Binary.Joined(low, high, 32 - n, (i + 32 - n) % 32);
  }

  // --------------------------------------------------------------- constants

  /** What round t takes the square root of. */
  function Radicand(t: nat): nat {
    if t < 20 then 2 else if t < 40 then 3 else if t < 60 then 5 else 10
  }

  /** The constants of section 4.2.1 are the integer parts of 2^30 times the square roots of 2, 3, 5 and 10. */
  lemma KLaw(t: nat)
    ensures K(t) * K(t) <= Radicand(t) * 0x1000_0000_0000_0000 < (K(t) + 1) * (K(t) + 1)
  {
  }

  /** Octet j of the initial value of section 5.3.1, with the least significant octet of each word first. */
  function InitialOctet(j: nat): int
    requires j < 20
  {
    var w := [Initial.a, Initial.b, Initial.c, Initial.d, Initial.e][j / 4];
    BigEndian(w, 4)[3 - j % 4]
  }

  /** They count up in hexadecimal digits 0 to f, down again, and on with the digits interleaved. */
  lemma InitialLaw(j: nat)
    requires j < 20
    ensures InitialOctet(j) == if j < 8 then 0x01 + 0x22 * j else if j < 16 then 0xfe - 0x22 * (j - 8)
                               else 0xf0 - 0x0f * (j - 16)
  {
    hide BigEndian;
    FourOctets(0x67, 0x45, 0x23, 0x01);
    FourOctets(0xef, 0xcd, 0xab, 0x89);
    FourOctets(0x98, 0xba, 0xdc, 0xfe);
    FourOctets(0x10, 0x32, 0x54, 0x76);
    FourOctets(0xc3, 0xd2, 0xe1, 0xf0);
  }

  // -------------------------------------------------------------- words

  /** The words of a block are its octets, four at a time, the most significant first. */
  lemma WordAtLaw(b: Bytes, i: nat)
    requires 4 * i + 3 < |b|
    ensures WordAt(b, i) == BigEndianValue(b[4 * i..4 * i + 4]) && WordAt(b, i) < 0x1_0000_0000
  {
    var s := b[4 * i..4 * i + 4];
    assert s == [b[4 * i], b[4 * i + 1], b[4 * i + 2], b[4 * i + 3]];
    FourOctets(b[4 * i], b[4 * i + 1], b[4 * i + 2], b[4 * i + 3]);
  }

  lemma FourOctets(a: Byte, b: Byte, c: Byte, d: Byte)
    ensures BigEndianValue([a, b, c, d]) == ((a * 256 + b) * 256 + c) * 256 + d
    ensures BigEndian(((a * 256 + b) * 256 + c) * 256 + d, 4) == [a, b, c, d]
  {
    assert [a][..0] == [] && [a, b][..1] == [a] && [a, b, c][..2] == [a, b] && [a, b, c, d][..3] == [a, b, c];
    assert BigEndianValue([a]) == a;
    assert BigEndianValue([a, b, c]) == (a * 256 + b) * 256 + c;
    var v := a * 256 + b;
    assert BigEndian(v, 2) == [a, b] by { assert BigEndian(a, 1) == [a]; }
    assert (v * 256 + c) / 256 == v && ((v * 256 + c) * 256 + d) / 256 == v * 256 + c;
  }

  /** Addition is modulo 2^32, and its result a word. */
  lemma AddLaw(x: Word, y: Word)
    ensures Add(x, y) < 0x1_0000_0000
    ensures x < 0x1_0000_0000 && y < 0x1_0000_0000 ==> Add(x, y) == x + y || Add(x, y) == x + y - 0x1_0000_0000
  {
  }

  // ----------------------------------------------------- messages and digests

  lemma FourMore(s: Bytes, a: Byte, b: Byte, c: Byte, d: Byte)
    ensures BigEndianValue(s + [a, b, c, d]) ==
      BigEndianValue(s) * 0x1_0000_0000 + BigEndianValue([a, b, c, d])
  {
    FourOctets(a, b, c, d);
    var v := BigEndianValue(s);
    assert (s + [a])[..|s|] == s && (s + [a, b])[..|s| + 1] == s + [a];
    assert (s + [a, b, c])[..|s| + 2] == s + [a, b] && (s + [a, b, c, d])[..|s| + 3] == s + [a, b, c];
    assert BigEndianValue(s + [a]) == v * 256 + a;
    assert BigEndianValue(s + [a, b]) == (v * 256 + a) * 256 + b;
    assert BigEndianValue(s + [a, b, c]) == ((v * 256 + a) * 256 + b) * 256 + c;
  }

  lemma WordBytesLaw(w: Word)
    requires w < 0x1_0000_0000
    ensures BigEndianValue(WordBytes(w)) == w
  {
    FourOctets(w / 0x100_0000 % 256, w / 0x1_0000 % 256, w / 0x100 % 256, w % 256);
  }

  /** The length that ends the padding is the number of bits, in eight octets. */
  lemma LengthLaw(bits: nat)
    ensures |LengthBytes(bits)| == 8 && BigEndianValue(LengthBytes(bits)) == bits % TwoTo64
  {
    var s := LengthBytes(bits);
    FromBytes(bits);
    assert |s| == 8;
    hide LengthBytes;
    assert s == [s[0], s[1], s[2], s[3]] + [s[4], s[5], s[6], s[7]];
    FourMore([s[0], s[1], s[2], s[3]], s[4], s[5], s[6], s[7]);
    FourOctets(s[0], s[1], s[2], s[3]);
    FourOctets(s[4], s[5], s[6], s[7]);
  }

  /** The digest is the five registers in order, four octets each, the most significant first. */
  lemma DigestLaw(r: Regs, i: nat)
    requires i < 5 && r.a < 0x1_0000_0000 && r.b < 0x1_0000_0000 && r.c < 0x1_0000_0000 && r.d < 0x1_0000_0000
    requires r.e < 0x1_0000_0000
    ensures |RegsBytes(r)| == 20 && BigEndianValue(RegsBytes(r)[4 * i..4 * i + 4]) == [r.a, r.b, r.c, r.d, r.e][i]
  {
    var w := [r.a, r.b, r.c, r.d, r.e][i];
    assert RegsBytes(r)[4 * i..4 * i + 4] == WordBytes(w);
    WordBytesLaw(w);
  }
}
