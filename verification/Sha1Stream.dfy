/**
 * Incremental hashing of skynet/lualib-src/lsha1.c: a 64-byte buffer, a bit
 * count in two words, padding byte by byte, and HMAC (section 2 of RFC 2104).
 */
module Sha1Stream {
  import opened Basics
  import opened Sha1

  const TwoTo32: int := 0x1_0000_0000
  const TwoTo64: int := 0x1_0000_0000_0000_0000

  // ------------------------------------------------------------ the standard

  function Zeros(k: nat): Bytes {
    seq(k, _ => 0)
  }

  /** The number of zero bytes that bring a message and its 0x80 to 56 modulo 64. */
  function PadZeros(n: nat): nat {
    (119 - n % 64) % 64
  }

  function Shifted(v: nat, i: nat): nat
    requires i < 8
    decreases 8 - i
  {
    if i == 7 then v else Shifted(v, i + 1) / 256
  }

  /** The length in bits as eight big-endian bytes. */
  function LengthBytes(bits: nat): Bytes {
    seq(8, i requires 0 <= i < 8 => Shifted(bits % TwoTo64, i) % 256)
  }

  /** The message filled up to whole blocks, with a given number of bits written at its end. */
  function PadAs(m: Bytes, bits: nat): Bytes {
    m + [0x80] + Zeros(PadZeros(|m|)) + LengthBytes(bits)
  }

  /** The padding of section 5.1.1 of FIPS 180-4. */
  function Pad(m: Bytes): Bytes {
    PadAs(m, 8 * |m|)
  }

  function WordBytes(w: Word): Bytes {
    [w / 0x100_0000 % 256, w / 0x1_0000 % 256, w / 0x100 % 256, w % 256]
  }

  function RegsBytes(r: Regs): Bytes {
    WordBytes(r.a) + WordBytes(r.b) + WordBytes(r.c) + WordBytes(r.d) + WordBytes(r.e)
  }

  lemma PadArithmetic(n: nat)
    ensures (n + 1 + PadZeros(n)) % 64 == 56
  {
    var r := n % 64;
    assert PadZeros(n) == if r <= 55 then 55 - r else 119 - r;
  }

  lemma PadLength(m: Bytes, bits: nat)
    ensures |PadAs(m, bits)| == |m| + 1 + PadZeros(|m|) + 8 && |PadAs(m, bits)| % 64 == 0
  {
    hide PadZeros;
    PadArithmetic(|m|);
  }

  function DigestAs(m: Bytes, bits: nat): Bytes {
    PadLength(m, bits);
    RegsBytes(Blocks(PadAs(m, bits), |PadAs(m, bits)| / 64))
  }

  function Digest(m: Bytes): Bytes {
    DigestAs(m, 8 * |m|)
  }

  // --------------------------------------------------------------- hashing on

  /** Whole blocks hash the same whatever follows them. */
  lemma {:induction false} BlocksFrame(m: Bytes, x: Bytes, n: nat)
    requires 64 * n <= |m|
    ensures Blocks(m + x, n) == Blocks(m, n)
  {
    hide Compress;
    if n > 0 {
      BlocksFrame(m, x, n - 1);
      assert (m + x)[64 * (n - 1)..64 * n] == m[64 * (n - 1)..64 * n];
    }
  }

  lemma NextBlock(m: Bytes, b: Bytes, n: nat)
    requires |m| == 64 * n && |b| == 64
    ensures Blocks(m + b, n + 1) == Compress(Blocks(m, n), b)
  {
    hide Compress;
    BlocksFrame(m, b, n);
    assert (m + b)[64 * n..64 * (n + 1)] == b;
  }

  /** What a context knows about the bytes it has taken. */
  ghost predicate Holds(m: Bytes, state: seq<Word>, buffer: seq<Byte>) {
    |state| == 5 && |buffer| == 64 &&
    RegsAt(state, 0) == Blocks(m, |m| / 64) &&
    buffer[..|m| % 64] == m[64 * (|m| / 64)..]
  }

  lemma Fold(m: Bytes)
    ensures m == m[..64 * (|m| / 64)] + m[64 * (|m| / 64)..] && |m[64 * (|m| / 64)..]| == |m| % 64
  {
  }

  /** Data that fits into the buffer. */
  lemma TakeShort(m: Bytes, state: seq<Word>, buffer: seq<Byte>, data: Bytes, b': seq<Byte>)
    requires Holds(m, state, buffer) && |m| % 64 + |data| <= 63 && |b'| == 64
    requires b'[..|m| % 64 + |data|] == buffer[..|m| % 64] + data
    ensures Holds(m + data, state, b')
  {
    hide Blocks, RegsAt;
    var n, j := |m| / 64, |m| % 64;
    assert |m + data| / 64 == n && |m + data| % 64 == j + |data|;
    BlocksFrame(m, data, n);
    assert (m + data)[64 * n..] == m[64 * n..] + data;
  }

  /** Data that fills the buffer: its first block. */
  lemma FillFirst(m: Bytes, state: seq<Word>, buffer: seq<Byte>, head: Bytes)
    requires Holds(m, state, buffer) && |m| % 64 + |head| == 64
    ensures Blocks(m + head, |m + head| / 64) == Compress(RegsAt(state, 0), buffer[..|m| % 64] + head)
    ensures |m + head| % 64 == 0
  {
    hide Compress, RegsAt, Blocks;
    var n := |m| / 64;
    var whole, tail := m[..64 * n], m[64 * n..];
    Fold(m);
    assert m + head == whole + (tail + head);
    assert |whole| == 64 * n && |tail + head| == 64 && |m + head| == 64 * (n + 1);
    NextBlock(whole, tail + head, n);
    BlocksFrame(whole, tail, n);
  }

  /** A further block straight from the data. */
  lemma FillNext(m: Bytes, b: Bytes)
    requires |m| % 64 == 0 && |b| == 64
    ensures |m + b| % 64 == 0 && Blocks(m + b, |m + b| / 64) == Compress(Blocks(m, |m| / 64), b)
  {
    hide Compress, Blocks;
    var n := |m| / 64;
    assert |m| == 64 * n && |m + b| == 64 * (n + 1);
    NextBlock(m, b, n);
  }

  /** The rest of the data goes to the front of the buffer. */
  lemma TakeRest(m: Bytes, state: seq<Word>, rest: Bytes, b': seq<Byte>)
    requires |m| % 64 == 0 && |rest| < 64 && |state| == 5 && |b'| == 64 && b'[..|rest|] == rest
    requires RegsAt(state, 0) == Blocks(m, |m| / 64)
    ensures Holds(m + rest, state, b')
  {
    hide Blocks, RegsAt;
    var n := |m| / 64;
    assert |m| == 64 * n;
    assert |m + rest| / 64 == n && |m + rest| % 64 == |rest|;
    BlocksFrame(m, rest, n);
    assert (m + rest)[64 * n..] == rest;
  }

  // ------------------------------------------------------------------ counting

  /** The two count words hold a number of bits. */
  predicate Counted(bits: nat, c0: int, c1: int) {
    0 <= c0 < TwoTo32 && 0 <= c1 < TwoTo32 && c1 * TwoTo32 + c0 == bits % TwoTo64
  }

  /** n bytes, and what was counted too much: always a multiple of 2^32. */
  function Bits(n: nat, over: nat): nat {
    8 * n + over * TwoTo32
  }

  /**
   * What is counted too much when len bytes follow n: the carry test sees a
   * carry whenever the piece has 2^32 bits or more, whether there is one or not.
   */
  function Miscounts(n: nat, len: nat): nat {
    if 8 * len % TwoTo64 >= TwoTo32 && 8 * n % TwoTo32 + 8 * len % TwoTo32 < TwoTo32 then 1 else 0
  }

  lemma LowCount(n: nat, over: nat, c0: int, c1: int)
    requires Counted(Bits(n, over), c0, c1)
    ensures c0 == 8 * n % TwoTo32
  {
    var q := Bits(n, over) / TwoTo64;
    assert 8 * n == (q * TwoTo32 + c1 - over) * TwoTo32 + c0;
  }

  lemma CountOffset(n: nat, over: nat, c0: int, c1: int)
    requires Counted(Bits(n, over), c0, c1)
    ensures c0 / 8 % 64 == n % 64
  {
    LowCount(n, over, c0, c1);
    var q := 8 * n / TwoTo32;
    assert n == q * 0x2000_0000 + c0 / 8;
  }

  /** Counting len bytes more, whatever their number. */
  lemma CountAdd(n: nat, over: nat, len: nat, c0: int, c1: int, d0: int, d1: int)
    requires Counted(Bits(n, over), c0, c1)
    requires d0 == (c0 + len * 8) % TwoTo32
    requires d1 == (c1 + (if d0 < len * 8 % TwoTo64 then 1 else 0) + len / 0x2000_0000) % TwoTo32
    ensures Counted(Bits(n + len, over + Miscounts(n, len)), d0, d1)
  {
    hide Counted, Bits, Miscounts;
    CountSizes(Bits(n, over), c0, c1);
    LowCount(n, over, c0, c1);
    var bits := 8 * len;
    Halves(len, bits);
    LowSum(c0, bits, d0);
    CarrySeen(c0, d0, bits);
    var seen := if d0 < bits % TwoTo64 then 1 else 0;
    var over' := Miscounts(n, len);
    MiscountsIs(n, len);
    HighSum(Bits(n, over), c0, c1, len, seen, over', d0, d1);
    BitsAdd(n, over, len, over');
  }

  lemma MiscountsIs(n: nat, len: nat)
    ensures Miscounts(n, len) == 1 <==> 8 * len % TwoTo64 >= TwoTo32 && 8 * n % TwoTo32 + 8 * len % TwoTo32 < TwoTo32
    ensures 0 <= Miscounts(n, len) <= 1
  {
  }

  lemma BitsAdd(n: nat, over: nat, len: nat, more: nat)
    ensures Bits(n + len, over + more) == Bits(n, over) + 8 * len + more * TwoTo32
  {
  }

  lemma Halves(len: nat, bits: nat)
    requires bits == 8 * len
    ensures bits / TwoTo32 == len / 0x2000_0000
  {
  }

  lemma LowSum(c0: nat, bits: nat, d0: int)
    requires c0 < TwoTo32 && d0 == (c0 + bits) % TwoTo32
    ensures d0 == c0 + bits % TwoTo32 - (if c0 + bits % TwoTo32 >= TwoTo32 then TwoTo32 else 0)
  {
    var h, l := bits / TwoTo32, bits % TwoTo32;
    assert c0 + bits == h * TwoTo32 + (c0 + l);
  }

  lemma CarrySeen(c0: nat, d0: int, bits: nat)
    requires c0 < TwoTo32 && d0 == c0 + bits % TwoTo32 - (if c0 + bits % TwoTo32 >= TwoTo32 then TwoTo32 else 0)
    ensures d0 < bits % TwoTo64 <==> c0 + bits % TwoTo32 >= TwoTo32 || bits % TwoTo64 >= TwoTo32
  {
    var h := TwoWordsOf(bits);
  }

  lemma TwoWordsOf(bits: nat) returns (h: nat)
    ensures bits % TwoTo64 == h * TwoTo32 + bits % TwoTo32
  {
    h := bits / TwoTo32 % TwoTo32;
    var g := bits / TwoTo32 / TwoTo32;
    assert bits == g * TwoTo64 + (h * TwoTo32 + bits % TwoTo32);
  }

  lemma HighSum(bits: nat, c0: int, c1: int, len: nat, seen: nat, over: nat, d0: int, d1: int)
    requires Counted(bits, c0, c1) && 0 <= d0 < TwoTo32
    requires d0 == c0 + 8 * len % TwoTo32 - (seen - over) * TwoTo32
    requires d1 == (c1 + seen + len / 0x2000_0000) % TwoTo32
    ensures Counted(bits + 8 * len + over * TwoTo32, d0, d1)
  {
    var q, h := bits / TwoTo64, len / 0x2000_0000;
    assert 8 * len == h * TwoTo32 + 8 * len % TwoTo32;
    var top := (c1 + seen + h) / TwoTo32;
    assert c1 + seen + h == top * TwoTo32 + d1;
    assert bits == q * TwoTo64 + c1 * TwoTo32 + c0;
    Recount(bits + 8 * len + over * TwoTo32, q + top, d1, d0);
  }

  lemma Recount(bits: nat, q: int, d1: int, d0: int)
    requires bits == q * TwoTo64 + d1 * TwoTo32 + d0 && 0 <= d0 < TwoTo32 && 0 <= d1 < TwoTo32
    ensures Counted(bits, d0, d1)
  {
  }

  /** A piece of fewer than 2^29 bytes is never miscounted. */
  lemma ShortCounts(n: nat, len: nat)
    requires len < 0x2000_0000
    ensures Miscounts(n, len) == 0
  {
  }

  /** A message hashed in one call is counted right exactly when it has fewer than 2^29 bytes (modulo 2^61). */
  lemma WholeCounts(len: nat)
    ensures Miscounts(0, len) == 0 <==> len % 0x2000_0000_0000_0000 < 0x2000_0000
  {
    assert 8 * len % TwoTo64 == 8 * (len % 0x2000_0000_0000_0000);
  }

  // ------------------------------------------------------------------ contexts

  /** The bytes of the final count, as the source takes them from the two words. */
  function FinalCount(c0: nat, c1: nat): Bytes {
    WordBytes(c1) + WordBytes(c0)
  }

  lemma FinalCountIs(bits: nat, c0: nat, c1: nat)
    requires Counted(bits, c0, c1)
    ensures FinalCount(c0, c1) == LengthBytes(bits)
  {
    hide LengthBytes, FinalCount;
    FinalBytes(c0, c1, bits % TwoTo64);
    LengthIs(bits);
  }

  /** Different counts are written differently. */
  lemma LengthInjective(a: nat, b: nat)
    requires LengthBytes(a) == LengthBytes(b)
    ensures a % TwoTo64 == b % TwoTo64
  {
    FromBytes(a);
    FromBytes(b);
  }

  function Number(s: Bytes): int
    requires |s| == 8
  {
    Four(s[4], s[5], s[6], s[7]) + TwoTo32 * Four(s[0], s[1], s[2], s[3])
  }

  function Four(a: int, b: int, c: int, d: int): int {
    0x100_0000 * a + 0x1_0000 * b + 0x100 * c + d
  }

  lemma FromBytes(bits: nat)
    ensures Number(LengthBytes(bits)) == bits % TwoTo64
  {
    var v := bits % TwoTo64;
    var w := v / TwoTo32;
    Shifts(v);
    hide Shifted, Four;
    LengthIs(bits);
    FourBytes(v);
    FourBytes(w);
    TwoWords(v);
  }

  lemma TwoWords(v: nat)
    requires v < TwoTo64
    ensures v == v % TwoTo32 + TwoTo32 * (v / TwoTo32 % TwoTo32)
  {
  }

  lemma FourBytes(v: nat)
    ensures v % TwoTo32 == Four(v / 0x100_0000 % 256, v / 0x1_0000 % 256, v / 0x100 % 256, v % 256)
  {
    var a, b, c, d := v / 0x100, v / 0x1_0000, v / 0x100_0000, v / TwoTo32;
    Byte1(v);
    Byte2(v);
    Byte3(v);
    FromParts(v, a, b, c, d, v % 256, a % 256, b % 256, c % 256);
    LowHalf(v, d, Four(c % 256, b % 256, a % 256, v % 256));
  }

  lemma Byte1(v: nat)
    ensures v / 0x1_0000 == v / 0x100 / 0x100
  {
  }

  lemma Byte2(v: nat)
    ensures v / 0x100_0000 == v / 0x1_0000 / 0x100
  {
  }

  lemma Byte3(v: nat)
    ensures v / TwoTo32 == v / 0x100_0000 / 0x100
  {
  }

  lemma FromParts(v: int, a: int, b: int, c: int, d: int, r0: int, r1: int, r2: int, r3: int)
    requires v == a * 0x100 + r0 && a == b * 0x100 + r1 && b == c * 0x100 + r2 && c == d * 0x100 + r3
    requires 0 <= r0 < 0x100 && 0 <= r1 < 0x100 && 0 <= r2 < 0x100 && 0 <= r3 < 0x100
    ensures v == d * TwoTo32 + Four(r3, r2, r1, r0) && 0 <= Four(r3, r2, r1, r0) < TwoTo32
  {
  }

  lemma LowHalf(v: int, d: int, low: int)
    requires v == d * TwoTo32 + low && 0 <= low < TwoTo32
    ensures v % TwoTo32 == low
  {
  }

  /** The padding comes out as the standard's exactly when nothing was miscounted, modulo 2^32 times. */
  lemma PadExact(m: Bytes, over: nat)
    ensures PadAs(m, Bits(|m|, over)) == Pad(m) <==> over % TwoTo32 == 0
  {
    hide LengthBytes, PadZeros, Zeros;
    var front := m + [0x80] + Zeros(PadZeros(|m|));
    var a, b := LengthBytes(Bits(|m|, over)), LengthBytes(8 * |m|);
    assert PadAs(m, Bits(|m|, over))[|front|..] == a && Pad(m)[|front|..] == b;
    BitsExact(|m|, over);
    if a == b {
      LengthInjective(Bits(|m|, over), 8 * |m|);
    } else if over % TwoTo32 == 0 {
      LengthIs(Bits(|m|, over));
      LengthIs(8 * |m|);
      assert false;
    }
  }

  lemma BitsExact(n: nat, over: nat)
    ensures Bits(n, over) % TwoTo64 == 8 * n % TwoTo64 <==> over % TwoTo32 == 0
  {
    var p, q := Bits(n, over) / TwoTo64, 8 * n / TwoTo64;
    var g, r := over / TwoTo32, over % TwoTo32;
    assert Bits(n, over) == q * TwoTo64 + 8 * n % TwoTo64 + g * TwoTo64 + r * TwoTo32;
    if Bits(n, over) % TwoTo64 == 8 * n % TwoTo64 {
      assert (p - q - g) * TwoTo32 == r;
    }
  }

  lemma LengthIs(bits: nat)
    ensures LengthBytes(bits) == seq(8, i requires 0 <= i < 8 => Shifted(bits % TwoTo64, i) % 256)
  {
  }

  lemma Shifts(v: nat)
    ensures Shifted(v, 7) == v && Shifted(v, 6) == v / 0x100
    ensures Shifted(v, 5) == v / 0x1_0000 && Shifted(v, 4) == v / 0x100_0000
    ensures Shifted(v, 3) == v / TwoTo32 && Shifted(v, 2) == v / TwoTo32 / 0x100
    ensures Shifted(v, 1) == v / TwoTo32 / 0x1_0000 && Shifted(v, 0) == v / TwoTo32 / 0x100_0000
  {
  }

  lemma HighPart(c1: nat, x: nat)
    ensures (c1 * 256 + x) % 256 == x % 256
  {
  }

  lemma LowWord(c0: nat, c1: nat, v: nat)
    requires c0 < TwoTo32 && v == c1 * TwoTo32 + c0
    ensures v / TwoTo32 == c1 && v % 256 == c0 % 256 && v / 0x100 % 256 == c0 / 0x100 % 256
    ensures v / 0x1_0000 % 256 == c0 / 0x1_0000 % 256 && v / 0x100_0000 % 256 == c0 / 0x100_0000 % 256
  {
    LowWord1(c0, c1, v);
    LowWord2(c0, c1, v);
    LowWord3(c0, c1, v);
    HighPart(c1 * 0x100_0000, c0);
  }

  lemma LowWord1(c0: nat, c1: nat, v: nat)
    requires v == c1 * TwoTo32 + c0
    ensures v / 0x100 % 256 == c0 / 0x100 % 256
  {
    assert v / 0x100 == c1 * 0x100_0000 + c0 / 0x100;
    HighPart(c1 * 0x1_0000, c0 / 0x100);
  }

  lemma LowWord2(c0: nat, c1: nat, v: nat)
    requires v == c1 * TwoTo32 + c0
    ensures v / 0x1_0000 % 256 == c0 / 0x1_0000 % 256
  {
    assert v / 0x1_0000 == c1 * 0x1_0000 + c0 / 0x1_0000;
    HighPart(c1 * 0x100, c0 / 0x1_0000);
  }

  lemma LowWord3(c0: nat, c1: nat, v: nat)
    requires v == c1 * TwoTo32 + c0
    ensures v / 0x100_0000 % 256 == c0 / 0x100_0000 % 256
  {
    assert v / 0x100_0000 == c1 * 0x100 + c0 / 0x100_0000;
    HighPart(c1, c0 / 0x100_0000);
  }

  lemma FinalBytes(c0: nat, c1: nat, v: nat)
    requires c0 < TwoTo32 && v == c1 * TwoTo32 + c0
    ensures FinalCount(c0, c1) == seq(8, i requires 0 <= i < 8 => Shifted(v, i) % 256)
  {
    Shifts(v);
    LowWord(c0, c1, v);
    hide Shifted;
  }

  class Context {
    const state: array<Word>
    const buffer: array<Byte>
    var count0: int
    var count1: int
    ghost var msg: Bytes
    ghost var over: nat

    ghost predicate Valid()
      reads this, state, buffer
    {
      state.Length == 5 && buffer.Length == 64 &&
      Holds(msg, state[..], buffer[..]) && Counted(Bits(|msg|, over), count0, count1)
    }

    /** sat_SHA1_Init */
    constructor ()
      ensures Valid() && msg == [] && over == 0 && fresh(state) && fresh(buffer)
    {
      hide Holds, Counted;
      state := new Word[5] [0x67452301, 0xEFCDAB89, 0x98BADCFE, 0x10325476, 0xC3D2E1F0];
      buffer := new Byte[64];
      count0, count1, msg, over := 0, 0, [], 0;
      new;
      InitHolds(state[..], buffer[..]);
    }

    /** memcpy into the buffer */
    method Put(at: nat, data: Bytes)
      requires buffer.Length == 64 && at + |data| <= 64
      modifies buffer
      ensures buffer[..at + |data|] == old(buffer[..at]) + data
    {
      ghost var front := buffer[..at];
      for k := 0 to |data|
        invariant buffer[..at] == front && forall i :: 0 <= i < k ==> buffer[at + i] == data[i]
      {
        buffer[at + k] := data[k];
      }
    }

    /** The count of bits, with the carry into the high word. */
    method Count(len: nat, ghost n: nat)
      requires Counted(Bits(n, over), count0, count1)
      modifies this`count0, this`count1
      ensures Counted(Bits(n + len, over + Miscounts(n, len)), count0, count1)
    {
      hide Counted, Bits, Miscounts;
      ghost var c0, c1 := count0, count1;
      CountSizes(Bits(n, over), c0, c1);
      count0 := (count0 + len * 8) % TwoTo32;
      if count0 < len * 8 % TwoTo64 {
        count1 := (count1 + 1) % TwoTo32;
      }
      count1 := (count1 + len / 0x2000_0000) % TwoTo32;
      TwoSteps(c1, if count0 < len * 8 % TwoTo64 then 1 else 0, len / 0x2000_0000);
      CountAdd(n, over, len, c0, c1, count0, count1);
    }

    /** sat_SHA1_Update */
    method Update(data: Bytes)
      requires Valid()
      modifies this, state, buffer
      ensures Valid() && msg == old(msg) + data && over == old(over) + Miscounts(|old(msg)|, |data|)
    {
      hide Holds, Counted, Compress, Blocks, RegsAt, Bits, Miscounts;
      Sizes(msg, state[..], buffer[..], Bits(|msg|, over), count0, count1);
      CountOffset(|msg|, over, count0, count1);
      var j := count0 / 8 % 64;
      Count(|data|, |msg|);
      over := over + Miscounts(|msg|, |data|);
      ghost var s0, b0, m0 := state[..], buffer[..], msg;
      msg := msg + data;
      if j + |data| > 63 {
        TakeBlocks(j, data, m0);
      } else {
        Put(j, data);
        assert state[..] == s0;
        TakeShort(m0, s0, b0, data, buffer[..]);
      }
    }

    /** The branch of sat_SHA1_Update that completes at least one block. */
    method TakeBlocks(j: nat, data: Bytes, ghost m0: Bytes)
      requires state.Length == 5 && buffer.Length == 64 && Holds(m0, state[..], buffer[..])
      requires j == |m0| % 64 && j + |data| > 63
      modifies state, buffer
      ensures Holds(m0 + data, state[..], buffer[..])
    {
      hide Holds, Compress, Blocks, RegsAt;
      ghost var s0, b0 := state[..], buffer[..];
      var i := 64 - j;
      Put(j, data[..i]);
      assert state[..] == s0;
      assert buffer[..] == buffer[..64] == b0[..j] + data[..i];
      FillFirst(m0, s0, b0, data[..i]);
      Transform(state, buffer[..]);
      i := MoreBlocks(data, i, m0);
      TakeLast(data[i..], m0 + data[..i]);
      assert m0 + data[..i] + data[i..] == m0 + data;
    }

    /** What is left of the data starts the next block. */
    method TakeLast(rest: Bytes, ghost m: Bytes)
      requires state.Length == 5 && buffer.Length == 64 && |rest| < 64 && |m| % 64 == 0
      requires RegsAt(state[..], 0) == Blocks(m, |m| / 64)
      modifies buffer
      ensures state[..] == old(state[..]) && Holds(m + rest, state[..], buffer[..])
    {
      hide Holds, Blocks, RegsAt;
      ghost var s1 := state[..];
      Put(0, rest);
      assert state[..] == s1 && buffer[..|rest|] == rest;
      TakeRest(m, s1, rest, buffer[..]);
    }

    /** The blocks that lie wholly inside the data. */
    method MoreBlocks(data: Bytes, start: nat, ghost m0: Bytes) returns (i: nat)
      requires state.Length == 5 && start <= |data| && |m0 + data[..start]| % 64 == 0
      requires RegsAt(state[..], 0) == Blocks(m0 + data[..start], |m0 + data[..start]| / 64)
      modifies state
      ensures i <= |data| < i + 64 && |m0 + data[..i]| % 64 == 0
      ensures RegsAt(state[..], 0) == Blocks(m0 + data[..i], |m0 + data[..i]| / 64)
    {
      hide Compress, Blocks, RegsAt;
      i := start;
      while i + 63 < |data|
        invariant i <= |data| && |m0 + data[..i]| % 64 == 0
        invariant RegsAt(state[..], 0) == Blocks(m0 + data[..i], |m0 + data[..i]| / 64)
      {
        FillNext(m0 + data[..i], data[i..i + 64]);
        assert m0 + data[..i] + data[i..i + 64] == m0 + data[..i + 64];
        Transform(state, data[i..i + 64]);
        i := i + 64;
      }
    }

    /** sat_SHA1_Final: the digest of everything taken with the bits counted for it. */
    method Final() returns (digest: Bytes)
      requires Valid()
      modifies this, state, buffer
      ensures digest == DigestAs(old(msg), Bits(|old(msg)|, old(over)))
    {
      hide Holds, Blocks, RegsAt, LengthBytes, PadZeros, Counted, Bits, Miscounts;
      ghost var m, bits := msg, Bits(|msg|, over);
      Sizes(msg, state[..], buffer[..], bits, count0, count1);
      var finalcount := FinalCount(count0, count1);
      FinalCountIs(bits, count0, count1);
      Update([0x80]);
      ghost var k: nat := 0;
      assert Zeros(0) == [];
      assert msg == m + [0x80] + Zeros(k);
      CountOffset(|msg|, over, count0, count1);
      CountSizes(Bits(|msg|, over), count0, count1);
      PadArithmetic(|m|);
      PadBound(|m|);
      while count0 % 512 / 8 * 8 != 448
        invariant Valid() && msg == m + [0x80] + Zeros(k) && k <= PadZeros(|m|)
        invariant count0 / 8 % 64 == |msg| % 64 && count0 >= 0
        decreases PadZeros(|m|) - k
      {
        PadNotYet(|m|, k, count0);
        ghost var before := msg;
        Update([0]);
        assert msg == before + [0];
        assert Zeros(k + 1) == Zeros(k) + [0];
        assert m + [0x80] + Zeros(k) + [0] == m + [0x80] + Zeros(k + 1);
        k := k + 1;
        CountOffset(|msg|, over, count0, count1);
        CountSizes(Bits(|msg|, over), count0, count1);
      }
      PadDone(|m|, k, count0);
      Update(finalcount);
      assert msg == PadAs(m, bits);
      PadLength(m, bits);
      hide PadAs;
      Sizes(msg, state[..], buffer[..], Bits(|msg|, over), count0, count1);
      digest := WordBytes(state[0]) + WordBytes(state[1]) + WordBytes(state[2])
        + WordBytes(state[3]) + WordBytes(state[4]);
      FinalRegs(msg, state[..], buffer[..]);
    }
  }

  lemma CountSizes(bits: nat, c0: int, c1: int)
    requires Counted(bits, c0, c1)
    ensures 0 <= c0 < TwoTo32 && 0 <= c1 < TwoTo32
  {
  }

  /** The high word is raised twice. */
  lemma TwoSteps(c1: int, a: int, b: int)
    requires 0 <= c1 < TwoTo32 && 0 <= a <= 1 && 0 <= b
    ensures ((c1 + a) % TwoTo32 + b) % TwoTo32 == (c1 + a + b) % TwoTo32
    ensures (c1 + 0) % TwoTo32 == c1
  {
    var q := (c1 + a) / TwoTo32;
    assert c1 + a == q * TwoTo32 + (c1 + a) % TwoTo32;
  }

  lemma InitHolds(state: seq<Word>, buffer: seq<Byte>)
    requires |buffer| == 64
    requires state == [0x67452301, 0xEFCDAB89, 0x98BADCFE, 0x10325476, 0xC3D2E1F0]
    ensures Holds([], state, buffer) && Counted(Bits(0, 0), 0, 0)
  {
    hide Role;
    RolesHome();
    assert RegsAt(state, 0) == Initial;
    hide RegsAt, Compress;
    assert Blocks([], 0) == Initial;
  }

  lemma Sizes(m: Bytes, state: seq<Word>, buffer: seq<Byte>, bits: nat, c0: int, c1: int)
    requires Holds(m, state, buffer) && Counted(bits, c0, c1)
    ensures |state| == 5 && |buffer| == 64 && 0 <= c0 < TwoTo32 && 0 <= c1 < TwoTo32
  {
  }

  lemma FinalRegs(m: Bytes, state: seq<Word>, buffer: seq<Byte>)
    requires Holds(m, state, buffer) && |m| % 64 == 0
    ensures |state| == 5 && RegsBytes(Blocks(m, |m| / 64))
      == WordBytes(state[0]) + WordBytes(state[1]) + WordBytes(state[2]) + WordBytes(state[3]) + WordBytes(state[4])
  {
    hide Blocks, WordBytes;
    RolesHome();
  }

  lemma PadBound(n: nat)
    ensures PadZeros(n) < 64
  {
  }

  lemma PadNotYet(n: nat, k: nat, c0: int)
    requires k <= PadZeros(n) && c0 >= 0 && c0 / 8 % 64 == (n + 1 + k) % 64 && c0 % 512 / 8 * 8 != 448
    ensures k < PadZeros(n)
  {
    PadArithmetic(n);
    BitsMask(c0);
  }

  lemma PadDone(n: nat, k: nat, c0: int)
    requires k <= PadZeros(n) && c0 >= 0 && c0 / 8 % 64 == (n + 1 + k) % 64 && c0 % 512 / 8 * 8 == 448
    ensures k == PadZeros(n)
  {
    BitsMask(c0);
    PadArithmetic(n);
    PadBound(n);
    SameResidue(n + 1 + k, n + 1 + PadZeros(n));
  }

  lemma SameResidue(a: nat, b: nat)
    requires a <= b < a + 64 && a % 64 == b % 64
    ensures a == b
  {
  }

  lemma BitsMask(c0: int)
    requires c0 >= 0
    ensures c0 % 512 / 8 * 8 == 448 <==> c0 / 8 % 64 == 56
  {
    var q, r := c0 / 512, c0 % 512;
    assert c0 == 512 * q + r;
    var h := r / 8;
    assert c0 / 8 == 64 * q + h && 0 <= h < 64;
  }

  // ------------------------------------------------------------------- pieces

  function Joined(pieces: seq<Bytes>): Bytes {
    if pieces == [] then [] else Joined(pieces[..|pieces| - 1]) + pieces[|pieces| - 1]
  }

  /** The pieces that are counted one carry too high. */
  function Overcounts(pieces: seq<Bytes>): nat {
    if pieces == [] then 0 else
      var n := |pieces| - 1;
      Overcounts(pieces[..n]) + Miscounts(|Joined(pieces[..n])|, |pieces[n]|)
  }

  /** What hashing in pieces yields. */
  function Streamed(pieces: seq<Bytes>): Bytes {
    DigestAs(Joined(pieces), Bits(|Joined(pieces)|, Overcounts(pieces)))
  }

  lemma {:induction false} ShortPieces(pieces: seq<Bytes>)
    requires forall i :: 0 <= i < |pieces| ==> |pieces[i]| < 0x2000_0000
    ensures Overcounts(pieces) == 0
  {
    if pieces != [] {
      var n := |pieces| - 1;
      ShortPieces(pieces[..n]);
      ShortCounts(|Joined(pieces[..n])|, |pieces[n]|);
    }
  }

  /** Nothing miscounted: the digest of the standard, whatever the pieces. */
  lemma StreamedRight(pieces: seq<Bytes>)
    requires Overcounts(pieces) == 0
    ensures Streamed(pieces) == Digest(Joined(pieces))
  {
    hide DigestAs;
  }

  /**
   * The message that is hashed for the pieces is the padded message of the
   * standard exactly when the miscounted pieces number a multiple of 2^32.
   */
  lemma StreamedExact(pieces: seq<Bytes>)
    ensures PadAs(Joined(pieces), Bits(|Joined(pieces)|, Overcounts(pieces))) == Pad(Joined(pieces))
      <==> Overcounts(pieces) % TwoTo32 == 0
  {
    PadExact(Joined(pieces), Overcounts(pieces));
  }

  /** Hashing a message in any pieces: the message whole, with the bits counted for the pieces. */
  method HashPieces(pieces: seq<Bytes>) returns (digest: Bytes)
    ensures digest == Streamed(pieces)
    ensures (forall i :: 0 <= i < |pieces| ==> |pieces[i]| < 0x2000_0000) ==> digest == Digest(Joined(pieces))
  {
    hide DigestAs, Context.Valid, Miscounts, Bits;
    var ctx := new Context();
    assert pieces[..0] == [];
    for i := 0 to |pieces|
      invariant fresh(ctx) && fresh(ctx.state) && fresh(ctx.buffer) && ctx.Valid()
      invariant ctx.msg == Joined(pieces[..i]) && ctx.over == Overcounts(pieces[..i])
    {
      assert pieces[..i + 1][..i] == pieces[..i];
      ctx.Update(pieces[i]);
    }
    assert pieces[..|pieces|] == pieces;
    digest := ctx.Final();
    if forall i :: 0 <= i < |pieces| ==> |pieces[i]| < 0x2000_0000 {
      ShortPieces(pieces);
      StreamedRight(pieces);
    }
  }

  // --------------------------------------------------------------------- HMAC

  function XorByte(x: Byte, y: Byte): Byte {
    XorSmall(x, y, 8);
    OnBits(Xor2, x, y, 0, 8)
  }

  lemma {:induction false} XorBound(x: nat, y: nat, n: nat)
    ensures OnBits(Xor2, x, y, 0, n) < Pow2(n)
  {
    if n > 0 {
      XorBound(x / 2, y / 2, n - 1);
    }
  }

  lemma XorSmall(x: nat, y: nat, n: nat)
    requires n == 8
    ensures OnBits(Xor2, x, y, 0, n) < 256
  {
    XorBound(x, y, n);
    Pow2Byte();
  }

  lemma {:induction false} XorChain(x: nat, y: nat, z: nat, n: nat)
    ensures OnBits(Xor2, OnBits(Xor2, x, y, 0, n), OnBits(Xor2, y, z, 0, n), 0, n) == OnBits(Xor2, x, z, 0, n)
  {
    if n > 0 {
      var a, b := OnBits(Xor2, x / 2, y / 2, 0, n - 1), OnBits(Xor2, y / 2, z / 2, 0, n - 1);
      XorChain(x / 2, y / 2, z / 2, n - 1);
      XorStep(x, y, n);
      XorStep(y, z, n);
      XorStep(OnBits(Xor2, x, y, 0, n), OnBits(Xor2, y, z, 0, n), n);
      XorStep(x, z, n);
    }
  }

  lemma XorStep(x: nat, y: nat, n: nat)
    requires n > 0
    ensures OnBits(Xor2, x, y, 0, n) / 2 == OnBits(Xor2, x / 2, y / 2, 0, n - 1)
    ensures OnBits(Xor2, x, y, 0, n) % 2 == if x % 2 == y % 2 then 0 else 1
    ensures OnBits(Xor2, x, y, 0, n) == 2 * (OnBits(Xor2, x, y, 0, n) / 2) + OnBits(Xor2, x, y, 0, n) % 2
  {
  }

  /** xor_key: every byte of the key, four at a time in the source. */
  method XorKey(key: array<Byte>, pad: Byte)
    requires key.Length == 64
    modifies key
    ensures forall i :: 0 <= i < 64 ==> key[i] == XorByte(old(key[i]), pad)
  {
    hide XorByte;
    for i := 0 to 64
      invariant forall j :: 0 <= j < i ==> key[j] == XorByte(old(key[j]), pad)
      invariant forall j :: i <= j < 64 ==> key[j] == old(key[j])
    {
      key[i] := XorByte(key[i], pad);
    }
  }

  /** The key of RFC 2104: hashed when longer than a block, then filled with zeros. */
  function BlockKey(key: Bytes): Bytes {
    PlainSize(key);
    var k := if |key| > 64 then Digest(key) else key;
    k + Zeros(64 - |k|)
  }

  lemma PlainSize(m: Bytes)
    ensures |Digest(m)| == 20
  {
    hide Blocks, PadAs;
  }

  function WithPad(key: Bytes, pad: Byte): Bytes {
    seq(|key|, i requires 0 <= i < |key| => XorByte(key[i], pad))
  }

  function Hmac(key: Bytes, text: Bytes): Bytes {
    Digest(WithPad(BlockKey(key), 0x5c) + Digest(WithPad(BlockKey(key), 0x36) + text))
  }

  /** What lhmac_sha1 computes, with each text as it reaches the hash. */
  function StreamedHmac(key: Bytes, text: Bytes): Bytes {
    DigestSize([key]);
    var k := if |key| > 64 then Streamed([key]) else key;
    var block := k + Zeros(64 - |k|);
    Streamed([WithPad(block, 0x5c), Streamed([WithPad(block, 0x36), text])])
  }

  /** The HMAC of RFC 2104 for a key below 2^29 bytes and a text that is not miscounted. */
  lemma HmacRight(key: Bytes, text: Bytes)
    requires |key| < 0x2000_0000 && Miscounts(64, |text|) == 0
    ensures StreamedHmac(key, text) == Hmac(key, text)
  {
    hide Digest, Zeros, WithPad, Bits, Miscounts, DigestAs, Streamed;
    DigestSize([key]);
    OnePiece(key);
    ShortCounts(0, |key|);
    PlainDigest([key]);
    var k := if |key| > 64 then Streamed([key]) else key;
    assert k == if |key| > 64 then Digest(key) else key;
    ZerosSize(64 - |k|);
    var block := BlockKey(key);
    WithPadSize(block, 0x36);
    WithPadSize(block, 0x5c);
    var inner := WithPad(block, 0x36);
    TwoPieces(inner, text);
    ShortCounts(0, 64);
    PlainDigest([inner, text]);
    var d := Digest(inner + text);
    DigestSize([inner, text]);
    TwoPieces(WithPad(block, 0x5c), d);
    ShortCounts(64, 20);
    PlainDigest([WithPad(block, 0x5c), d]);
  }

  lemma PlainDigest(pieces: seq<Bytes>)
    requires Overcounts(pieces) == 0
    ensures Streamed(pieces) == Digest(Joined(pieces))
  {
    StreamedRight(pieces);
  }

  lemma ZerosSize(k: nat)
    ensures |Zeros(k)| == k
  {
  }

  lemma WithPadSize(key: Bytes, pad: Byte)
    ensures |WithPad(key, pad)| == |key|
  {
  }

  lemma OnePiece(a: Bytes)
    ensures Joined([a]) == a && Overcounts([a]) == Miscounts(0, |a|)
  {
    hide Miscounts;
    assert [a][..0] == [];
  }

  lemma TwoPieces(a: Bytes, b: Bytes)
    ensures Joined([a, b]) == a + b && Overcounts([a, b]) == Miscounts(0, |a|) + Miscounts(|a|, |b|)
  {
    hide Miscounts;
    OnePiece(a);
    assert [a, b][..1] == [a];
  }

  lemma DigestSize(pieces: seq<Bytes>)
    ensures |Streamed(pieces)| == 20
  {
    hide Blocks, PadAs, Bits, Joined, Overcounts;
  }

  /** 0x5c turned into 0x36 by their difference. */
  lemma PadChange(x: Byte)
    ensures XorByte(XorByte(x, 0x5c), 0x6a) == XorByte(x, 0x36)
  {
    PadDifference();
    hide OnBits;
    XorChain(x, 0x5c, 0x36, 8);
  }

  lemma PadDifference()
    ensures OnBits(Xor2, 0x5c, 0x36, 0, 8) == 0x6a
  {
    assert OnBits(Xor2, 0, 0, 0, 1) == 0;
    assert OnBits(Xor2, 1, 0, 0, 2) == 1;
    assert OnBits(Xor2, 2, 1, 0, 3) == 3;
    assert OnBits(Xor2, 5, 3, 0, 4) == 6;
    assert OnBits(Xor2, 11, 6, 0, 5) == 13;
    assert OnBits(Xor2, 23, 13, 0, 6) == 26;
    assert OnBits(Xor2, 46, 27, 0, 7) == 53;
    assert OnBits(Xor2, 92, 54, 0, 8) == 106;
  }

  /** lhmac_sha1 */
  method HmacSha1(key: Bytes, text: Bytes) returns (digest: Bytes)
    ensures digest == StreamedHmac(key, text)
    ensures |key| < 0x2000_0000 && Miscounts(64, |text|) == 0 ==> digest == Hmac(key, text)
  {
    hide DigestAs, Digest, XorByte, Zeros, Context.Valid, WithPad, Miscounts, Bits, Joined, Overcounts, Hmac;
    var k := key;
    DigestSize([key]);
    if |key| > 64 {
      k := OnePieceHash(key);
    }
    var rkey := new Byte[64](i requires 0 <= i < 64 => if i < |k| then k[i] else 0);
    ghost var block := rkey[..];
    FilledUp(k, block);
    XorKey(rkey, 0x5c);
    Padded(rkey[..], block, 0x5c);
    var ctx1 := new Context();
    ctx1.Update(rkey[..]);
    ghost var outer := WithPad(block, 0x5c);
    assert ctx1.msg == outer;
    XorKey(rkey, 0x6a);
    Repadded(rkey[..], block);
    ghost var inner := WithPad(block, 0x36);
    var ctx2 := new Context();
    ctx2.Update(rkey[..]);
    assert ctx2.msg == inner;
    ctx2.Update(text);
    TwoPieces(inner, text);
    assert ctx2.msg == inner + text;
    var digest2 := ctx2.Final();
    assert digest2 == Streamed([inner, text]);
    ctx1.Update(digest2);
    TwoPieces(outer, digest2);
    digest := ctx1.Final();
    if |key| < 0x2000_0000 && Miscounts(64, |text|) == 0 {
      HmacRight(key, text);
    }
  }

  /** A text hashed in a single call, as lsha1 does it. */
  method OnePieceHash(m: Bytes) returns (digest: Bytes)
    ensures digest == Streamed([m])
  {
    hide DigestAs, Context.Valid, Miscounts, Bits, Joined, Overcounts;
    OnePiece(m);
    var ctx := new Context();
    ctx.Update(m);
    assert ctx.msg == m;
    digest := ctx.Final();
  }

  lemma FilledUp(k: Bytes, block: Bytes)
    requires |k| <= 64 && |block| == 64
    requires forall i :: 0 <= i < 64 ==> block[i] == if i < |k| then k[i] else 0
    ensures |Zeros(64 - |k|)| == 64 - |k| && block == k + Zeros(64 - |k|)
  {
  }

  lemma Padded(s: Bytes, block: Bytes, pad: Byte)
    requires |s| == |block| && forall i :: 0 <= i < |s| ==> s[i] == XorByte(block[i], pad)
    ensures s == WithPad(block, pad) && |s| == |block|
  {
    hide XorByte;
  }

  lemma Repadded(s: Bytes, block: Bytes)
    requires |s| == |block| && forall i :: 0 <= i < |s| ==> s[i] == XorByte(WithPad(block, 0x5c)[i], 0x6a)
    ensures s == WithPad(block, 0x36)
  {
    hide XorByte;
    forall i | 0 <= i < |s|
      ensures s[i] == WithPad(block, 0x36)[i]
    {
      PadChange(block[i]);
    }
  }
}
