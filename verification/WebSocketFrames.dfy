/**
 * WebSocket framing as lualib-src/lua-websocketnetpack.c understands it:
 * reading a header, unmasking, and cutting a whole byte stream into payloads
 * (sections 5.2 and 5.3 of RFC 6455, final frames only).
 */
module WebSocketFrames {
  import opened Basics
  import opened Bits

  const MaxPackSize: int := 10 * 1024

  // ----------------------------------------------------------------- headers

  /**
   * What the first bytes of a stream say: too few to tell, no final frame, a
   * length that is skipped, or a frame; and two lengths that the source takes
   * for something else, because it keeps them in a signed int: -1, which it
   * uses for a short header, and the other negative ones.
   */
  datatype Header = TooShort | Stuck | Bad | TooLong | Negative | Frame(head: nat, size: nat, mask: Bytes)

  /** Where the extended length ends, by the 7-bit length. */
  function LengthEnd(length: int): nat {
    if length < 126 then 2 else if length == 126 then 4 else 10
  }

  /** A 32-bit word as a signed int. */
  function Signed(w: nat): int {
    if w >= 0x8000_0000 then w - 0x1_0000_0000 else w
  }

  /** The length fields; of a 64-bit length the low 32 bits reach the int that the source keeps. */
  function PackSize(b: Bytes, length: int): int
    requires LengthEnd(length) <= |b| && 0 <= length
  {
    if length < 126 then length else if length == 126 then BigEndianValue(b[2..4]) else Signed(BigEndianValue(b[6..10]))
  }

  /** read_size, and the comparisons that follow every call of it; -2 is its mark for bytes to skip. */
  function ReadSize(b: Bytes): Header {
    if |b| < 2 then TooShort
    else if b[0] / 16 % 8 != 0 || b[0] / 128 == 0 || b[0] % 16 == 0 then Bad
    else
      var masked, length := b[1] / 128 == 1, b[1] % 128;
      var end := LengthEnd(length);
      if |b| < end || (masked && |b| < end + 4) then TooShort
      else if PackSize(b, length) == -1 then Stuck
      else if PackSize(b, length) == -2 || PackSize(b, length) > MaxPackSize then TooLong
      else if PackSize(b, length) < 0 then Negative
      else if masked then Frame(end + 4, PackSize(b, length), b[end..end + 4])
      else Frame(end, PackSize(b, length), [])
  }

  lemma ReadSizeShape(b: Bytes)
    ensures ReadSize(b) == Bad || ReadSize(b) == TooLong || ReadSize(b) == Negative ==> |b| >= 2
    ensures ReadSize(b).Frame? ==> 2 <= ReadSize(b).head <= |b| && |ReadSize(b).mask| in {0, 4}
    ensures b == [] ==> ReadSize(b) == TooShort
  {
  }

  /** More bytes never change what a header already says. */
  lemma SliceSame(a: Bytes, b: Bytes, i: nat, j: nat)
    requires i <= j <= |a|
    ensures (a + b)[i..j] == a[i..j]
  {
  }

  lemma ReadSizeStable(a: Bytes, b: Bytes)
    requires ReadSize(a) != TooShort
    ensures ReadSize(a + b) == ReadSize(a)
  {
    var c := a + b;
    assert c[0] == a[0] && c[1] == a[1];
    if ReadSize(a) != Bad {
      var end := LengthEnd(a[1] % 128);
      if end == 4 {
        SliceSame(a, b, 2, 4);
      } else if end == 10 {
        SliceSame(a, b, 6, 10);
      }
      if a[1] / 128 == 1 {
        SliceSame(a, b, end, end + 4);
      }
    }
  }

  // ------------------------------------------------------------------ masking

  /** Exclusive or of the low `n` bits. */
  function XorBits(a: nat, b: nat, n: nat): nat {
    if n == 0 then 0 else XorBits(a / 2, b / 2, n - 1) * 2 + (a + b) % 2
  }

  lemma {:induction false} XorBelow(a: nat, b: nat, n: nat)
    ensures XorBits(a, b, n) < Pow2(n)
  {
    if n > 0 {
      XorBelow(a / 2, b / 2, n - 1);
    }
  }

  lemma {:induction false} XorTwice(a: nat, b: nat, n: nat)
    requires a < Pow2(n)
    ensures XorBits(XorBits(a, b, n), b, n) == a
  {
    if n > 0 {
      var h := XorBits(a / 2, b / 2, n - 1);
      var x := XorBits(a, b, n);
      assert x == h * 2 + (a + b) % 2;
      LowBit(h, a, b);
      assert XorBits(x, b, n) == XorBits(h, b / 2, n - 1) * 2 + a % 2;
      XorTwice(a / 2, b / 2, n - 1);
    }
  }

  lemma LowBit(h: nat, a: nat, b: nat)
    ensures (h * 2 + (a + b) % 2) / 2 == h && (h * 2 + (a + b) % 2 + b) % 2 == a % 2
  {
  }

  function Xor(a: Byte, b: Byte): Byte {
    XorBelow(a, b, 8);
    assert Pow2(8) == 256 by { Pow2Byte(); }
    XorBits(a, b, 8)
  }

  lemma XorHalf(a: nat, b: nat, n: nat)
    requires n > 0
    ensures XorBits(a, b, n) == 2 * XorBits(a / 2, b / 2, n - 1) + if a % 2 != b % 2 then 1 else 0
  {
  }

  /** A bit of the exclusive or is set if and only if the two bits differ. */
  lemma {:induction false} XorBit(a: nat, b: nat, n: nat, k: nat)
    requires k < n
    ensures Bit(XorBits(a, b, n), k) == 1 <==> Bit(a, k) != Bit(b, k)
  {
    hide Bit, XorBits;
    var x := XorBits(a, b, n);
    XorHalf(a, b, n);
    if k == 0 {
      LowestBit(x);
      LowestBit(a);
      LowestBit(b);
    } else {
      HigherBit(x, k);
      HigherBit(a, k);
      HigherBit(b, k);
      XorBit(a / 2, b / 2, n - 1, k - 1);
      assert x / 2 == XorBits(a / 2, b / 2, n - 1);
    }
  }

  function MaskAt(mask: Bytes, k: nat): Byte
    requires |mask| == 4
  {
    mask[k % 4]
  }

  /** The payload with the mask removed, or put on, from offset `at` of the frame. */
  function Unmask(data: Bytes, mask: Bytes, at: nat): Bytes {
    if |mask| != 4 then data
    else seq(|data|, i requires 0 <= i < |data| => Xor(data[i], MaskAt(mask, i + at)))
  }

  lemma UnmaskAt(data: Bytes, mask: Bytes, at: nat)
    ensures |Unmask(data, mask, at)| == |data|
  {
    hide Xor;
  }

  lemma UnmaskOne(data: Bytes, mask: Bytes, at: nat, i: nat)
    requires |mask| == 4 && i < |data|
    ensures |Unmask(data, mask, at)| == |data| && Unmask(data, mask, at)[i] == Xor(data[i], MaskAt(mask, i + at))
  {
    hide Xor, MaskAt;
  }

  /** A bit of a payload is set exactly when it differs between the octet of the frame and that of the mask. */
  ghost predicate BitsDiffer(out: Bytes, data: Bytes, mask: Bytes, at: nat) {
    && |mask| == 4 && |out| == |data|
    && forall i: nat, k: nat :: i < |data| && k < 8 ==>
         (Bit(out[i], k) == 1 <==> Bit(data[i], k) != Bit(mask[(i + at) % 4], k))
  }

  lemma UnmaskBits(data: Bytes, mask: Bytes, at: nat)
    requires |mask| == 4
    ensures BitsDiffer(Unmask(data, mask, at), data, mask, at)
  {
    UnmaskAt(data, mask, at);
    hide Unmask;
    forall i: nat, k: nat | i < |data| && k < 8
      ensures Bit(Unmask(data, mask, at)[i], k) == 1 <==> Bit(data[i], k) != Bit(mask[(i + at) % 4], k)
    {
      UnmaskOne(data, mask, at, i);
      XorBit(data[i], mask[(i + at) % 4], 8, k);
    }
  }

  lemma UnmaskSame(a: Bytes, b: Bytes, mask: Bytes, at: nat, i: nat)
    requires |mask| == 4 && i < |a| + |b|
    requires |Unmask(a + b, mask, at)| == |a| + |b|
    requires |Unmask(a, mask, at)| == |a| && |Unmask(b, mask, at + |a|)| == |b|
    ensures Unmask(a + b, mask, at)[i] == (Unmask(a, mask, at) + Unmask(b, mask, at + |a|))[i]
  {
    hide Unmask, Xor, MaskAt;
    UnmaskOne(a + b, mask, at, i);
    if i < |a| {
      UnmaskOne(a, mask, at, i);
    } else {
      UnmaskOne(b, mask, at + |a|, i - |a|);
      assert i - |a| + (at + |a|) == i + at;
    }
  }

  lemma UnmaskAppend(a: Bytes, b: Bytes, mask: Bytes, at: nat)
    ensures Unmask(a + b, mask, at) == Unmask(a, mask, at) + Unmask(b, mask, at + |a|)
  {
    UnmaskAt(a + b, mask, at);
    UnmaskAt(a, mask, at);
    UnmaskAt(b, mask, at + |a|);
    if |mask| == 4 {
      hide Unmask, Xor, MaskAt;
      forall i | 0 <= i < |a| + |b|
        ensures Unmask(a + b, mask, at)[i] == (Unmask(a, mask, at) + Unmask(b, mask, at + |a|))[i]
      {
        UnmaskSame(a, b, mask, at, i);
      }
    }
  }

  lemma UnmaskTwice(data: Bytes, mask: Bytes)
    ensures Unmask(Unmask(data, mask, 0), mask, 0) == data
  {
    hide Xor;
    if |mask| == 4 {
      forall i | 0 <= i < |data|
        ensures Xor(Xor(data[i], MaskAt(mask, i)), MaskAt(mask, i)) == data[i]
      {
        XorInverse(data[i], MaskAt(mask, i));
      }
    }
  }

  lemma XorInverse(a: Byte, b: Byte)
    ensures Xor(Xor(a, b), b) == a
  {
    Pow2Byte();
    XorTwice(a, b, 8);
  }

  // -------------------------------------------------------- the whole stream

  /** A stream cut into payloads, and what is left over at its end. */
  datatype Cut = Cut(payloads: seq<Bytes>, rest: Bytes)

  /** As push_more does it, which skips every negative length but -1. */
  function Split(s: Bytes): Cut
    decreases |s|
  {
    match ReadSize(s)
    case TooShort => Cut([], s)
    case Stuck => Cut([], s)
    case Bad => ReadSizeShape(s); Split(s[2..])
    case TooLong => ReadSizeShape(s); Split(s[2..])
    case Negative => ReadSizeShape(s); Split(s[2..])
    case Frame(head, size, mask) =>
      ReadSizeShape(s);
      if |s| < head + size then Cut([], s)
      else
        var tail := Split(s[head + size..]);
        Cut([Unmask(s[head..head + size], mask, 0)] + tail.payloads, tail.rest)
  }

  /** The first frame comes off; the rest of the stream follows. */
  lemma SplitFrame(s: Bytes, head: nat, size: nat, mask: Bytes)
    requires ReadSize(s) == Frame(head, size, mask) && |s| >= head + size
    ensures Split(s).payloads == [Unmask(s[head..head + size], mask, 0)] + Split(s[head + size..]).payloads
    ensures Split(s).rest == Split(s[head + size..]).rest
  {
    hide ReadSize, Unmask;
  }

  /** Every payload that comes out of a masked frame is the bitwise difference of the frame's octets and the mask's. */
  lemma DeliveredBits(s: Bytes, head: nat, size: nat, mask: Bytes)
    requires ReadSize(s) == Frame(head, size, mask) && |s| >= head + size && |mask| == 4
    ensures var out := Split(s).payloads; |out| > 0 && BitsDiffer(out[0], s[head..head + size], mask, 0)
  {
    hide ReadSize, Unmask, Split, BitsDiffer;
    SplitFrame(s, head, size, mask);
    UnmaskBits(s[head..head + size], mask, 0);
  }

  ghost predicate Joins(a: Bytes, b: Bytes) {
    Split(a + b) == Cut(Split(a).payloads + Split(Split(a).rest + b).payloads, Split(Split(a).rest + b).rest)
  }

  /** Cutting a stream in two does not change what comes out. */
  lemma {:induction false} SplitAppend(a: Bytes, b: Bytes)
    ensures Joins(a, b)
    decreases |a|
  {
    hide ReadSize, Unmask;
    ReadSizeShape(a);
    match ReadSize(a)
    case TooShort =>
    case Stuck =>
    case Bad =>
      ReadSizeStable(a, b);
      assert (a + b)[2..] == a[2..] + b;
      SplitAppend(a[2..], b);
    case Negative =>
      ReadSizeStable(a, b);
      assert (a + b)[2..] == a[2..] + b;
      SplitAppend(a[2..], b);
    case TooLong =>
      ReadSizeStable(a, b);
      assert (a + b)[2..] == a[2..] + b;
      SplitAppend(a[2..], b);
    case Frame(head, size, mask) =>
      ReadSizeStable(a, b);
      if |a| >= head + size {
        SplitAppend(a[head + size..], b);
        JoinFrame(a, b, head, size, mask);
      }
  }

  lemma JoinFrame(a: Bytes, b: Bytes, head: nat, size: nat, mask: Bytes)
    requires ReadSize(a) == ReadSize(a + b) == Frame(head, size, mask) && |a| >= head + size
    requires Joins(a[head + size..], b)
    ensures Joins(a, b)
  {
    hide ReadSize, Unmask, Split;
    var n := head + size;
    SplitFrame(a, head, size, mask);
    SplitFrame(a + b, head, size, mask);
    assert (a + b)[n..] == a[n..] + b;
    assert (a + b)[head..n] == a[head..n];
    var first := [Unmask(a[head..n], mask, 0)];
    var p, q := Split(a[n..]).payloads, Split(Split(a[n..]).rest + b).payloads;
    assert first + (p + q) == first + p + q;
  }

  // ------------------------------------------------------------- encoding

  datatype Message = Message(opcode: int, mask: Bytes, payload: Bytes)

  predicate Sendable(m: Message) {
    1 <= m.opcode <= 15 && |m.mask| in {0, 4} && |m.payload| <= MaxPackSize
  }

  /** The number whose bits below k are those in which a and b differ. */
  function Differences(a: nat, b: nat, k: nat): (d: nat)
    ensures d < Pow2(k)
  {
    if k == 0 then 0
    else Differences(a, b, k - 1) + if Bit(a, k - 1) != Bit(b, k - 1) then Pow2(k - 1) else 0
  }

  /** Masking as section 5.3 of RFC 6455 has it: octet i with octet i modulo 4 of the mask, bit by bit. */
  function Masked(payload: Bytes, mask: Bytes): Bytes {
    if |mask| != 4 then payload
    else
      Pow2Byte();
      seq(|payload|, i requires 0 <= i < |payload| => Differences(payload[i], mask[i % 4], 8))
  }

  lemma {:induction false} DifferencesHalf(a: nat, b: nat, k: nat)
    requires k > 0
    ensures Differences(a, b, k) == 2 * Differences(a / 2, b / 2, k - 1) + if a % 2 != b % 2 then 1 else 0
  {
    hide Bit;
    LowestBit(a);
    LowestBit(b);
    if k == 1 {
      assert Pow2(0) == 1 && Differences(a, b, 0) == 0 && Differences(a / 2, b / 2, 0) == 0;
    } else {
      DifferencesHalf(a, b, k - 1);
      HigherBit(a, k - 1);
      HigherBit(b, k - 1);
    }
  }

  lemma {:induction false} DifferencesAreXor(a: nat, b: nat, n: nat)
    ensures Differences(a, b, n) == XorBits(a, b, n)
  {
    if n > 0 {
      hide Differences, XorBits;
      DifferencesAreXor(a / 2, b / 2, n - 1);
      DifferencesHalf(a, b, n);
      XorHalf(a, b, n);
    }
  }

  lemma MaskedIs(payload: Bytes, mask: Bytes)
    ensures Masked(payload, mask) == Unmask(payload, mask, 0)
  {
    hide Differences, XorBits;
    if |mask| == 4 {
      forall i | 0 <= i < |payload|
        ensures Masked(payload, mask)[i] == Unmask(payload, mask, 0)[i]
      {
        DifferencesAreXor(payload[i], mask[i % 4], 8);
      }
    }
  }

  /** The masked example of section 5.7 of RFC 6455: "Hello" under the mask 37 fa 21 3d. */
  lemma MaskedHello()
    ensures Split([0x81, 0x85, 0x37, 0xfa, 0x21, 0x3d, 0x7f, 0x9f, 0x4d, 0x51, 0x58]) ==
      Cut([[0x48, 0x65, 0x6c, 0x6c, 0x6f]], [])
  {
    hide Split, Unmask;
    HelloBody();
    OneFrame([0x37, 0xfa, 0x21, 0x3d], [0x7f, 0x9f, 0x4d, 0x51, 0x58]);
    assert [0x81, 0x85] + [0x37, 0xfa, 0x21, 0x3d] + [0x7f, 0x9f, 0x4d, 0x51, 0x58] ==
           [0x81, 0x85, 0x37, 0xfa, 0x21, 0x3d, 0x7f, 0x9f, 0x4d, 0x51, 0x58];
  }

  lemma OneFrame(mask: Bytes, body: Bytes)
    requires |mask| == 4 && |body| == 5
    ensures Split([0x81, 0x85] + mask + body) == Cut([Unmask(body, mask, 0)], [])
  {
    var s := [0x81, 0x85] + mask + body;
    assert s[2..6] == mask && s[6..11] == body && s[11..] == [];
    assert ReadSize(s) == Frame(6, 5, mask);
    assert Split([]) == Cut([], []) by { ReadSizeShape([]); }
    hide ReadSize, Unmask, Split;
    SplitFrame(s, 6, 5, mask);
  }

  lemma HelloBody()
    ensures Unmask([0x7f, 0x9f, 0x4d, 0x51, 0x58], [0x37, 0xfa, 0x21, 0x3d], 0) == [0x48, 0x65, 0x6c, 0x6c, 0x6f]
  {
    hide Unmask, Xor;
    HelloOctets();
    FiveOctets([0x7f, 0x9f, 0x4d, 0x51, 0x58], [0x37, 0xfa, 0x21, 0x3d], [0x48, 0x65, 0x6c, 0x6c, 0x6f]);
  }

  lemma FiveOctets(body: Bytes, mask: Bytes, out: Bytes)
    requires |body| == |out| == 5 && |mask| == 4
    requires Xor(body[0], mask[0]) == out[0] && Xor(body[1], mask[1]) == out[1] && Xor(body[2], mask[2]) == out[2]
    requires Xor(body[3], mask[3]) == out[3] && Xor(body[4], mask[0]) == out[4]
    ensures Unmask(body, mask, 0) == out
  {
    hide Unmask, Xor;
    UnmaskAt(body, mask, 0);
    forall i | 0 <= i < 5
      ensures Unmask(body, mask, 0)[i] == out[i]
    {
      UnmaskOne(body, mask, 0, i);
    }
  }

  lemma HelloOctets()
    ensures Xor(0x7f, 0x37) == 0x48 && Xor(0x9f, 0xfa) == 0x65 && Xor(0x4d, 0x21) == 0x6c
    ensures Xor(0x51, 0x3d) == 0x6c && Xor(0x58, 0x37) == 0x6f
  {
    hide Xor, XorBits;
    XorOctet(0x7f, 0x37, 0x48, [0, 1, 1, 1, 1, 1, 1, 1], [0, 0, 1, 1, 0, 1, 1, 1]);
    XorOctet(0x9f, 0xfa, 0x65, [1, 0, 0, 1, 1, 1, 1, 1], [1, 1, 1, 1, 1, 0, 1, 0]);
    XorOctet(0x4d, 0x21, 0x6c, [0, 1, 0, 0, 1, 1, 0, 1], [0, 0, 1, 0, 0, 0, 0, 1]);
    XorOctet(0x51, 0x3d, 0x6c, [0, 1, 0, 1, 0, 0, 0, 1], [0, 0, 1, 1, 1, 1, 0, 1]);
    XorOctet(0x58, 0x37, 0x6f, [0, 1, 0, 1, 1, 0, 0, 0], [0, 0, 1, 1, 0, 1, 1, 1]);
  }

  function Differ(i: nat, j: nat): nat {
    if i != j then 1 else 0
  }

  /** The exclusive or of octets given by their binary digits. */
  lemma XorOctet(x: Byte, y: Byte, z: Byte, a: seq<nat>, b: seq<nat>)
    requires |a| == |b| == 8 && forall i :: 0 <= i < 8 ==> a[i] < 2 && b[i] < 2
    requires x == 128 * a[0] + 64 * a[1] + 32 * a[2] + 16 * a[3] + 8 * a[4] + 4 * a[5] + 2 * a[6] + a[7]
    requires y == 128 * b[0] + 64 * b[1] + 32 * b[2] + 16 * b[3] + 8 * b[4] + 4 * b[5] + 2 * b[6] + b[7]
    requires z == 128 * Differ(a[0], b[0]) + 64 * Differ(a[1], b[1]) + 32 * Differ(a[2], b[2]) +
                  16 * Differ(a[3], b[3]) + 8 * Differ(a[4], b[4]) + 4 * Differ(a[5], b[5]) + 2 * Differ(a[6], b[6]) +
                  Differ(a[7], b[7])
    ensures Xor(x, y) == z
  {
    assert XorBits(0, 0, 0) == 0;
    hide XorBits, Differ, Pow2;
    XorFour(0, 0, 0, a[0], a[1], a[2], a[3], b[0], b[1], b[2], b[3]);
    XorFour(8 * a[0] + 4 * a[1] + 2 * a[2] + a[3], 8 * b[0] + 4 * b[1] + 2 * b[2] + b[3], 4,
            a[4], a[5], a[6], a[7], b[4], b[5], b[6], b[7]);
  }

  lemma XorGrows(a: nat, b: nat, n: nat, i: nat, j: nat)
    requires i < 2 && j < 2
    ensures XorBits(2 * a + i, 2 * b + j, n + 1) == 2 * XorBits(a, b, n) + Differ(i, j)
  {
    hide XorBits;
    XorHalf(2 * a + i, 2 * b + j, n + 1);
  }

  /** Four more binary digits. */
  lemma XorFour(x: nat, y: nat, n: nat, a: nat, b: nat, c: nat, d: nat, e: nat, f: nat, g: nat, h: nat)
    requires a < 2 && b < 2 && c < 2 && d < 2 && e < 2 && f < 2 && g < 2 && h < 2
    ensures XorBits(16 * x + 8 * a + 4 * b + 2 * c + d, 16 * y + 8 * e + 4 * f + 2 * g + h, n + 4)
            == 16 * XorBits(x, y, n) + 8 * Differ(a, e) + 4 * Differ(b, f) + 2 * Differ(c, g) + Differ(d, h)
  {
    hide XorBits;
    XorGrows(x, y, n, a, e);
    XorGrows(2 * x + a, 2 * y + e, n + 1, b, f);
    XorGrows(4 * x + 2 * a + b, 4 * y + 2 * e + f, n + 2, c, g);
    XorGrows(8 * x + 4 * a + 2 * b + c, 8 * y + 4 * e + 2 * f + g, n + 3, d, h);
  }

  /** A final frame: the header of lpack, with an optional mask. */
  function Encode(m: Message): Bytes
    requires Sendable(m)
  {
    var n, bit := |m.payload|, if |m.mask| == 4 then 128 else 0;
    [128 + m.opcode] + LengthField(n, bit) + m.mask + Masked(m.payload, m.mask)
  }

  function LengthField(n: nat, bit: int): Bytes
    requires n <= MaxPackSize && bit in {0, 128}
  {
    if n < 126 then [bit + n] else [bit + 126] + BigEndian(n, 2)
  }

  lemma LengthRead(s: Bytes, n: nat, bit: int, rest: Bytes)
    requires n <= MaxPackSize && bit in {0, 128} && |s| > 0 && s[1..] == LengthField(n, bit) + rest
    ensures |s| >= 2 && s[1] / 128 == bit / 128 && LengthEnd(s[1] % 128) == 1 + |LengthField(n, bit)|
    ensures LengthEnd(s[1] % 128) <= |s| && PackSize(s, s[1] % 128) == n
    ensures s[LengthEnd(s[1] % 128)..] == rest
  {
    assert Power256(2) == 256 * (256 * Power256(0));
    BigEndianWord(n, 2);
    var f := LengthField(n, bit);
    assert s[1] == s[1..][0];
    assert s[1 + |f|..] == s[1..][|f|..] == rest;
    if n >= 126 {
      assert f[1..] == BigEndian(n, 2);
      assert s[2..4] == s[1..][1..3] == f[1..3];
    }
  }

  lemma FrameHeader(opcode: int, mask: Bytes, body: Bytes, tail: Bytes)
    requires 1 <= opcode <= 15 && |mask| in {0, 4} && |body| <= MaxPackSize
    ensures var f := LengthField(|body|, if |mask| == 4 then 128 else 0);
      ReadSize([128 + opcode] + f + mask + body + tail) == Frame(1 + |f| + |mask|, |body|, mask)
  {
    var n, bit := |body|, if |mask| == 4 then 128 else 0;
    var f := LengthField(n, bit);
    var s := [128 + opcode] + f + mask + body + tail;
    hide LengthField;
    assert s[0] == 128 + opcode;
    assert s[1..] == f + (mask + body + tail);
    LengthRead(s, n, bit, mask + body + tail);
    hide PackSize, LengthEnd;
    var end := LengthEnd(s[1] % 128);
    assert s[end..][..|mask|] == mask;
  }

  lemma EncodeHeader(m: Message, tail: Bytes)
    requires Sendable(m)
    ensures var h := ReadSize(Encode(m) + tail);
      h.Frame? && h.head + h.size == |Encode(m)| && h.size == |m.payload| && h.mask == m.mask &&
      Encode(m)[h.head..] == Unmask(m.payload, m.mask, 0)
  {
    var body := Unmask(m.payload, m.mask, 0);
    UnmaskAt(m.payload, m.mask, 0);
    MaskedIs(m.payload, m.mask);
    var f := LengthField(|body|, if |m.mask| == 4 then 128 else 0);
    assert Encode(m) == [128 + m.opcode] + f + m.mask + body;
    hide ReadSize, Unmask, Masked, Encode, LengthField, Xor, XorBits, Differences;
    FrameHeader(m.opcode, m.mask, body, tail);
    assert Encode(m)[1 + |f| + |m.mask|..] == body;
  }

  function EncodeAll(ms: seq<Message>): Bytes
    requires forall i :: 0 <= i < |ms| ==> Sendable(ms[i])
  {
    if ms == [] then [] else Encode(ms[0]) + EncodeAll(ms[1..])
  }

  function Payloads(ms: seq<Message>): seq<Bytes> {
    if ms == [] then [] else [ms[0].payload] + Payloads(ms[1..])
  }

  /** A stream of final frames comes apart into exactly the payloads that went in. */
  lemma {:induction false} SplitEncoded(ms: seq<Message>)
    requires forall i :: 0 <= i < |ms| ==> Sendable(ms[i])
    ensures Split(EncodeAll(ms)) == Cut(Payloads(ms), [])
  {
    hide ReadSize, Unmask, Encode;
    if ms == [] {
      ReadSizeShape([]);
    } else {
      var m, tail := ms[0], EncodeAll(ms[1..]);
      var s := Encode(m) + tail;
      EncodeHeader(m, tail);
      ReadSizeShape(s);
      var h := ReadSize(s);
      var n := h.head + h.size;
      assert s[n..] == tail;
      assert s[h.head..n] == Encode(m)[h.head..];
      UnmaskTwice(m.payload, m.mask);
      SplitEncoded(ms[1..]);
    }
  }
}
