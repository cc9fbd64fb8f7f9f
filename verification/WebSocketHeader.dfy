/** Which headers read_size of lua-websocketnetpack.c accepts, in the fields of section 5.2 of RFC 6455. */
module WebSocketHeader {
  import opened Basics
  import opened Bits
  import opened WebSocketFrames

  /** FIN is set, the three reserved bits are clear, and the opcode is not that of a continuation. */
  predicate Final(b: Byte) {
    && Bit(b, 7) == 1 && Bit(b, 6) == 0 && Bit(b, 5) == 0 && Bit(b, 4) == 0
    && (Bit(b, 3) == 1 || Bit(b, 2) == 1 || Bit(b, 1) == 1 || Bit(b, 0) == 1)
  }

  predicate MaskBit(b: Byte) {
    Bit(b, 7) == 1
  }

  /** The seven low bits of the second octet. */
  function ShortLength(b: Byte): nat {
    64 * Bit(b, 6) + 32 * Bit(b, 5) + 16 * Bit(b, 4) + 8 * Bit(b, 3) + 4 * Bit(b, 2) + 2 * Bit(b, 1) + Bit(b, 0)
  }

  /** The octets of a header: two, an extended length of two or eight, and a mask of four. */
  function HeaderSize(b: Byte): nat {
    2 + (if ShortLength(b) < 126 then 0 else if ShortLength(b) == 126 then 2 else 8) + if MaskBit(b) then 4 else 0
  }

  /** The length of the payload. */
  function PayloadLength(b: Bytes): nat
    requires |b| >= 2 && |b| >= HeaderSize(b[1])
  {
    var n := ShortLength(b[1]);
    if n < 126 then n else if n == 126 then BigEndianValue(b[2..4]) else BigEndianValue(b[2..10])
  }

  lemma Halved(x: nat)
    ensures Bit(x, 0) == x % 2 && Bit(x, 1) == x / 2 % 2 && Bit(x, 2) == x / 4 % 2 && Bit(x, 3) == x / 8 % 2
    ensures Bit(x, 4) == x / 16 % 2 && Bit(x, 5) == x / 32 % 2 && Bit(x, 6) == x / 64 % 2 && Bit(x, 7) == x / 128 % 2
  {
    assert Pow2(0) == 1 && Pow2(1) == 2 && Pow2(2) == 4 && Pow2(3) == 8;
    assert Pow2(4) == 16 && Pow2(5) == 32 && Pow2(6) == 64 && Pow2(7) == 128;
    assert x / 1 == x;
  }

  lemma Fields(b: Byte)
    ensures Final(b) <==> !(b / 16 % 8 != 0 || b / 128 == 0 || b % 16 == 0)
    ensures MaskBit(b) <==> b / 128 == 1
    ensures ShortLength(b) == b % 128
  {
    hide Bit;
    Halved(b);
    var h, l := b / 16, b % 16;
    assert b == 16 * h + l;
    HighBits(b, h, l);
    LowBits(b, h, l);
  }

  lemma HighBits(b: nat, h: nat, l: nat)
    requires b == 16 * h + l && h < 16 && l < 16
    ensures b / 16 % 2 == h % 2 && b / 32 % 2 == h / 2 % 2 && b / 64 % 2 == h / 4 % 2 && b / 128 % 2 == h / 8
    ensures h % 8 == h % 2 + 2 * (h / 2 % 2) + 4 * (h / 4 % 2)
  {
    assert b / 16 == h && b / 32 == h / 2 && b / 64 == h / 4 && b / 128 == h / 8;
  }

  lemma LowBits(b: nat, h: nat, l: nat)
    requires b == 16 * h + l && h < 16 && l < 16
    ensures b % 2 == l % 2 && b / 2 % 2 == l / 2 % 2 && b / 4 % 2 == l / 4 % 2 && b / 8 % 2 == l / 8
    ensures l == l % 2 + 2 * (l / 2 % 2) + 4 * (l / 4 % 2) + 8 * (l / 8)
  {
    Digit(8 * h, l, 1);
    Digit(4 * h, l, 2);
    Digit(2 * h, l, 4);
    Digit(h, l, 8);
    FourDigits(l);
  }

  lemma FourDigits(l: nat)
    requires l < 16
    ensures l == l % 2 + 2 * (l / 2 % 2) + 4 * (l / 4 % 2) + 8 * (l / 8) && l / 8 < 2
  {
    assert l / 2 / 2 == l / 4 && l / 4 / 2 == l / 8;
  }

  lemma Digit(h: nat, l: nat, p: nat)
    requires p > 0
    ensures (p * (2 * h) + l) / p % 2 == l / p % 2
  {
    Shifted(2 * h, l, p);
    Parity(h, l / p);
  }

  lemma Shifted(h: nat, l: nat, p: nat)
    requires p > 0
    ensures (p * h + l) / p == h + l / p
  {
    assert (h + l / p) * p == p * h + l / p * p;
    Quotient(p * h + l, p, h + l / p, l % p);
  }

  lemma Parity(h: nat, l: nat)
    ensures (2 * h + l) % 2 == l % 2
  {
  }

  lemma LastFour(s: Bytes)
    requires |s| == 8
    ensures BigEndianValue(s) % 0x1_0000_0000 == BigEndianValue(s[4..])
  {
    var a: int, b: int, c: int, d: int := s[4], s[5], s[6], s[7];
    var v := BigEndianValue(s[..4]);
    assert s[..7][..6] == s[..6] && s[..6][..5] == s[..5] && s[..5][..4] == s[..4];
    assert BigEndianValue(s[..5]) == v * 256 + a;
    assert BigEndianValue(s[..6]) == (v * 256 + a) * 256 + b;
    assert BigEndianValue(s[..7]) == ((v * 256 + a) * 256 + b) * 256 + c;
    var t := s[4..];
    assert t[..3][..2] == t[..2] && t[..2][..1] == [s[4]] && [s[4]][..0] == [];
    assert BigEndianValue([s[4]]) == a;
    assert BigEndianValue(t[..2]) == a * 256 + b;
    assert BigEndianValue(t[..3]) == (a * 256 + b) * 256 + c;
    Quotient(BigEndianValue(s), 0x1_0000_0000, v, ((a * 256 + b) * 256 + c) * 256 + d);
  }

  /** What a header of a final frame with all its octets comes to, by its length as a 32-bit number. */
  function Verdict(n: nat, head: nat, mask: Bytes): Header
    requires n < 0x1_0000_0000
  {
    if n <= 10240 then Frame(head, n, mask)
    else if n == 0xffff_ffff then Stuck
    else if n < 0x8000_0000 || n == 0xffff_fffe then TooLong
    else Negative
  }

  /** read_size, field by field: what is no final frame is refused, a final frame waits for its whole header, and then
      its length counts modulo 2^32. */
  lemma HeaderFields(b: Bytes)
    ensures ReadSize(b) == Bad <==> |b| >= 2 && !Final(b[0])
    ensures ReadSize(b) == TooShort <==> |b| < 2 || (Final(b[0]) && |b| < HeaderSize(b[1]))
    ensures |b| >= 2 && Final(b[0]) && |b| >= HeaderSize(b[1]) ==>
      var head := HeaderSize(b[1]);
      ReadSize(b) ==
      Verdict(PayloadLength(b) % 0x1_0000_0000, head, if MaskBit(b[1]) then b[head - 4..head] else [])
  {
    if |b| >= 2 {
      Fields(b[0]);
      Fields(b[1]);
      hide Final, ShortLength, MaskBit, BigEndianValue;
      if Final(b[0]) && |b| >= HeaderSize(b[1]) {
        LengthsAgree(b);
      }
    }
  }

  /** The int that the source keeps is the length modulo 2^32, read as signed. */
  lemma LengthsAgree(b: Bytes)
    requires |b| >= 2 && |b| >= HeaderSize(b[1])
    ensures LengthEnd(b[1] % 128) <= |b|
    ensures PackSize(b, b[1] % 128) == Signed(PayloadLength(b) % 0x1_0000_0000)
  {
    Fields(b[1]);
    hide ShortLength, MaskBit, BigEndianValue;
    var n := b[1] % 128;
    assert LengthEnd(n) <= |b|;
    if n < 126 {
      Short(n);
    } else if n == 126 {
      TwoOctets(b[2..4]);
      Short(BigEndianValue(b[2..4]));
    } else {
      LastFour(b[2..10]);
      assert b[2..10][4..] == b[6..10];
    }
  }

  lemma Short(n: nat)
    requires n < 0x1_0000
    ensures Signed(n % 0x1_0000_0000) == n
  {
  }

  lemma TwoOctets(s: Bytes)
    requires |s| == 2
    ensures BigEndianValue(s) < 0x1_0000
  {
    assert s[..1][..0] == [];
    assert BigEndianValue([]) == 0;
    assert BigEndianValue(s[..1]) == s[0];
  }
}
