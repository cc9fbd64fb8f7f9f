/**
 * The block cipher of skynet/lualib-src/lua-crypt.c: the permutations by
 * masked swaps, the rounds, and the padding of texts of any length. Octets and
 * words are their bits, lowest first; the round function, with its tables and
 * the subkeys made from the key, is arbitrary.
 */
module Des {
  import opened Basics

  type Bits = seq<bool>

  predicate IsWord(w: Bits) {
    |w| == 32
  }

  predicate IsByte(b: Bits) {
    |b| == 8
  }

  /** Two 32-bit halves. */
  datatype Halves = Halves(x: Bits, y: Bits)

  predicate AreWords(h: Halves) {
    IsWord(h.x) && IsWord(h.y)
  }

  function Xor(a: Bits, b: Bits): Bits {
    seq(|a|, i requires 0 <= i < |a| => if i < |b| then a[i] != b[i] else a[i])
  }

  lemma XorTwice(a: Bits, b: Bits)
    ensures Xor(Xor(a, b), b) == a
  {
  }

  // ------------------------------------------------------------ permutations

  /** Bit `p` of a 32-bit mask given by one of its bytes, lowest first, repeated or spread. */
  predicate InMask(m: Mask, p: nat) {
    match m
    case M0F0F0F0F => p / 4 % 2 == 0
    case M0000FFFF => p < 16
    case M33333333 => p / 2 % 2 == 0
    case M00FF00FF => p / 8 % 2 == 0
    case MAAAAAAAA => p % 2 == 1
  }

  datatype Mask = M0F0F0F0F | M0000FFFF | M33333333 | M00FF00FF | MAAAAAAAA

  function Distance(m: Mask): nat {
    match m
    case M0F0F0F0F => 4
    case M0000FFFF => 16
    case M33333333 => 2
    case M00FF00FF => 8
    case MAAAAAAAA => 0
  }

  /** T = ((X >> s) ^ Y) & mask */
  function Differing(h: Halves, m: Mask): Bits
    requires AreWords(h)
  {
    var s := Distance(m);
    seq(32, p requires 0 <= p < 32 => InMask(m, p) && (if p + s < 32 then h.x[p + s] else false) != h.y[p])
  }

  function ShiftLeft(t: Bits, s: nat): Bits
    requires IsWord(t)
  {
    seq(32, p requires 0 <= p < 32 => s <= p && t[p - s])
  }

  /** T = ((X >> s) ^ Y) & mask; Y ^= T; X ^= T << s */
  function Swap(h: Halves, m: Mask): (r: Halves)
    requires AreWords(h)
    ensures AreWords(r)
  {
    var t := Differing(h, m);
    Halves(Xor(h.x, ShiftLeft(t, Distance(m))), Xor(h.y, t))
  }

  /** A masked bit has a partner that the shift does not push out of the word. */
  lemma MaskFits(m: Mask, p: nat)
    requires p < 32 && InMask(m, p)
    ensures p + Distance(m) < 32
  {
  }

  lemma DifferingAgain(h: Halves, m: Mask, p: nat)
    requires AreWords(h) && p < 32
    ensures Differing(Swap(h, m), m)[p] == Differing(h, m)[p]
  {
    var t, s := Differing(h, m), Distance(m);
    if InMask(m, p) {
      MaskFits(m, p);
      hide Distance, InMask;
      assert ShiftLeft(t, s)[p + s] == t[p];
    }
  }

  /** Each masked swap undoes itself. */
  lemma SwapTwice(h: Halves, m: Mask)
    requires AreWords(h)
    ensures Swap(Swap(h, m), m) == h
  {
    var t := Differing(h, m);
    var t' := Differing(Swap(h, m), m);
    forall p | 0 <= p < 32
      ensures t'[p] == t[p]
    {
      DifferingAgain(h, m, p);
    }
    assert t' == t;
    hide Differing, Distance, InMask;
    XorTwice(h.x, ShiftLeft(t, Distance(m)));
    XorTwice(h.y, t);
  }

  function Flip(h: Halves): Halves {
    Halves(h.y, h.x)
  }

  /** The swap with the halves in the other role. */
  function SwapBack(h: Halves, m: Mask): (r: Halves)
    requires AreWords(h)
    ensures AreWords(r)
  {
    Flip(Swap(Flip(h), m))
  }

  lemma SwapBackTwice(h: Halves, m: Mask)
    requires AreWords(h)
    ensures SwapBack(SwapBack(h, m), m) == h
  {
    hide Swap;
    SwapTwice(Flip(h), m);
  }

  function RotateLeft(w: Bits): (r: Bits)
    requires IsWord(w)
    ensures IsWord(r)
  {
    [w[31]] + w[..31]
  }

  function RotateRight(w: Bits): (r: Bits)
    requires IsWord(w)
    ensures IsWord(r)
  {
    w[1..] + [w[0]]
  }

  lemma RotateBoth(w: Bits)
    requires IsWord(w)
    ensures RotateRight(RotateLeft(w)) == w && RotateLeft(RotateRight(w)) == w
  {
  }

  /** DES_IP */
  function InitialPermutation(h0: Halves): (r: Halves)
    requires AreWords(h0)
    ensures AreWords(r)
  {
    var h1 := Swap(h0, M0F0F0F0F);
    var h2 := Swap(h1, M0000FFFF);
    var h3 := SwapBack(h2, M33333333);
    var h4 := SwapBack(h3, M00FF00FF);
    var h5 := Halves(h4.x, RotateLeft(h4.y));
    var h6 := Swap(h5, MAAAAAAAA);
    Halves(RotateLeft(h6.x), h6.y)
  }

  /** DES_FP; the swap of alternate bits is written with the halves exchanged, which is the same swap */
  function FinalPermutation(h0: Halves): (r: Halves)
    requires AreWords(h0)
    ensures AreWords(r)
  {
    var h1 := Halves(RotateRight(h0.x), h0.y);
    var h2 := Swap(h1, MAAAAAAAA);
    var h3 := Halves(h2.x, RotateRight(h2.y));
    var h4 := SwapBack(h3, M00FF00FF);
    var h5 := SwapBack(h4, M33333333);
    var h6 := Swap(h5, M0000FFFF);
    Swap(h6, M0F0F0F0F)
  }

  lemma FinalUndoesInitial(h0: Halves)
    requires AreWords(h0)
    ensures FinalPermutation(InitialPermutation(h0)) == h0
  {
    hide Swap, SwapBack, RotateLeft, RotateRight;
    var h1 := Swap(h0, M0F0F0F0F);
    var h2 := Swap(h1, M0000FFFF);
    var h3 := SwapBack(h2, M33333333);
    var h4 := SwapBack(h3, M00FF00FF);
    var h5 := Halves(h4.x, RotateLeft(h4.y));
    var h6 := Swap(h5, MAAAAAAAA);
    RotateBoth(h6.x);
    SwapTwice(h5, MAAAAAAAA);
    RotateBoth(h4.y);
    SwapBackTwice(h3, M00FF00FF);
    SwapBackTwice(h2, M33333333);
    SwapTwice(h1, M0000FFFF);
    SwapTwice(h0, M0F0F0F0F);
  }

  lemma InitialUndoesFinal(h0: Halves)
    requires AreWords(h0)
    ensures InitialPermutation(FinalPermutation(h0)) == h0
  {
    hide Swap, SwapBack, RotateLeft, RotateRight;
    var h1 := Halves(RotateRight(h0.x), h0.y);
    var h2 := Swap(h1, MAAAAAAAA);
    var h3 := Halves(h2.x, RotateRight(h2.y));
    var h4 := SwapBack(h3, M00FF00FF);
    var h5 := SwapBack(h4, M33333333);
    var h6 := Swap(h5, M0000FFFF);
    SwapTwice(h6, M0F0F0F0F);
    SwapTwice(h5, M0000FFFF);
    SwapBackTwice(h4, M33333333);
    SwapBackTwice(h3, M00FF00FF);
    RotateBoth(h2.y);
    SwapTwice(h1, MAAAAAAAA);
    RotateBoth(h0.x);
  }

  // ------------------------------------------------------------------- rounds

  /** A subkey: the two words that one round consumes. */
  datatype Subkey = Subkey(k0: Bits, k1: Bits)

  type RoundFunction = (Subkey, Bits) -> Bits

  /** DES_ROUND(Y, X), then the halves change roles for the next round. */
  function Round(f: RoundFunction, k: Subkey, h: Halves): (r: Halves)
    ensures AreWords(h) ==> AreWords(r)
  {
    Halves(h.y, Xor(h.x, f(k, h.y)))
  }

  function Rounds(f: RoundFunction, ks: seq<Subkey>, h: Halves): (r: Halves)
    ensures AreWords(h) ==> AreWords(r)
  {
    if ks == [] then h else Rounds(f, ks[1..], Round(f, ks[0], h))
  }

  function Reversed(ks: seq<Subkey>): (r: seq<Subkey>)
    ensures |r| == |ks|
  {
    seq(|ks|, i requires 0 <= i < |ks| => ks[|ks| - 1 - i])
  }

  lemma {:induction false} RoundsAppend(f: RoundFunction, a: seq<Subkey>, b: seq<Subkey>, h: Halves)
    ensures Rounds(f, a + b, h) == Rounds(f, b, Rounds(f, a, h))
    decreases |a|
  {
    hide Round;
    if a == [] {
      assert a + b == b;
    } else {
      assert (a + b)[1..] == a[1..] + b;
      RoundsAppend(f, a[1..], b, Round(f, a[0], h));
    }
  }

  lemma RoundBack(f: RoundFunction, k: Subkey, h: Halves)
    ensures Round(f, k, Flip(Round(f, k, h))) == Flip(h)
  {
    hide Xor;
    XorTwice(h.x, f(k, h.y));
  }

  /** Rounds with the subkeys in reverse order, on exchanged halves, undo the rounds. */
  lemma {:induction false} RoundsBack(f: RoundFunction, ks: seq<Subkey>, h: Halves)
    ensures Rounds(f, Reversed(ks), Flip(Rounds(f, ks, h))) == Flip(h)
    decreases |ks|
  {
    hide Round;
    if ks != [] {
      var k, rest := ks[0], ks[1..];
      RoundsBack(f, rest, Round(f, k, h));
      assert Reversed(ks) == Reversed(rest) + [k];
      RoundsAppend(f, Reversed(rest), [k], Flip(Rounds(f, ks, h)));
      RoundBack(f, k, h);
      assert [k][1..] == [];
    }
  }

  // ------------------------------------------------------------------- blocks

  type Octets = seq<Bits>

  predicate AreBytes(b: Octets) {
    forall i :: 0 <= i < |b| ==> IsByte(b[i])
  }

  /** GET_UINT32, big-endian */
  function GetWord(b: Octets, i: nat): (w: Bits)
    requires AreBytes(b) && i + 4 <= |b|
    ensures IsWord(w)
  {
    b[i + 3] + b[i + 2] + b[i + 1] + b[i]
  }

  /** PUT_UINT32 */
  function PutWord(w: Bits): (b: Octets)
    requires IsWord(w)
    ensures |b| == 4 && AreBytes(b)
  {
    [w[24..], w[16..24], w[8..16], w[..8]]
  }

  lemma WordBack(w: Bits)
    requires IsWord(w)
    ensures GetWord(PutWord(w), 0) == w
  {
  }

  lemma BytesBack(b: Octets, i: nat)
    requires AreBytes(b) && i + 4 <= |b|
    ensures PutWord(GetWord(b, i)) == b[i..i + 4]
  {
    var w := GetWord(b, i);
    assert w[..8] == b[i + 3] && w[8..16] == b[i + 2] && w[16..24] == b[i + 1] && w[24..] == b[i];
  }

  /** des_crypt: the output halves are exchanged */
  function Crypt(f: RoundFunction, ks: seq<Subkey>, b: Octets): (r: Octets)
    requires |b| == 8 && AreBytes(b)
    ensures |r| == 8 && AreBytes(r)
  {
    var h := InitialPermutation(Halves(GetWord(b, 0), GetWord(b, 4)));
    var o := FinalPermutation(Flip(Rounds(f, ks, h)));
    PutWord(o.x) + PutWord(o.y)
  }

  lemma HalvesBack(h: Halves)
    requires AreWords(h)
    ensures var b := PutWord(h.x) + PutWord(h.y);
      AreBytes(b) && |b| == 8 && GetWord(b, 0) == h.x && GetWord(b, 4) == h.y
  {
    hide AreBytes;
    WordBack(h.x);
    WordBack(h.y);
    PutBytes(h);
  }

  lemma PutBytes(h: Halves)
    requires AreWords(h)
    ensures var b := PutWord(h.x) + PutWord(h.y);
      AreBytes(b) && |b| == 8 && GetWord(b, 0) == GetWord(PutWord(h.x), 0) && GetWord(b, 4) == GetWord(PutWord(h.y), 0)
  {
  }

  /** Decrypting a block is encrypting it with the subkeys in reverse order. */
  lemma BlockBack(f: RoundFunction, ks: seq<Subkey>, b: Octets)
    requires |b| == 8 && AreBytes(b)
    ensures Crypt(f, Reversed(ks), Crypt(f, ks, b)) == b
  {
    hide InitialPermutation, FinalPermutation, Rounds, GetWord, PutWord;
    var start := Halves(GetWord(b, 0), GetWord(b, 4));
    var h := InitialPermutation(start);
    var o := FinalPermutation(Flip(Rounds(f, ks, h)));
    HalvesBack(o);
    InitialUndoesFinal(Flip(Rounds(f, ks, h)));
    RoundsBack(f, ks, h);
    FinalUndoesInitial(start);
    BytesBack(b, 0);
    BytesBack(b, 4);
    assert b[0..4] + b[4..8] == b;
  }

  // -------------------------------------------------------------------- texts

  const ZERO: Bits := [false, false, false, false, false, false, false, false]
  const MARK: Bits := [false, false, false, false, false, false, false, true] // 0x80

  /** The text with 0x80 and zeros up to a whole number of blocks. */
  function Padded(text: Octets): (r: Octets)
    ensures |r| % 8 == 0 && |r| >= 8 && |text| < |r| <= |text| + 8
  {
    text + [MARK] + seq(7 - |text| % 8, _ => ZERO)
  }

  /** An octet as a number. */
  function Number(b: Bits): nat {
    if b == [] then 0 else (if b[0] then 1 else 0) + 2 * Number(b[1..])
  }

  /** Padding keeps the text, puts 0x80 behind it and then zeros. */
  lemma PaddedIs(text: Octets, i: nat)
    requires |text| <= i < |Padded(text)|
    ensures Padded(text)[..|text|] == text && Number(Padded(text)[i]) == if i == |text| then 0x80 else 0
  {
    OctetValues();
    hide Number;
    assert Padded(text)[..|text|] == text;
  }

  lemma OctetValues()
    ensures Number(ZERO) == 0 && Number(MARK) == 0x80
  {
    Zeros(8);
    MarkValue(7);
    assert Pow2(3) == 8 && Pow2(7) == 0x80;
    hide Number;
    assert ZERO == seq(8, _ => false) && MARK == seq(7, _ => false) + [true];
  }

  lemma {:induction false} Zeros(n: nat)
    ensures Number(seq(n, _ => false)) == 0
  {
    if n > 0 {
      Zeros(n - 1);
      assert seq(n, _ => false)[1..] == seq(n - 1, _ => false);
    }
  }

  lemma {:induction false} MarkValue(n: nat)
    ensures Number(seq(n, _ => false) + [true]) == Pow2(n)
  {
    var b := seq(n, _ => false) + [true];
    if n > 0 {
      MarkValue(n - 1);
      assert b[1..] == seq(n - 1, _ => false) + [true];
    } else {
      assert b == [true] && b[1..] == [];
    }
  }

  lemma PaddedBytes(text: Octets)
    requires AreBytes(text)
    ensures AreBytes(Padded(text))
  {
  }

  /** The first `n` blocks, each on its own. */
  function CryptBlocks(f: RoundFunction, ks: seq<Subkey>, b: Octets, n: nat): (r: Octets)
    requires AreBytes(b) && 8 * n <= |b|
    ensures |r| == 8 * n && AreBytes(r)
  {
    if n == 0 then [] else CryptBlocks(f, ks, b, n - 1) + Crypt(f, ks, b[8 * (n - 1)..8 * n])
  }

  lemma {:induction false} BlocksBack(f: RoundFunction, ks: seq<Subkey>, b: Octets, m: nat, n: nat)
    requires AreBytes(b) && 8 * m <= |b| && n <= m
    ensures CryptBlocks(f, Reversed(ks), CryptBlocks(f, ks, b, m), n) == b[..8 * n]
  {
    hide Crypt, Reversed;
    if n > 0 {
      BlocksBack(f, ks, b, m, n - 1);
      BlockAt(f, ks, b, m, n - 1);
      BlockBack(f, ks, b[8 * (n - 1)..8 * n]);
      assert b[..8 * n] == b[..8 * (n - 1)] + b[8 * (n - 1)..8 * n];
    }
  }

  lemma {:induction false} BlockAt(f: RoundFunction, ks: seq<Subkey>, b: Octets, m: nat, i: nat)
    requires AreBytes(b) && 8 * m <= |b| && i < m
    ensures CryptBlocks(f, ks, b, m)[8 * i..8 * (i + 1)] == Crypt(f, ks, b[8 * i..8 * (i + 1)])
  {
    hide Crypt;
    if i < m - 1 {
      BlockAt(f, ks, b, m - 1, i);
      assert CryptBlocks(f, ks, b, m)[8 * i..8 * (i + 1)] == CryptBlocks(f, ks, b, m - 1)[8 * i..8 * (i + 1)];
    }
  }

  /** ldesencode */
  method Encode(f: RoundFunction, ks: seq<Subkey>, text: Octets) returns (buffer: Octets)
    requires AreBytes(text)
    ensures AreBytes(Padded(text)) && buffer == CryptBlocks(f, ks, Padded(text), |Padded(text)| / 8)
  {
    hide Crypt;
    ghost var whole := Padded(text);
    PaddedBytes(text);
    buffer := [];
    var i := 0;
    while i < |text| - 7
      invariant 0 <= i <= |text| && i % 8 == 0 && buffer == CryptBlocks(f, ks, whole, i / 8)
    {
      assert whole[i..i + 8] == text[i..i + 8];
      var n := i / 8;
      assert 8 * n == i && (i + 8) / 8 == n + 1;
      buffer := buffer + Crypt(f, ks, text[i..i + 8]);
      i := i + 8;
    }
    var bytes := |text| - i;
    var tail: Octets := [];
    for j := 0 to 8
      invariant |tail| == j
      invariant forall k :: 0 <= k < j ==>
        tail[k] == if k < bytes then text[i + k] else if k == bytes then MARK else ZERO
    {
      tail := tail + [if j < bytes then text[i + j] else if j == bytes then MARK else ZERO];
    }
    TailIs(text, i, tail);
    buffer := buffer + Crypt(f, ks, tail);
  }

  lemma TailIs(text: Octets, i: nat, tail: Octets)
    requires i % 8 == 0 && i <= |text| < i + 8 && |tail| == 8
    requires forall k :: 0 <= k < 8 ==>
      tail[k] == if k < |text| - i then text[i + k] else if k == |text| - i then MARK else ZERO
    ensures |Padded(text)| == i + 8 && Padded(text)[i..i + 8] == tail
    ensures |Padded(text)| / 8 == i / 8 + 1 && 8 * (i / 8) == i
  {
    assert |text| % 8 == |text| - i;
  }

  /** What decoding gives: an error, a read before the start of the buffer, or the text. */
  datatype Result = InvalidText | OutOfBounds | Ok(text: Octets)

  /**
   * The end of the text: before the last 0x80, which only zeros may follow.
   * The loop compares its index with textsz - 8 as an unsigned number, so for
   * a single block it does not stop below index 0.
   */
  function Strip(b: Octets, padding: nat): Result
    requires 1 <= padding <= |b| + 1
    decreases |b| + 1 - padding
  {
    if padding > |b| then OutOfBounds
    else if padding > 8 then InvalidText
    else
      var c := b[|b| - padding];
      if c == ZERO then Strip(b, padding + 1)
      else if c == MARK then Ok(b[..|b| - padding])
      else InvalidText
  }

  lemma {:induction false} StripPadded(text: Octets, padding: nat)
    requires 1 <= padding <= |Padded(text)| - |text|
    ensures Strip(Padded(text), padding) == Ok(text)
    decreases 8 - padding
  {
    var b := Padded(text);
    var c := b[|b| - padding];
    if padding < |b| - |text| {
      assert c == ZERO;
      StripPadded(text, padding + 1);
    } else {
      assert c == MARK && MARK[7] != ZERO[7];
      assert b[..|text|] == text;
    }
  }

  lemma {:induction false} StripZeros(b: Octets, padding: nat)
    requires |b| == 8 && 1 <= padding <= 9 && forall i :: 0 <= i < 8 ==> b[i] == ZERO
    ensures Strip(b, padding) == OutOfBounds
    decreases 9 - padding
  {
    if padding < 9 {
      StripZeros(b, padding + 1);
    }
  }

  lemma {:induction false} StripInside(b: Octets, padding: nat)
    requires |b| >= 8 && |b| % 8 == 0 && 1 <= padding <= 9
    requires |b| > 8 || exists i :: 0 <= i < 9 - padding && b[i] != ZERO
    ensures Strip(b, padding) != OutOfBounds
    decreases 9 - padding
  {
    if padding <= 8 && b[|b| - padding] == ZERO {
      StripInside(b, padding + 1);
    }
  }

  /** Decoding reads before its buffer exactly for a single block that decrypts to eight zero bytes. */
  lemma ReadsBeforeBuffer(b: Octets)
    requires |b| > 0 && |b| % 8 == 0
    ensures Strip(b, 1) == OutOfBounds <==> |b| == 8 && forall i :: 0 <= i < 8 ==> b[i] == ZERO
  {
    if |b| == 8 && forall i :: 0 <= i < 8 ==> b[i] == ZERO {
      StripZeros(b, 1);
    } else {
      StripInside(b, 1);
    }
  }

  /** ldesdecode */
  method Decode(f: RoundFunction, ks: seq<Subkey>, text: Octets) returns (r: Result)
    requires AreBytes(text)
    ensures |text| % 8 != 0 || |text| == 0 ==> r == InvalidText
    ensures |text| % 8 == 0 && |text| > 0 ==> r == Strip(CryptBlocks(f, Reversed(ks), text, |text| / 8), 1)
  {
    hide Crypt;
    var sk := Reversed(ks);
    if |text| % 8 != 0 || |text| == 0 {
      return InvalidText;
    }
    hide Reversed;
    var buffer: Octets := [];
    var i := 0;
    while i < |text|
      invariant 0 <= i <= |text| && i % 8 == 0 && buffer == CryptBlocks(f, sk, text, i / 8)
    {
      var n := i / 8;
      assert 8 * n == i && (i + 8) / 8 == n + 1;
      buffer := buffer + Crypt(f, sk, text[i..i + 8]);
      i := i + 8;
    }
    var padding := 1;
    while padding <= 8
      invariant 1 <= padding <= 9
      invariant Strip(buffer, 1) == Strip(buffer, padding)
      decreases 9 - padding
    {
      assert padding <= |buffer|;
      var c := buffer[|buffer| - padding];
      if c == ZERO {
        padding := padding + 1;
      } else if c == MARK {
        return Ok(buffer[..|buffer| - padding]);
      } else {
        return InvalidText;
      }
    }
    return if |buffer| == 8 then OutOfBounds else InvalidText;
  }

  /** Decoding what was encoded with the same key gives the text back, for every length. */
  method RoundTrip(f: RoundFunction, ks: seq<Subkey>, text: Octets) returns (r: Result)
    requires AreBytes(text)
    ensures r == Ok(text)
  {
    hide CryptBlocks, Strip, Reversed;
    var code := Encode(f, ks, text);
    ghost var b := Padded(text);
    ghost var n := |b| / 8;
    assert 8 * n == |b|;
    r := Decode(f, ks, code);
    BlocksBack(f, ks, b, n, n);
    assert b[..|b|] == b;
    StripPadded(text, 1);
  }
}
