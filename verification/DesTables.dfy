/** DES_IP and the rounds of skynet/lualib-src/lua-crypt.c against the table and the recurrence of FIPS 46-3. */
module DesTables {
  import opened Des

  /** Bit p of the first or the second half. */
  function Of(h: Halves, half: nat, p: nat): bool
    requires AreWords(h) && half < 2 && p < 32
  {
    if half == 0 then h.x[p] else h.y[p]
  }

  /** Bit b of a block, numbered from 1 at the most significant, as the standard counts. */
  function Numbered(h: Halves, b: nat): bool
    requires AreWords(h) && 1 <= b <= 64
  {
    if b <= 32 then h.x[32 - b] else h.y[64 - b]
  }

  /** A masked swap exchanges the masked bits of the second half with those a distance away in the first. */
  lemma SwapBits(h: Halves, m: Mask, p: nat)
    requires AreWords(h) && p < 32
    ensures var s := Distance(m);
      && Swap(h, m).x[p] == (if s <= p && InMask(m, p - s) then h.y[p - s] else h.x[p])
      && (InMask(m, p) ==> p + s < 32)
      && Swap(h, m).y[p] == (if InMask(m, p) then h.x[p + s] else h.y[p])
  {
    if InMask(m, p) {
      MaskFits(m, p);
    }
    hide InMask, Distance;
  }

  // Positions below are given by their binary digits: 16 * a + 8 * b + 4 * c + 2 * d + e.

  predicate Digits(half: nat, a: nat, b: nat, c: nat, d: nat, e: nat) {
    half < 2 && a < 2 && b < 2 && c < 2 && d < 2 && e < 2
  }

  lemma Places(a: nat, b: nat, c: nat, d: nat, e: nat)
    requires Digits(0, a, b, c, d, e)
    ensures var p := 16 * a + 8 * b + 4 * c + 2 * d + e;
      p / 16 == a && p / 8 % 2 == b && p / 4 % 2 == c && p / 2 % 2 == d && p % 2 == e
  {
    var p := 16 * a + 8 * b + 4 * c + 2 * d + e;
    assert p / 2 == 8 * a + 4 * b + 2 * c + d && p / 4 == 4 * a + 2 * b + c && p / 8 == 2 * a + b;
  }

  /** Each of the four distant swaps exchanges the number of the half with one binary digit of the position. */
  lemma Swap4(h: Halves, half: nat, a: nat, b: nat, c: nat, d: nat, e: nat)
    requires AreWords(h) && Digits(half, a, b, c, d, e)
    ensures Of(Swap(h, M0F0F0F0F), half, 16 * a + 8 * b + 4 * c + 2 * d + e) ==
      Of(h, c, 16 * a + 8 * b + 4 * half + 2 * d + e)
  {
    hide Swap;
    SwapBits(h, M0F0F0F0F, 16 * a + 8 * b + 4 * c + 2 * d + e);
    Places(a, b, c, d, e);
    Places(a, b, 0, d, e);
  }

  lemma Swap16(h: Halves, half: nat, a: nat, b: nat, c: nat, d: nat, e: nat)
    requires AreWords(h) && Digits(half, a, b, c, d, e)
    ensures Of(Swap(h, M0000FFFF), half, 16 * a + 8 * b + 4 * c + 2 * d + e) ==
      Of(h, a, 16 * half + 8 * b + 4 * c + 2 * d + e)
  {
    hide Swap;
    SwapBits(h, M0000FFFF, 16 * a + 8 * b + 4 * c + 2 * d + e);
    Places(a, b, c, d, e);
    Places(0, b, c, d, e);
  }

  lemma Swap2(h: Halves, half: nat, a: nat, b: nat, c: nat, d: nat, e: nat)
    requires AreWords(h) && Digits(half, a, b, c, d, e)
    ensures Of(SwapBack(h, M33333333), half, 16 * a + 8 * b + 4 * c + 2 * d + e) ==
      Of(h, 1 - d, 16 * a + 8 * b + 4 * c + 2 * (1 - half) + e)
  {
    hide Swap;
    SwapBits(Flip(h), M33333333, 16 * a + 8 * b + 4 * c + 2 * d + e);
    Places(a, b, c, d, e);
    Places(a, b, c, 0, e);
  }

  lemma Swap8(h: Halves, half: nat, a: nat, b: nat, c: nat, d: nat, e: nat)
    requires AreWords(h) && Digits(half, a, b, c, d, e)
    ensures Of(SwapBack(h, M00FF00FF), half, 16 * a + 8 * b + 4 * c + 2 * d + e) ==
      Of(h, 1 - b, 16 * a + 8 * (1 - half) + 4 * c + 2 * d + e)
  {
    hide Swap;
    SwapBits(Flip(h), M00FF00FF, 16 * a + 8 * b + 4 * c + 2 * d + e);
    Places(a, b, c, d, e);
    Places(a, 0, c, d, e);
  }

  /** The four distant swaps together. */
  function Distant(h: Halves): (r: Halves)
    requires AreWords(h)
    ensures AreWords(r)
  {
    SwapBack(SwapBack(Swap(Swap(h, M0F0F0F0F), M0000FFFF), M33333333), M00FF00FF)
  }

  lemma DistantAt(h: Halves, half: nat, a: nat, b: nat, c: nat, d: nat, e: nat)
    requires AreWords(h) && Digits(half, a, b, c, d, e)
    ensures Of(Distant(h), half, 16 * a + 8 * b + 4 * c + 2 * d + e) ==
      Of(h, c, 16 * (1 - d) + 8 * (1 - half) + 4 * a + 2 * b + e)
  {
    hide Swap, SwapBack, Of;
    var h1 := Swap(h, M0F0F0F0F);
    var h2 := Swap(h1, M0000FFFF);
    var h3 := SwapBack(h2, M33333333);
    Swap8(h3, half, a, b, c, d, e);
    Swap2(h2, 1 - b, a, 1 - half, c, d, e);
    Swap16(h1, 1 - d, a, 1 - half, c, b, e);
    Swap4(h, a, 1 - d, 1 - half, c, b, e);
  }

  /** The swap of alternate bits after a rotation of the second half. */
  function Alternate(h: Halves): (r: Halves)
    requires AreWords(h)
    ensures AreWords(r)
  {
    Swap(Halves(h.x, RotateLeft(h.y)), MAAAAAAAA)
  }

  lemma AlternateAt(h: Halves, p: nat)
    requires AreWords(h) && p < 32
    ensures Alternate(h).x[p] == Of(h, p % 2, p - p % 2)
    ensures RotateRight(Alternate(h).y)[p] == Of(h, p % 2, p - p % 2 + 1)
  {
    var h5 := Halves(h.x, RotateLeft(h.y));
    SwapBits(h5, MAAAAAAAA, p);
    SwapBits(h5, MAAAAAAAA, if p < 31 then p + 1 else 0);
    hide Swap;
  }

  lemma InThree(h: Halves)
    requires AreWords(h)
    ensures RotateRight(InitialPermutation(h).x) == Alternate(Distant(h)).x
    ensures InitialPermutation(h).y == Alternate(Distant(h)).y
  {
    hide Swap, SwapBack, RotateLeft, RotateRight;
    RotateBoth(Alternate(Distant(h)).x);
  }

  /** Entry j of the first half of the table of the standard: rows of eight that start with 58, 60, 62 and 64. */
  function Entry(j: nat): (b: nat)
    requires j < 32
    ensures 2 <= b <= 64
  {
    var row, column := j / 8, j % 8;
    58 + 2 * row - 8 * column
  }

  lemma TableAt(h: Halves, j: nat, right: nat)
    requires AreWords(h) && j < 32 && right < 2
    ensures var p := 31 - j;
      Of(Distant(h), p % 2, p - p % 2 + right) == Numbered(h, Entry(j) - right)
  {
    hide Distant, Of, Numbered;
    var p := 31 - j;
    var a, b, c, d, e := p / 16, p / 8 % 2, p / 4 % 2, p / 2 % 2, p % 2;
    Binary(p);
    DistantAt(h, e, a, b, c, d, right);
    Rows(j, a, b, c, d, e);
    Counted(h, c, 16 * (1 - d) + 8 * (1 - e) + 4 * a + 2 * b + right);
  }

  lemma Counted(h: Halves, half: nat, p: nat)
    requires AreWords(h) && half < 2 && p < 32
    ensures Of(h, half, p) == Numbered(h, 32 + 32 * half - p)
  {
  }

  lemma Rows(j: nat, a: nat, b: nat, c: nat, d: nat, e: nat)
    requires Digits(0, a, b, c, d, e) && 31 - j == 16 * a + 8 * b + 4 * c + 2 * d + e
    ensures j / 8 == 2 * (1 - a) + (1 - b) && j % 8 == 4 * (1 - c) + 2 * (1 - d) + (1 - e)
  {
    var k := 4 * (1 - c) + 2 * (1 - d) + (1 - e);
    assert j == 8 * (2 * (1 - a) + (1 - b)) + k && 0 <= k < 8;
  }

  lemma Binary(p: nat)
    requires p < 32
    ensures p == 16 * (p / 16) + 8 * (p / 8 % 2) + 4 * (p / 4 % 2) + 2 * (p / 2 % 2) + p % 2
    ensures Digits(0, p / 16, p / 8 % 2, p / 4 % 2, p / 2 % 2, p % 2)
  {
    assert p / 2 / 2 == p / 4 && p / 4 / 2 == p / 8 && p / 8 / 2 == p / 16;
  }

  /** The block after DES_IP, with the rotation by one to the left that it leaves in both halves taken back. */
  function Permuted(h: Halves): (r: Halves)
    requires AreWords(h)
    ensures AreWords(r)
  {
    Halves(RotateRight(InitialPermutation(h).x), RotateRight(InitialPermutation(h).y))
  }

  /** The initial permutation of FIPS 46-3: bit j + 1 of the left half is bit 58, 50, ..., 2, 60, ... of the block, and
      that of the right half the one before. */
  lemma InitialTable(h: Halves, j: nat)
    requires AreWords(h) && j < 32
    ensures Numbered(Permuted(h), j + 1) == Numbered(h, Entry(j))
    ensures Numbered(Permuted(h), j + 33) == Numbered(h, Entry(j) - 1)
  {
    hide InitialPermutation, RotateRight, Distant, Alternate, Of, Entry;
    InThree(h);
    AlternateAt(Distant(h), 31 - j);
    TableAt(h, j, 0);
    TableAt(h, j, 1);
  }

  // ------------------------------------------------------------------ rounds

  /** The halves that the rounds produce one by one: each is the last but one, with the bits changed in which the round
      function of the last has a one. */
  function Half(f: RoundFunction, ks: seq<Subkey>, h: Halves, n: nat): Bits
    requires n <= |ks| + 1
  {
    if n == 0 then h.x
    else if n == 1 then h.y
    else
      var last, before := Half(f, ks, h, n - 1), Half(f, ks, h, n - 2);
      var g := f(ks[n - 2], last);
      seq(|before|, i requires 0 <= i < |before| => if i < |g| && g[i] then !before[i] else before[i])
  }

  lemma {:induction false} HalfLater(f: RoundFunction, ks: seq<Subkey>, h: Halves, n: nat)
    requires ks != [] && n <= |ks|
    ensures Half(f, ks[1..], Round(f, ks[0], h), n) == Half(f, ks, h, n + 1)
  {
    if n == 0 {
    } else if n == 1 {
      assert Half(f, ks, h, 1) == h.y && Half(f, ks, h, 0) == h.x;
    } else {
      HalfLater(f, ks, h, n - 1);
      HalfLater(f, ks, h, n - 2);
      hide Round;
      assert ks[1..][n - 2] == ks[n - 1];
    }
  }

  /** The rounds end with the last two halves. */
  lemma {:induction false} RoundsAreHalves(f: RoundFunction, ks: seq<Subkey>, h: Halves)
    ensures Rounds(f, ks, h) == Halves(Half(f, ks, h, |ks|), Half(f, ks, h, |ks| + 1))
    decreases |ks|
  {
    if ks != [] {
      hide Half, Round;
      RoundsAreHalves(f, ks[1..], Round(f, ks[0], h));
      HalfLater(f, ks, h, |ks| - 1);
      HalfLater(f, ks, h, |ks|);
    }
  }
}
