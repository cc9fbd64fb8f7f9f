/**
 * SHA-1 as FIPS 180-4 defines it (sections 5.1.1 and 6.1.2), and the in-place
 * block transform of skynet/lualib-src/lsha1.c: rotating roles of five
 * registers and a circular schedule of sixteen words.
 */
module Sha1 {
  import opened Basics

  // ------------------------------------------------------------ the standard

  /** A 32-bit word. */
  type Word = nat

  function Add(x: Word, y: Word): Word {
    (x + y) % 0x1_0000_0000
  }

  /** A bitwise operation, bit by bit. */
  datatype BitOp = Xor2 | Ch | Parity | Maj | SourceCh | SourceMaj

  predicate OnBit(f: BitOp, x: bool, y: bool, z: bool) {
    match f
    case Xor2 => x != y
    case Ch => (x && y) != (!x && z)
    case Parity => (x != y) != z
    case Maj => ((x && y) != (x && z)) != (y && z)
    case SourceCh => (x && (y != z)) != z
    case SourceMaj => ((x || y) && z) || (x && y)
  }

  function OnBits(f: BitOp, x: Word, y: Word, z: Word, n: nat): Word {
    if n == 0 then 0
    else OnBits(f, x / 2, y / 2, z / 2, n - 1) * 2 + if OnBit(f, x % 2 == 1, y % 2 == 1, z % 2 == 1) then 1 else 0
  }

  function Xor(x: Word, y: Word): Word {
    OnBits(Xor2, x, y, 0, 32)
  }

  /** Rotation by the three amounts that occur; the two shifted parts do not overlap. */
  function Rol(x: Word, n: nat): Word
    requires n in {1, 5, 30}
  {
    if n == 1 then x * 2 % 0x1_0000_0000 + x / 0x8000_0000
    else if n == 5 then x * 0x20 % 0x1_0000_0000 + x / 0x800_0000
    else x * 0x4000_0000 % 0x1_0000_0000 + x / 4
  }

  /** Big-endian word `i` of a block. */
  function WordAt(b: Bytes, i: nat): Word
    requires 4 * i + 3 < |b|
  {
    var b0: int, b1: int, b2: int, b3: int := b[4 * i], b[4 * i + 1], b[4 * i + 2], b[4 * i + 3];
    ((b0 * 256 + b1) * 256 + b2) * 256 + b3
  }

  /** The message schedule. */
  function W(b: Bytes, t: nat): Word
    requires |b| == 64
  {
    if t < 16 then WordAt(b, t)
    else Rol(Xor(Xor(Xor(W(b, t - 3), W(b, t - 8)), W(b, t - 14)), W(b, t - 16)), 1)
  }

  /** Ch, Parity, Maj and Parity again. */
  function F(t: nat, x: Word, y: Word, z: Word): Word {
    OnBits(if t < 20 then Ch else if t < 40 || t >= 60 then Parity else Maj, x, y, z, 32)
  }

  function K(t: nat): Word {
    if t < 20 then 0x5A827999 else if t < 40 then 0x6ED9EBA1 else if t < 60 then 0x8F1BBCDC else 0xCA62C1D6
  }

  datatype Regs = Regs(a: Word, b: Word, c: Word, d: Word, e: Word)

  function Round(r: Regs, t: nat, w: Word): Regs {
    Regs(Add(Add(Add(Add(Rol(r.a, 5), F(t, r.b, r.c, r.d)), r.e), K(t)), w), r.a, Rol(r.b, 30), r.c, r.d)
  }

  function Rounds(r: Regs, b: Bytes, t: nat): Regs
    requires |b| == 64
  {
    if t == 0 then r else Round(Rounds(r, b, t - 1), t - 1, W(b, t - 1))
  }

  function Compress(r: Regs, b: Bytes): Regs
    requires |b| == 64
  {
    var s := Rounds(r, b, 80);
    Regs(Add(r.a, s.a), Add(r.b, s.b), Add(r.c, s.c), Add(r.d, s.d), Add(r.e, s.e))
  }

  const Initial: Regs :=
    Regs(0x67452301, 0xEFCDAB89, 0x98BADCFE, 0x10325476, 0xC3D2E1F0)

  /** Hashing the first `n` blocks. */
  function Blocks(m: Bytes, n: nat): Regs
    requires 64 * n <= |m|
  {
    if n == 0 then Initial else Compress(Blocks(m, n - 1), m[64 * (n - 1)..64 * n])
  }

  // --------------------------------------------------------- one round in place

  /** The round functions as the source writes them. */
  function SourceF(t: nat, w: Word, x: Word, y: Word): Word {
    OnBits(if t < 20 then SourceCh else if t < 40 || t >= 60 then Parity else SourceMaj, w, x, y, 32)
  }

  /** Operations that agree on every bit agree on words. */
  lemma {:induction false} SameBits(f: BitOp, g: BitOp, x: Word, y: Word, z: Word, n: nat)
    requires forall a, b, c :: OnBit(f, a, b, c) == OnBit(g, a, b, c)
    ensures OnBits(f, x, y, z, n) == OnBits(g, x, y, z, n)
  {
    hide OnBit;
    if n > 0 {
      SameBits(f, g, x / 2, y / 2, z / 2, n - 1);
    }
  }

  /** The choice and majority functions of the source are those of the standard. */
  lemma SameF(t: nat, w: Word, x: Word, y: Word)
    ensures SourceF(t, w, x, y) == F(t, w, x, y)
  {
    hide OnBits;
    SameBits(SourceCh, Ch, w, x, y, 32);
    SameBits(SourceMaj, Maj, w, x, y, 32);
  }

  /** Which of the five variables plays role `k` in step `i`: the macro arguments rotate. */
  function Role(i: nat, k: nat): (r: nat)
    ensures r < 5
  {
    (k + 4 * i) % 5
  }

  function RegsAt(s: seq<Word>, i: nat): Regs
    requires |s| == 5
  {
    Regs(s[Role(i, 0)], s[Role(i, 1)], s[Role(i, 2)], s[Role(i, 3)], s[Role(i, 4)])
  }

  lemma RoleShift(i: nat, k: nat)
    requires k < 5
    ensures Role(i + 1, (k + 1) % 5) == Role(i, k) && Role(i, k) < 5
  {
    assert k + 1 < 5 ==> k + 1 + 4 * (i + 1) == k + 4 * i + 5;
    assert k == 4 ==> 0 + 4 * (i + 1) == k + 4 * i;
  }

  lemma RolesDiffer(i: nat, j: nat, k: nat)
    requires j < k < 5
    ensures Role(i, j) != Role(i, k)
  {
  }

  /** Changing the variables in roles 1 and 4 and moving on one step. */
  lemma RolesRotate(s: seq<Word>, i: nat, nz: Word, nw: Word)
    requires |s| == 5
    ensures var r := RegsAt(s, i);
      RegsAt(s[Role(i, 4) := nz][Role(i, 1) := nw], i + 1) == Regs(nz, r.a, nw, r.c, r.d)
  {
    hide Role;
    RoleShift(i, 0);
    RoleShift(i, 1);
    RoleShift(i, 2);
    RoleShift(i, 3);
    RoleShift(i, 4);
    RolesDiffer(i, 0, 4);
    RolesDiffer(i, 1, 4);
    RolesDiffer(i, 2, 4);
    RolesDiffer(i, 3, 4);
    RolesDiffer(i, 0, 1);
    RolesDiffer(i, 1, 2);
    RolesDiffer(i, 1, 3);
  }

  lemma AddLaws(x: Word, y: Word, z: Word)
    ensures Add(x, y) == Add(y, x)
    ensures Add(Add(x, y), z) == Add(x, Add(y, z))
  {
  }

  lemma AddOrder(z: Word, f: Word, w: Word, k: Word, r: Word)
    ensures Add(z, Add(Add(Add(f, w), k), r)) == Add(Add(Add(Add(r, f), z), k), w)
  {
    hide Add;
    var fw := Add(f, w);
    calc {
      Add(z, Add(Add(fw, k), r));
      { AddLaws(Add(fw, k), r, r); AddLaws(r, fw, k); }
      Add(z, Add(Add(r, fw), k));
      { AddLaws(z, Add(r, fw), k); AddLaws(z, Add(r, fw), z); }
      Add(Add(Add(r, fw), z), k);
      { AddLaws(r, f, w); }
      Add(Add(Add(Add(r, f), w), z), k);
      { AddLaws(Add(r, f), w, z); AddLaws(w, z, z); AddLaws(Add(r, f), z, w); }
      Add(Add(Add(Add(r, f), z), w), k);
      { AddLaws(Add(Add(r, f), z), w, k); AddLaws(w, k, k); AddLaws(Add(Add(r, f), z), k, w); }
      Add(Add(Add(Add(r, f), z), k), w);
    }
  }

  /** R0 to R4: z += f(w, x, y) + word + k + rol(v, 5); w = rol(w, 30). */
  method Step(regs: array<Word>, i: nat, word: Word)
    requires regs.Length == 5
    modifies regs
    ensures RegsAt(regs[..], i + 1) == Round(old(RegsAt(regs[..], i)), i, word)
  {
    hide Add, Rol, F, K, SourceF, Role;
    var v, w, x, y, z := Role(i, 0), Role(i, 1), Role(i, 2), Role(i, 3), Role(i, 4);
    ghost var s := regs[..];
    SameF(i, regs[w], regs[x], regs[y]);
    AddOrder(regs[z], SourceF(i, regs[w], regs[x], regs[y]), word, K(i), Rol(regs[v], 5));
    var nz := Add(regs[z], Add(Add(Add(SourceF(i, regs[w], regs[x], regs[y]), word), K(i)), Rol(regs[v], 5)));
    RolesDiffer(i, 1, 4);
    regs[z] := nz;
    var nw := Rol(regs[w], 30);
    regs[w] := nw;
    RolesRotate(s, i, nz, nw);
    hide RegsAt;
    assert regs[..] == s[z := nz][w := nw];
  }

  // ------------------------------------------------------- circular schedule

  function Slot(t: nat): (k: nat)
    ensures k < 16
  {
    t % 16
  }

  /** Slot `k` holds the latest word before `i` whose number is `k` modulo 16. */
  ghost predicate ScheduleAt(l: seq<Word>, b: Bytes, i: nat)
    requires |b| == 64 && |l| == 16
  {
    forall t: nat :: i <= t + 16 && (t < i || t < 16) ==> l[Slot(t)] == W(b, t)
  }

  lemma SlotsBack(i: nat)
    requires i >= 16
    ensures Slot(i + 13) == Slot(i - 3) && Slot(i + 8) == Slot(i - 8)
    ensures Slot(i + 2) == Slot(i - 14) && Slot(i) == Slot(i - 16)
  {
  }

  lemma OtherSlot(i: nat, t: nat)
    requires i < t + 16 && t < i
    ensures Slot(t) != Slot(i)
  {
  }

  lemma WNext(b: Bytes, i: nat)
    requires |b| == 64 && i >= 16
    ensures W(b, i) == Rol(Xor(Xor(Xor(W(b, i - 3), W(b, i - 8)), W(b, i - 14)), W(b, i - 16)), 1)
  {
    hide Rol, Xor;
  }

  /** blk: the next word, written over the one sixteen steps back. */
  lemma NextWord(l: seq<Word>, b: Bytes, i: nat)
    requires |b| == 64 && |l| == 16 && i >= 16 && ScheduleAt(l, b, i)
    ensures Rol(Xor(Xor(Xor(l[Slot(i + 13)], l[Slot(i + 8)]), l[Slot(i + 2)]), l[Slot(i)]), 1) == W(b, i)
    ensures ScheduleAt(l[Slot(i) := W(b, i)], b, i + 1)
  {
    hide Rol, Xor, W, Slot;
    SlotsBack(i);
    WNext(b, i);
    assert l[Slot(i - 3)] == W(b, i - 3) && l[Slot(i - 8)] == W(b, i - 8);
    assert l[Slot(i - 14)] == W(b, i - 14) && l[Slot(i - 16)] == W(b, i - 16);
    var l' := l[Slot(i) := W(b, i)];
    forall t: nat | i + 1 <= t + 16 && t < i + 1
      ensures l'[Slot(t)] == W(b, t)
    {
      if t < i {
        OtherSlot(i, t);
        assert l[Slot(t)] == W(b, t);
      }
    }
  }

  /** SHA1_Transform */
  method Transform(state: array<Word>, buffer: Bytes)
    requires state.Length == 5 && |buffer| == 64
    modifies state
    ensures RegsAt(state[..], 0) == Compress(old(RegsAt(state[..], 0)), buffer)
  {
    hide Rol, Xor, F, K, W, WordAt, Round, Rounds, Slot, ScheduleAt, RegsAt;
    var l := new Word[16](i requires 0 <= i < 16 => WordAt(buffer, i));
    ghost var s0 := state[..];
    ghost var r := RegsAt(s0, 0);
    var regs := new Word[5];
    for k := 0 to 5
      invariant forall j :: 0 <= j < k ==> regs[j] == state[j]
      modifies regs
    {
      regs[k] := state[k];
    }
    assert regs[..] == s0;
    FirstWords(l[..], buffer);
    RoundsStart(r, buffer);
    for i := 0 to 80
      invariant RegsAt(regs[..], i) == Rounds(r, buffer, i)
      invariant ScheduleAt(l[..], buffer, i)
      invariant state[..] == s0
      modifies regs, l
    {
      ghost var s := l[..];
      if i < 16 {
        EarlyWord(s, buffer, i);
      } else {
        NextWord(s, buffer, i);
        l[Slot(i)] := Rol(Xor(Xor(Xor(l[Slot(i + 13)], l[Slot(i + 8)]), l[Slot(i + 2)]), l[Slot(i)]), 1);
        assert l[..] == s[Slot(i) := W(buffer, i)];
      }
      var word := l[Slot(i)];
      ghost var l1 := l[..];
      Step(regs, i, word);
      assert l[..] == l1;
      NextRound(r, buffer, i);
    }
    AddBack(state, regs, s0);
    AddedBack(state[..], s0, regs[..], buffer);
  }

  method AddBack(state: array<Word>, regs: array<Word>, ghost s0: seq<Word>)
    requires state.Length == 5 && regs.Length == 5 && state != regs && state[..] == s0
    modifies state
    ensures forall j :: 0 <= j < 5 ==> state[j] == Add(s0[j], regs[j])
  {
    hide Add;
    for k := 0 to 5
      invariant forall j :: 0 <= j < k ==> state[j] == Add(s0[j], regs[j])
      invariant forall j :: k <= j < 5 ==> state[j] == s0[j]
    {
      state[k] := Add(state[k], regs[k]);
    }
  }

  lemma AddedBack(s: seq<Word>, s0: seq<Word>, g: seq<Word>, b: Bytes)
    requires |s| == |s0| == |g| == 5 && |b| == 64 && RegsAt(g, 80) == Rounds(RegsAt(s0, 0), b, 80)
    requires forall j :: 0 <= j < 5 ==> s[j] == Add(s0[j], g[j])
    ensures RegsAt(s, 0) == Compress(RegsAt(s0, 0), b)
  {
    hide Rounds, Add, Role;
    RolesHome();
  }

  lemma RolesHome()
    ensures forall k: nat :: k < 5 ==> Role(0, k) == k && Role(80, k) == k
  {
  }

  lemma FirstWords(l: seq<Word>, b: Bytes)
    requires |b| == 64 && |l| == 16 && forall i :: 0 <= i < 16 ==> l[i] == WordAt(b, i)
    ensures ScheduleAt(l, b, 0)
  {
  }

  lemma EarlyWord(l: seq<Word>, b: Bytes, i: nat)
    requires |b| == 64 && |l| == 16 && ScheduleAt(l, b, i) && i < 16
    ensures ScheduleAt(l, b, i + 1) && l[Slot(i)] == W(b, i)
  {
    hide W;
  }

  lemma RoundsStart(r: Regs, b: Bytes)
    requires |b| == 64
    ensures Rounds(r, b, 0) == r
  {
  }

  lemma NextRound(r: Regs, b: Bytes, i: nat)
    requires |b| == 64
    ensures Rounds(r, b, i + 1) == Round(Rounds(r, b, i), i, W(b, i))
  {
    hide Round, W;
  }
}
