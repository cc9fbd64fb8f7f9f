/** The bytes of packed values, kind by kind, as the comments and constants at the head of lua-seri.c lay them down. */
module SerializeFormat {
  import opened Basics
  import opened Serialize

  /** The low three bits of the first byte. */
  predicate HasType(v: Value, t: int) {
    match v
    case Nil => t == 0
    case Boolean(_) => t == 1
    case Integer(_) => t == 2
    case Real(_) => t == 2
    case Pointer(_) => t == 3
    case Str(s) => t == if |s| < 32 then 4 else 5
    case Table(_, _) => t == 6
  }

  /** Its high five bits. */
  ghost predicate HasCookie(v: Value, c: int) {
    match v
    case Nil => c == 0
    case Boolean(b) => c == if b then 1 else 0
    case Integer(i) => exists w :: c == WidthCookie(w) && Minimal(i, w)
    case Real(_) => c == 8
    case Pointer(_) => c == 0
    case Str(s) => c == if |s| < 32 then |s| else if |s| < 0x1_0000 then 2 else 4
    case Table(arr, _) => c == if |arr| < 31 then |arr| else 31
  }

  function WidthCookie(w: int): int {
    if w == 8 then 6 else w
  }

  /** A number of bytes that can hold i: one or two are unsigned, four or eight are signed. */
  predicate Holds(i: int, w: int) {
    || (w == 0 && i == 0)
    || (w == 1 && 0 <= i < 0x100) || (w == 2 && 0 <= i < 0x1_0000)
    || (w == 4 && -0x8000_0000 <= i < 0x8000_0000)
    || (w == 8 && -0x8000_0000_0000_0000 <= i < 0x8000_0000_0000_0000)
  }

  /** The least such number. */
  predicate Minimal(i: int, w: int) {
    Holds(i, w) && forall u :: 0 <= u < w ==> !Holds(i, u)
  }

  /** An integer takes as few bytes as possible after the first, lowest byte first, in two's complement. */
  lemma IntegerFormat(i: int)
    requires Holds(i, 8)
    ensures var p := PackInteger(i);
      && |p| > 0 && Minimal(i, |p| - 1) && p[0] % 8 == 2 && p[0] / 8 == WidthCookie(|p| - 1)
      && Natural(p[1..]) == if i >= 0 then i else i + Power256(|p| - 1)
  {
    Powers();
    hide Natural, Little, Power256;
    var p := PackInteger(i);
    if i == 0 {
      Nothing();
      assert p[1..] == [];
    } else {
      var w := if i < -0x8000_0000 || i >= 0x8000_0000 then 8 else if i < 0 || i >= 0x1_0000 then 4
               else if i < 0x100 then 1 else 2;
      LittleNatural(i, w);
      assert p[1..] == Little(i, w);
    }
  }

  lemma Nothing()
    ensures Natural([]) == 0
  {
  }

  /** A string follows its length: in the first byte, or in two or four bytes after it, lowest first. */
  lemma StringFormat(s: Bytes)
    requires |s| < 0x8000_0000
    ensures var p, w := PackString(s), if |s| < 32 then 0 else if |s| < 0x1_0000 then 2 else 4;
      && |p| == 1 + w + |s| && p[1 + w..] == s
      && p[0] % 8 == (if |s| < 32 then 4 else 5) && p[0] / 8 == (if |s| < 32 then |s| else w)
      && (|s| >= 32 ==> Natural(p[1..1 + w]) == |s|)
  {
    Powers();
    hide Natural, Little, Power256;
    var p := PackString(s);
    if |s| >= 32 {
      var w := if |s| < 0x1_0000 then 2 else 4;
      LittleNatural(|s|, w);
      assert p[1..1 + w] == Little(|s|, w);
    }
  }

  /** The first byte of every value holds its type and what the type calls for. */
  lemma FirstByte(v: Value)
    requires Wellformed(v)
    ensures var p := Pack(v); |p| > 0 && HasType(v, p[0] % 8) && HasCookie(v, p[0] / 8)
  {
    hide Little, Minimal, PackInteger, PackString;
    match v
    case Integer(i) => IntegerFormat(i);
    case Str(s) => StringFormat(s);
    case _ =>
  }

  /** Reals and pointers follow as their eight bytes; a table as its size if that is large, its array part in order, its
      pairs in order, and a nil. */
  lemma RestOf(v: Value)
    requires Wellformed(v)
    ensures v.Real? ==> Pack(v)[1..] == v.bits
    ensures v.Pointer? ==> Pack(v)[1..] == v.address
    ensures v.Table? ==>
      Pack(v)[1..] == (if |v.arr| < 31 then [] else PackInteger(|v.arr|)) +
                      Joined(seq(|v.arr|, k requires 0 <= k < |v.arr| => Pack(v.arr[k]))) +
                      Joined(seq(|v.hash|, k requires 0 <= k < |v.hash| => PackPair(v.hash[k]))) + [0]
  {
    if v.Table? {
      var head, list, pairs := PackSize(|v.arr|), PackList(v.arr), PackPairs(v.hash);
      assert Pack(v) == head + list + pairs + [0];
      assert head[1..] == if |v.arr| < 31 then [] else PackInteger(|v.arr|);
      hide Pack, PackList, PackPairs, PackPair, PackSize, PackInteger, Joined, Wellformed;
      ListJoined(v.arr);
      PairsJoined(v.hash);
      Behind(head, list, pairs);
    } else {
      hide PackInteger, PackString, Wellformed;
    }
  }

  lemma Behind(head: Bytes, list: Bytes, pairs: Bytes)
    requires head != []
    ensures (head + list + pairs + [0])[1..] == head[1..] + list + pairs + [0]
  {
  }

  function Joined(parts: seq<Bytes>): Bytes {
    if parts == [] then [] else parts[0] + Joined(parts[1..])
  }

  lemma {:induction false} ListJoined(vs: seq<Value>)
    ensures PackList(vs) == Joined(seq(|vs|, k requires 0 <= k < |vs| => Pack(vs[k])))
    decreases |vs|
  {
    if vs != [] {
      ListJoined(vs[1..]);
      var parts := seq(|vs|, k requires 0 <= k < |vs| => Pack(vs[k]));
      hide Pack;
      assert parts[1..] == seq(|vs| - 1, k requires 0 <= k < |vs| - 1 => Pack(vs[1..][k]));
    }
  }

  lemma {:induction false} PairsJoined(ps: seq<Pair>)
    ensures PackPairs(ps) == Joined(seq(|ps|, k requires 0 <= k < |ps| => PackPair(ps[k])))
    decreases |ps|
  {
    if ps != [] {
      PairsJoined(ps[1..]);
      var parts := seq(|ps|, k requires 0 <= k < |ps| => PackPair(ps[k]));
      hide PackPair;
      assert parts[1..] == seq(|ps| - 1, k requires 0 <= k < |ps| - 1 => PackPair(ps[1..][k]));
    }
  }
}
