/** The message serialiser of skynet/lualib-src/lua-seri.c: the format, and that unpacking undoes packing. */
module Serialize {
  import opened Basics

  /** Lua values; a real and a pointer are their eight bytes. A table is its array part and its other pairs. */
  datatype Value =
    | Nil
    | Boolean(b: bool)
    | Integer(i: int)
    | Real(bits: Bytes)
    | Pointer(address: Bytes)
    | Str(s: Bytes)
    | Table(arr: seq<Value>, hash: seq<Pair>)

  datatype Pair = Pair(key: Value, value: Value)

  const MaxDepth: int := 32

  /** Values of the ranges that Lua and the C types allow; keys of a table are not nil. */
  predicate Wellformed(v: Value)
    decreases v
  {
    match v
    case Integer(i) => -0x8000_0000_0000_0000 <= i < 0x8000_0000_0000_0000
    case Real(bits) => |bits| == 8
    case Pointer(a) => |a| == 8
    case Str(s) => |s| < 0x8000_0000
    case Table(arr, hash) =>
      |arr| < 0x8000_0000 && (forall k :: 0 <= k < |arr| ==> Wellformed(arr[k])) &&
      forall k :: 0 <= k < |hash| ==> !hash[k].key.Nil? && Wellformed(hash[k].key) && Wellformed(hash[k].value)
    case _ => true
  }

  /** Tables nested at most so deep. */
  predicate Shallow(v: Value, depth: int)
    decreases v
  {
    depth <= MaxDepth &&
    match v
    case Table(arr, hash) =>
      (forall k :: 0 <= k < |arr| ==> Shallow(arr[k], depth + 1)) &&
      forall k :: 0 <= k < |hash| ==> Shallow(hash[k].key, depth + 1) && Shallow(hash[k].value, depth + 1)
    case _ => true
  }

  // ----------------------------------------------------------------- integers

  /** The low `n` bytes, lowest first; a negative number is in two's complement. */
  function Little(v: int, n: nat): Bytes
    decreases n
  {
    if n == 0 then [] else [v % 256] + Little(v / 256, n - 1)
  }

  function Natural(b: Bytes): nat {
    if b == [] then 0 else b[0] + 256 * Natural(b[1..])
  }

  lemma {:induction false} LittleNatural(v: int, n: nat)
    ensures |Little(v, n)| == n
    ensures 0 <= v < Power256(n) ==> Natural(Little(v, n)) == v
    ensures 0 <= v + Power256(n) && v < 0 ==> Natural(Little(v, n)) == v + Power256(n)
    decreases n
  {
    if n > 0 {
      LittleNatural(v / 256, n - 1);
      var l := Little(v, n);
      assert l[0] == v % 256 && l[1..] == Little(v / 256, n - 1);
    }
  }

  lemma Powers()
    ensures Power256(1) == 0x100 && Power256(2) == 0x1_0000 && Power256(4) == 0x1_0000_0000
    ensures Power256(8) == 0x1_0000_0000_0000_0000
  {
    assert Power256(0) == 1 && Power256(1) == 256 * Power256(0) && Power256(2) == 256 * Power256(1);
    assert Power256(3) == 256 * Power256(2) && Power256(4) == 256 * Power256(3);
    assert Power256(5) == 256 * Power256(4) && Power256(6) == 256 * Power256(5);
    assert Power256(7) == 256 * Power256(6) && Power256(8) == 256 * Power256(7);
  }

  /** An unsigned number read as a signed one of the same width. */
  function Signed(x: nat, half: nat): int {
    if x < half then x else x - 2 * half
  }

  /** wb_integer */
  function PackInteger(v: int): Bytes {
    if v == 0 then [2]
    else if v < -0x8000_0000 || v >= 0x8000_0000 then [2 + 6 * 8] + Little(v, 8)
    else if v < 0 then [2 + 4 * 8] + Little(v, 4)
    else if v < 0x100 then [2 + 1 * 8] + Little(v, 1)
    else if v < 0x1_0000 then [2 + 2 * 8] + Little(v, 2)
    else [2 + 4 * 8] + Little(v, 4)
  }

  datatype Result<T> = Invalid | Ok(value: T, rest: Bytes)

  /** rb_read */
  function Read(b: Bytes, n: nat): Result<Bytes> {
    if |b| < n then Invalid else Ok(b[..n], b[n..])
  }

  /** get_integer */
  function GetInteger(b: Bytes, cookie: int): (r: Result<int>)
    ensures r.Ok? ==> |r.rest| <= |b|
  {
    match cookie
    case 0 => Ok(0, b)
    case 1 => (match Read(b, 1) case Ok(x, t) => Ok(Natural(x), t) case Invalid => Invalid)
    case 2 => (match Read(b, 2) case Ok(x, t) => Ok(Natural(x), t) case Invalid => Invalid)
    case 4 => (match Read(b, 4) case Ok(x, t) => Ok(Signed(Natural(x), 0x8000_0000), t) case Invalid => Invalid)
    case 6 => (match Read(b, 8)
               case Ok(x, t) => Ok(Signed(Natural(x), 0x8000_0000_0000_0000), t)
               case Invalid => Invalid)
    case _ => Invalid
  }

  lemma ReadBack(x: Bytes, t: Bytes)
    ensures Read(x + t, |x|) == Ok(x, t)
  {
  }

  lemma UnsignedBack(v: int, n: nat, t: Bytes)
    requires n in {1, 2} && 0 <= v < Power256(n)
    ensures GetInteger(Little(v, n) + t, n) == Ok(v, t)
  {
    LittleNatural(v, n);
    hide Little, Natural;
    ReadBack(Little(v, n), t);
  }

  lemma SignedBack(v: int, n: nat, half: nat, t: Bytes)
    requires (n == 4 && half == 0x8000_0000) || (n == 8 && half == 0x8000_0000_0000_0000)
    requires 0 <= v + half && v < half
    ensures GetInteger(Little(v, n) + t, if n == 4 then 4 else 6) == Ok(v, t)
  {
    Powers();
    LittleNatural(v, n);
    hide Little, Natural, Power256;
    ReadBack(Little(v, n), t);
  }

  lemma IntegerBack(v: int, t: Bytes)
    requires -0x8000_0000_0000_0000 <= v < 0x8000_0000_0000_0000
    ensures var p := PackInteger(v) + t;
      |p| >= 1 && p[0] % 8 == 2 && p[0] / 8 in {0, 1, 2, 4, 6} && GetInteger(p[1..], p[0] / 8) == Ok(v, t)
  {
    hide Little, Natural, GetInteger;
    Powers();
    var p := PackInteger(v) + t;
    if v == 0 {
      assert p[1..] == t;
      ZeroBack(t);
    } else if v < -0x8000_0000 || v >= 0x8000_0000 {
      assert p[1..] == Little(v, 8) + t;
      SignedBack(v, 8, 0x8000_0000_0000_0000, t);
    } else if v < 0 || v >= 0x1_0000 {
      assert p[1..] == Little(v, 4) + t;
      SignedBack(v, 4, 0x8000_0000, t);
    } else if v < 0x100 {
      assert p[1..] == Little(v, 1) + t;
      UnsignedBack(v, 1, t);
    } else {
      assert p[1..] == Little(v, 2) + t;
      UnsignedBack(v, 2, t);
    }
  }

  lemma ZeroBack(t: Bytes)
    ensures GetInteger(t, 0) == Ok(0, t)
  {
  }

  // ------------------------------------------------------------------ packing

  /** wb_string */
  function PackString(s: Bytes): Bytes {
    if |s| < 32 then [4 + 8 * |s|] + s
    else if |s| < 0x1_0000 then [5 + 8 * 2] + Little(|s|, 2) + s
    else [5 + 8 * 4] + Little(|s|, 4) + s
  }

  /** The head of a table: its array size, in the type byte or after it. */
  function PackSize(n: nat): Bytes {
    if n >= 31 then [6 + 8 * 31] + PackInteger(n) else [6 + 8 * n]
  }

  /** pack_one, without its limit on depth */
  function Pack(v: Value): Bytes
    decreases v
  {
    match v
    case Nil => [0]
    case Boolean(b) => [1 + 8 * if b then 1 else 0]
    case Integer(i) => PackInteger(i)
    case Real(bits) => [2 + 8 * 8] + bits
    case Pointer(a) => [3] + a
    case Str(s) => PackString(s)
    case Table(arr, hash) => PackSize(|arr|) + PackList(arr) + PackPairs(hash) + [0]
  }

  function PackList(vs: seq<Value>): Bytes
    decreases vs
  {
    if vs == [] then [] else Pack(vs[0]) + PackList(vs[1..])
  }

  function PackPairs(ps: seq<Pair>): Bytes
    decreases ps
  {
    if ps == [] then [] else PackPair(ps[0]) + PackPairs(ps[1..])
  }

  function PackPair(p: Pair): Bytes
    decreases p
  {
    Pack(p.key) + Pack(p.value)
  }

  // ---------------------------------------------------------------- unpacking

  function Int32(x: int): int {
    Signed(x % 0x1_0000_0000, 0x8000_0000)
  }

  /** The array size of a table: the cookie, or an integer that follows. */
  function GetSize(b: Bytes, cookie: int): (r: Result<int>)
    ensures r.Ok? ==> |r.rest| <= |b|
  {
    if cookie != 31 then Ok(cookie, b)
    else
      match Read(b, 1)
      case Invalid => Invalid
      case Ok(x, t) =>
        if x[0] % 8 != 2 || x[0] / 8 == 8 then Invalid
        else
          match GetInteger(t, x[0] / 8)
          case Invalid => Invalid
          case Ok(n, t') => Ok(Int32(n), t')
  }

  /** push_value for a string */
  function GetString(b: Bytes, cookie: int): (r: Result<Value>)
    ensures r.Ok? ==> |r.rest| <= |b|
  {
    if cookie != 2 && cookie != 4 then Invalid
    else
      match Read(b, cookie)
      case Invalid => Invalid
      case Ok(x, t) => (match Read(t, Natural(x)) case Invalid => Invalid case Ok(s, t') => Ok(Str(s), t'))
  }

  function AsValue(r: Result<Bytes>, f: Bytes -> Value): Result<Value> {
    match r
    case Invalid => Invalid
    case Ok(x, t) => Ok(f(x), t)
  }

  /** unpack_one with push_value */
  function UnpackOne(b: Bytes): (r: Result<Value>)
    ensures r.Ok? ==> |r.rest| < |b|
    decreases |b|, 2
  {
    if b == [] then Invalid
    else
      var cookie, t := b[0] / 8, b[1..];
      match b[0] % 8
      case 0 => Ok(Nil, t)
      case 1 => Ok(Boolean(cookie != 0), t)
      case 2 =>
        if cookie == 8 then AsValue(Read(t, 8), x => Real(x))
        else (match GetInteger(t, cookie) case Invalid => Invalid case Ok(i, t') => Ok(Integer(i), t'))
      case 3 => AsValue(Read(t, 8), x => Pointer(x))
      case 4 => AsValue(Read(t, cookie), x => Str(x))
      case 5 => GetString(t, cookie)
      case 6 => UnpackTable(t, cookie)
      case _ => Invalid
  }

  /** unpack_table */
  function UnpackTable(b: Bytes, cookie: int): (r: Result<Value>)
    ensures r.Ok? ==> |r.rest| <= |b|
    decreases |b|, 5
  {
    match GetSize(b, cookie)
    case Invalid => Invalid
    case Ok(n, t) =>
      match UnpackList(t, if n < 0 then 0 else n)
      case Invalid => Invalid
      case Ok(arr, t') =>
        match UnpackPairs(t')
        case Invalid => Invalid
        case Ok(hash, t'') => Ok(Table(arr, hash), t'')
  }

  function UnpackList(b: Bytes, n: nat): (r: Result<seq<Value>>)
    ensures r.Ok? ==> |r.rest| <= |b|
    decreases |b|, 4
  {
    if n == 0 then Ok([], b)
    else
      match UnpackOne(b)
      case Invalid => Invalid
      case Ok(v, t) =>
        match UnpackList(t, n - 1)
        case Invalid => Invalid
        case Ok(vs, t') => Ok([v] + vs, t')
  }

  /** The second loop of unpack_table: pairs up to a nil key. */
  function UnpackPairs(b: Bytes): (r: Result<seq<Pair>>)
    ensures r.Ok? ==> |r.rest| <= |b|
    decreases |b|, 3
  {
    match UnpackOne(b)
    case Invalid => Invalid
    case Ok(k, t) =>
      if k.Nil? then Ok([], t)
      else
        match UnpackOne(t)
        case Invalid => Invalid
        case Ok(v, t') =>
          match UnpackPairs(t')
          case Invalid => Invalid
          case Ok(ps, t'') => Ok([Pair(k, v)] + ps, t'')
  }

  /** luaseri_unpack: values to the end of the buffer. */
  function UnpackAll(b: Bytes): Result<seq<Value>>
    decreases |b|
  {
    if b == [] then Ok([], [])
    else
      match UnpackOne(b)
      case Invalid => Invalid
      case Ok(v, t) =>
        match UnpackAll(t)
        case Invalid => Invalid
        case Ok(vs, t') => Ok([v] + vs, t')
  }

  // --------------------------------------------------------------- round trip

  lemma SizeBack(n: nat, t: Bytes)
    requires n < 0x8000_0000
    ensures var p := PackSize(n) + t;
      |p| >= 1 && p[0] % 8 == 6 && GetSize(p[1..], p[0] / 8) == Ok(n, t)
  {
    hide PackInteger, GetInteger;
    var p := PackSize(n) + t;
    if n >= 31 {
      IntegerBack(n, t);
      var q := PackInteger(n) + t;
      assert p[1..] == q;
      assert q[..1][0] == q[0];
    } else {
      assert p[1..] == t;
    }
  }

  lemma StringBack(s: Bytes, t: Bytes)
    requires |s| < 0x8000_0000
    ensures UnpackOne(PackString(s) + t) == Ok(Str(s), t)
  {
    hide UnpackOne, Little;
    if |s| < 32 {
      ShortBack(s, t);
    } else {
      var n := if |s| < 0x1_0000 then 2 else 4;
      Powers();
      LongBack(s, n, t);
      assert PackString(s) + t == [5 + 8 * n] + Little(|s|, n) + s + t;
    }
  }

  lemma ShortBack(s: Bytes, t: Bytes)
    requires |s| < 32
    ensures UnpackOne([4 + 8 * |s|] + s + t) == Ok(Str(s), t)
  {
    ReadBack(s, t);
    assert ([4 + 8 * |s|] + s + t)[1..] == s + t;
  }

  lemma LongBack(s: Bytes, n: nat, t: Bytes)
    requires n in {2, 4} && |s| < Power256(n)
    ensures UnpackOne([5 + 8 * n] + Little(|s|, n) + s + t) == Ok(Str(s), t)
  {
    LittleNatural(|s|, n);
    hide Little, Natural, Power256;
    var p := [5 + 8 * n] + Little(|s|, n) + s + t;
    assert p[1..] == Little(|s|, n) + (s + t);
    ReadBack(Little(|s|, n), s + t);
    ReadBack(s, t);
    hide Read;
    assert GetString(p[1..], n) == Ok(Str(s), t);
  }

  /** Unpacking what was packed gives it back and leaves what follows. */
  lemma {:induction false} OneBack(v: Value, t: Bytes)
    requires Wellformed(v)
    ensures UnpackOne(Pack(v) + t) == Ok(v, t)
    decreases v
  {
    var p := Pack(v) + t;
    match v
    case Nil => assert p[1..] == t;
    case Boolean(b) => assert p[1..] == t;
    case Integer(i) => IntegerOne(i, t);
    case Real(bits) => EightBack(bits, t);
    case Pointer(a) => EightBack(a, t);
    case Str(s) => StringBack(s, t);
    case Table(arr, hash) =>
      ListBack(arr, PackPairs(hash) + [0] + t);
      PairsBack(hash, t);
      TableOne(arr, hash, t);
  }

  lemma IntegerOne(i: int, t: Bytes)
    requires -0x8000_0000_0000_0000 <= i < 0x8000_0000_0000_0000
    ensures UnpackOne(PackInteger(i) + t) == Ok(Integer(i), t)
  {
    hide PackInteger, GetInteger;
    IntegerBack(i, t);
  }

  lemma EightBack(x: Bytes, t: Bytes)
    requires |x| == 8
    ensures UnpackOne([2 + 8 * 8] + x + t) == Ok(Real(x), t)
    ensures UnpackOne([3] + x + t) == Ok(Pointer(x), t)
  {
    ReadBack(x, t);
    assert ([2 + 8 * 8] + x + t)[1..] == x + t;
    assert ([3] + x + t)[1..] == x + t;
  }

  lemma TableOne(arr: seq<Value>, hash: seq<Pair>, t: Bytes)
    requires |arr| < 0x8000_0000
    requires UnpackList(PackList(arr) + (PackPairs(hash) + [0] + t), |arr|) == Ok(arr, PackPairs(hash) + [0] + t)
    requires UnpackPairs(PackPairs(hash) + [0] + t) == Ok(hash, t)
    ensures UnpackOne(Pack(Table(arr, hash)) + t) == Ok(Table(arr, hash), t)
  {
    hide PackSize, GetSize, PackList, PackPairs, UnpackList, UnpackPairs, UnpackOne;
    var tail := PackPairs(hash) + [0] + t;
    var p := PackSize(|arr|) + (PackList(arr) + tail);
    assert Pack(Table(arr, hash)) + t == p by { TableForm(PackSize(|arr|), PackList(arr), PackPairs(hash), t); }
    SizeBack(|arr|, PackList(arr) + tail);
    TableCase(p);
    assert UnpackTable(p[1..], p[0] / 8) == Ok(Table(arr, hash), t);
  }

  lemma TableForm(a: Bytes, b: Bytes, c: Bytes, t: Bytes)
    ensures a + b + c + [0] + t == a + (b + (c + [0] + t))
  {
  }

  lemma TableCase(b: Bytes)
    requires b != [] && b[0] % 8 == 6
    ensures UnpackOne(b) == UnpackTable(b[1..], b[0] / 8)
  {
    hide UnpackTable;
  }

  lemma {:induction false} ListBack(vs: seq<Value>, t: Bytes)
    requires forall k :: 0 <= k < |vs| ==> Wellformed(vs[k])
    ensures UnpackList(PackList(vs) + t, |vs|) == Ok(vs, t)
    decreases vs
  {
    hide Pack, UnpackOne, Wellformed;
    if vs == [] {
      assert PackList(vs) + t == t;
    } else {
      var rest := PackList(vs[1..]) + t;
      assert PackList(vs) + t == Pack(vs[0]) + rest;
      OneBack(vs[0], rest);
      ListBack(vs[1..], t);
      assert [vs[0]] + vs[1..] == vs;
    }
  }

  lemma {:induction false} PairBack(p: Pair, t: Bytes)
    requires Wellformed(p.key) && Wellformed(p.value)
    ensures UnpackOne(PackPair(p) + t) == Ok(p.key, Pack(p.value) + t)
    ensures UnpackOne(Pack(p.value) + t) == Ok(p.value, t)
    decreases p
  {
    hide Pack, UnpackOne, Wellformed;
    OneBack(p.key, Pack(p.value) + t);
    OneBack(p.value, t);
    assert PackPair(p) + t == Pack(p.key) + (Pack(p.value) + t);
  }

  lemma {:induction false} PairsBack(ps: seq<Pair>, t: Bytes)
    requires forall k :: 0 <= k < |ps| ==> !ps[k].key.Nil? && Wellformed(ps[k].key) && Wellformed(ps[k].value)
    ensures UnpackPairs(PackPairs(ps) + [0] + t) == Ok(ps, t)
    decreases ps
  {
    hide Pack, PackPair, Wellformed;
    if ps == [] {
      assert PackPairs(ps) + [0] + t == [0] + t;
      assert ([0] + t)[1..] == t;
    } else {
      hide UnpackOne;
      var rest := PackPairs(ps[1..]) + [0] + t;
      assert PackPairs(ps) + [0] + t == PackPair(ps[0]) + rest;
      PairBack(ps[0], rest);
      PairsBack(ps[1..], t);
      assert [Pair(ps[0].key, ps[0].value)] + ps[1..] == ps;
    }
  }

  /** Unpacking a whole message gives back the list of values that was packed. */
  lemma {:induction false} MessageBack(vs: seq<Value>)
    requires forall k :: 0 <= k < |vs| ==> Wellformed(vs[k])
    ensures UnpackAll(PackList(vs)) == Ok(vs, [])
    decreases vs
  {
    hide Pack, UnpackOne, Wellformed;
    if vs != [] {
      OneBack(vs[0], PackList(vs[1..]));
      MessageBack(vs[1..]);
      PackNotEmpty(vs[0]);
      assert [vs[0]] + vs[1..] == vs;
    }
  }

  lemma PackNotEmpty(v: Value)
    ensures |Pack(v)| > 0
  {
  }
}
