/** The writer of skynet/lualib-src/lua-seri.c: packing into a chain of 128-byte blocks. */
module SerializeBlocks {
  import opened Basics
  import opened Serialize

  const BlockSize: nat := 128

  function Flat(blocks: seq<Bytes>): Bytes {
    if blocks == [] then [] else Flat(blocks[..|blocks| - 1]) + blocks[|blocks| - 1]
  }

  lemma FlatLast(blocks: seq<Bytes>, b: Bytes)
    ensures Flat(blocks + [b]) == Flat(blocks) + b
  {
    assert (blocks + [b])[..|blocks|] == blocks;
  }

  /** struct write_block: the blocks already full, and the one being filled. */
  class WriteBlock {
    var full: seq<Bytes>
    var current: array<Byte>
    var ptr: nat
    var len: nat

    ghost predicate Valid()
      reads this, current
    {
      current.Length == BlockSize && ptr <= BlockSize && (forall i :: 0 <= i < |full| ==> |full[i]| == BlockSize) &&
      len == BlockSize * |full| + ptr
    }

    ghost function Contents(): Bytes
      reads this, current
      requires Valid()
    {
      Flat(full) + current[..ptr]
    }

    /** wb_init */
    constructor ()
      ensures Valid() && Contents() == [] && fresh(current)
    {
      full, ptr, len := [], 0, 0;
      current := new Byte[BlockSize];
    }

    /** memcpy into the current block */
    method Copy(data: Bytes)
      requires Valid() && ptr + |data| <= BlockSize
      modifies current, this`ptr, this`len
      ensures Valid() && full == old(full) && ptr == old(ptr) + |data| && Contents() == old(Contents()) + data
    {
      hide Flat;
      ghost var front := current[..ptr];
      for i := 0 to |data|
        invariant current[..ptr] == front && forall j :: 0 <= j < i ==> current[ptr + j] == data[j]
        modifies current
      {
        current[ptr + i] := data[i];
      }
      assert current[..ptr + |data|] == front + data;
      ptr, len := ptr + |data|, len + |data|;
      assert Flat(full) + (front + data) == Flat(full) + front + data;
    }

    /** A new block at the end of the chain, once the current one is full. */
    method NewBlock()
      requires Valid() && ptr == BlockSize
      modifies this
      ensures Valid() && ptr == 0 && fresh(current) && Contents() == old(Contents())
    {
      hide Flat;
      FlatLast(full, current[..]);
      assert current[..ptr] == current[..];
      full := full + [current[..]];
      current := new Byte[BlockSize];
      ptr := 0;
      assert Flat(full) + current[..0] == Flat(full);
    }

    /** wb_push */
    method Push(data: Bytes)
      requires Valid()
      modifies this, current
      ensures Valid() && Contents() == old(Contents()) + data && (current == old(current) || fresh(current))
    {
      hide Flat, Contents;
      ghost var before := Contents();
      var buffer := data;
      if ptr == BlockSize {
        NewBlock();
      }
      assert before + data[..0] == before;
      while ptr + |buffer| > BlockSize
        invariant Valid() && ptr < BlockSize && (current == old(current) || fresh(current))
        invariant |buffer| <= |data| && buffer == data[|data| - |buffer|..]
        invariant Contents() == before + data[..|data| - |buffer|]
        decreases |buffer|
      {
        var copy := BlockSize - ptr;
        ghost var done := |data| - |buffer|;
        Copy(buffer[..copy]);
        assert data[..done] + buffer[..copy] == data[..done + copy];
        assert before + data[..done] + buffer[..copy] == before + data[..done + copy];
        buffer := buffer[copy..];
        NewBlock();
      }
      Copy(buffer);
      ghost var done := |data| - |buffer|;
      assert data[..done] + buffer == data;
      assert before + data[..done] + buffer == before + data;
    }

    /** seri: the chain as one buffer. */
    method Seri() returns (buffer: Bytes)
      requires Valid()
      ensures buffer == Contents()
    {
      buffer := [];
      var left, i := len, 0;
      while left > 0 && left >= BlockSize && i < |full|
        invariant 0 <= i <= |full| && left == len - BlockSize * i
        invariant buffer == Flat(full[..i])
      {
        assert full[..i + 1][..i] == full[..i];
        buffer := buffer + full[i];
        left := left - BlockSize;
        i := i + 1;
      }
      assert full[..|full|] == full;
      buffer := buffer + current[..left];
    }
  }

  // ------------------------------------------------------------------ packing

  lemma Joins(a: Bytes, b: Bytes, c: Bytes)
    ensures a + b + c == a + (b + c)
  {
  }

  /** pack_one: refuses what is nested too deeply, and otherwise appends the packed value. */
  method PackOne(wb: WriteBlock, v: Value, depth: int) returns (ok: bool)
    requires wb.Valid() && Wellformed(v)
    modifies wb, wb.current
    ensures wb.Valid() && (wb.current == old(wb.current) || fresh(wb.current))
    ensures ok <==> Shallow(v, depth)
    ensures ok ==> wb.Contents() == old(wb.Contents()) + Pack(v)
    decreases v, 1
  {
    hide WriteBlock.Valid, WriteBlock.Contents, PackInteger, PackString;
    if depth > MaxDepth {
      return false;
    }
    match v
    case Table(arr, hash) =>
      ok := PackTable(wb, arr, hash, depth + 1, v);
    case _ =>
      wb.Push(Scalar(v));
      ok := true;
  }

  /** The bytes of a value that is not a table. */
  function Scalar(v: Value): (b: Bytes)
    requires !v.Table?
    ensures b == Pack(v)
  {
    match v
    case Nil => [0]
    case Boolean(b) => [1 + 8 * if b then 1 else 0]
    case Integer(i) => PackInteger(i)
    case Real(bits) => [2 + 8 * 8] + bits
    case Pointer(a) => [3] + a
    case Str(s) => PackString(s)
  }

  /** wb_table: wb_table_array, then wb_table_hash */
  method PackTable(wb: WriteBlock, arr: seq<Value>, hash: seq<Pair>, depth: int, ghost v: Value) returns (ok: bool)
    requires wb.Valid() && v == Table(arr, hash) && Wellformed(v) && depth - 1 <= MaxDepth
    modifies wb, wb.current
    ensures wb.Valid() && (wb.current == old(wb.current) || fresh(wb.current))
    ensures ok <==> Shallow(v, depth - 1)
    ensures ok ==> wb.Contents() == old(wb.Contents()) + Pack(v)
    decreases v, 0
  {
    hide WriteBlock.Valid, WriteBlock.Contents, Pack, PackList, PackPairs, PackSize;
    TableParts(arr, hash, depth);
    ghost var c0 := wb.Contents();
    wb.Push(PackSize(|arr|));
    ok := PackArray(wb, arr, depth);
    if !ok {
      return;
    }
    ok := PackHash(wb, hash, depth);
    if !ok {
      return;
    }
    wb.Push([0]);
    TablePacked(c0, arr, hash);
  }

  lemma TableParts(arr: seq<Value>, hash: seq<Pair>, depth: int)
    requires Wellformed(Table(arr, hash)) && depth - 1 <= MaxDepth
    ensures forall k :: 0 <= k < |arr| ==> Wellformed(arr[k])
    ensures forall k :: 0 <= k < |hash| ==> Wellformed(hash[k].key) && Wellformed(hash[k].value)
    ensures Shallow(Table(arr, hash), depth - 1) <==> AllShallow(arr, depth) && PairsShallow(hash, depth)
  {
  }

  predicate AllShallow(vs: seq<Value>, depth: int) {
    forall k :: 0 <= k < |vs| ==> Shallow(vs[k], depth)
  }

  predicate PairsShallow(ps: seq<Pair>, depth: int) {
    forall k :: 0 <= k < |ps| ==> Shallow(ps[k].key, depth) && Shallow(ps[k].value, depth)
  }

  lemma TablePacked(c: Bytes, arr: seq<Value>, hash: seq<Pair>)
    ensures c + PackSize(|arr|) + PackList(arr) + PackPairs(hash) + [0] == c + Pack(Table(arr, hash))
  {
    hide PackSize, PackList, PackPairs;
    var a, b, d := PackSize(|arr|), PackList(arr), PackPairs(hash);
    assert c + a + b + d + [0] == c + (a + b + d + [0]);
  }

  lemma {:induction false} PackListNext(vs: seq<Value>, i: nat)
    requires i < |vs|
    ensures PackList(vs[..i + 1]) == PackList(vs[..i]) + Pack(vs[i])
    decreases i
  {
    hide Pack;
    if i == 0 {
      assert vs[..1] == [vs[0]] && vs[..0] == [];
      assert [vs[0]][1..] == [];
    } else {
      PackListNext(vs[1..], i - 1);
      assert vs[..i + 1][1..] == vs[1..][..i] && vs[..i][1..] == vs[1..][..i - 1];
      Joins(Pack(vs[0]), PackList(vs[1..][..i - 1]), Pack(vs[i]));
    }
  }

  lemma {:induction false} PackPairsNext(ps: seq<Pair>, i: nat)
    requires i < |ps|
    ensures PackPairs(ps[..i + 1]) == PackPairs(ps[..i]) + PackPair(ps[i])
    decreases i
  {
    hide PackPair;
    if i == 0 {
      assert ps[..1] == [ps[0]] && ps[..0] == [];
      assert [ps[0]][1..] == [];
    } else {
      PackPairsNext(ps[1..], i - 1);
      assert ps[..i + 1][1..] == ps[1..][..i] && ps[..i][1..] == ps[1..][..i - 1];
      Joins(PackPair(ps[0]), PackPairs(ps[1..][..i - 1]), PackPair(ps[i]));
    }
  }

  /** The array part, element by element; also pack_from at the top level. */
  method PackArray(wb: WriteBlock, vs: seq<Value>, depth: int) returns (ok: bool)
    requires wb.Valid() && forall k :: 0 <= k < |vs| ==> Wellformed(vs[k])
    modifies wb, wb.current
    ensures wb.Valid() && (wb.current == old(wb.current) || fresh(wb.current))
    ensures ok <==> AllShallow(vs, depth)
    ensures ok ==> wb.Contents() == old(wb.Contents()) + PackList(vs)
    decreases vs, 1
  {
    hide WriteBlock.Valid, WriteBlock.Contents, Pack, PackList, Wellformed, Shallow;
    ghost var c0 := wb.Contents();
    NothingPacked(c0);
    assert vs[..0] == [];
    for i := 0 to |vs|
      invariant wb.Valid() && (wb.current == old(wb.current) || fresh(wb.current))
      invariant forall k :: 0 <= k < i ==> Shallow(vs[k], depth)
      invariant wb.Contents() == c0 + PackList(vs[..i])
    {
      ok := PackOne(wb, vs[i], depth);
      if !ok {
        return;
      }
      PackListNext(vs, i);
      Joins(c0, PackList(vs[..i]), Pack(vs[i]));
    }
    assert vs[..|vs|] == vs;
    ok := true;
  }

  lemma NothingPacked(c: Bytes)
    ensures c + PackList([]) == c && c + PackPairs([]) == c
  {
  }

  method PackHash(wb: WriteBlock, ps: seq<Pair>, depth: int) returns (ok: bool)
    requires wb.Valid() && forall k :: 0 <= k < |ps| ==> Wellformed(ps[k].key) && Wellformed(ps[k].value)
    modifies wb, wb.current
    ensures wb.Valid() && (wb.current == old(wb.current) || fresh(wb.current))
    ensures ok <==> PairsShallow(ps, depth)
    ensures ok ==> wb.Contents() == old(wb.Contents()) + PackPairs(ps)
    decreases ps, 1
  {
    hide WriteBlock.Valid, WriteBlock.Contents, PackPair, PackPairs, Wellformed, Shallow;
    ghost var c0 := wb.Contents();
    NothingPacked(c0);
    assert ps[..0] == [];
    for i := 0 to |ps|
      invariant wb.Valid() && (wb.current == old(wb.current) || fresh(wb.current))
      invariant forall k :: 0 <= k < i ==> Shallow(ps[k].key, depth) && Shallow(ps[k].value, depth)
      invariant wb.Contents() == c0 + PackPairs(ps[..i])
    {
      ok := PackEntry(wb, ps[i], depth);
      if !ok {
        return;
      }
      PackPairsNext(ps, i);
      Joins(c0, PackPairs(ps[..i]), PackPair(ps[i]));
    }
    assert ps[..|ps|] == ps;
    ok := true;
  }

  method PackEntry(wb: WriteBlock, p: Pair, depth: int) returns (ok: bool)
    requires wb.Valid() && Wellformed(p.key) && Wellformed(p.value)
    modifies wb, wb.current
    ensures wb.Valid() && (wb.current == old(wb.current) || fresh(wb.current))
    ensures ok <==> Shallow(p.key, depth) && Shallow(p.value, depth)
    ensures ok ==> wb.Contents() == old(wb.Contents()) + PackPair(p)
    decreases p, 1
  {
    hide WriteBlock.Valid, WriteBlock.Contents, Pack, Wellformed, Shallow;
    ghost var c0 := wb.Contents();
    ok := PackOne(wb, p.key, depth);
    if !ok {
      return;
    }
    ok := PackOne(wb, p.value, depth);
    Joins(c0, Pack(p.key), Pack(p.value));
  }

  /**
   * luaseri_pack: refused exactly when some table is nested too deeply, and
   * otherwise a buffer that luaseri_unpack turns back into the same values.
   */
  method PackMessage(vs: seq<Value>) returns (ok: bool, buffer: Bytes)
    requires forall k :: 0 <= k < |vs| ==> Wellformed(vs[k])
    ensures ok <==> AllShallow(vs, 0)
    ensures ok ==> UnpackAll(buffer) == Ok(vs, [])
  {
    hide Pack, PackList, UnpackAll, Wellformed, WriteBlock.Valid, WriteBlock.Contents;
    buffer := [];
    var wb := new WriteBlock();
    ok := PackArray(wb, vs, 0);
    if ok {
      buffer := wb.Seri();
      assert buffer == [] + PackList(vs) == PackList(vs);
      MessageBack(vs);
    }
  }
}
