/** convtable, lindexconf and lnextkey of skynet/lualib-src/lua-sharedata.c. */
module SharedConf {
  import opened Basics
  import opened SharedLayout
  import opened SharedData
  import opened SharedFill

  // -------------------------------------------------------------- conversion

  /** setvalue: inner tables are converted by the same routine. */
  method SetValue(v: Given) returns (st: Stored)
    requires v.Inner? ==> Valid(v.t)
    ensures st != Nil && Same(v, st)
    decreases v, 0
  {
    match v
    case Atom(a) =>
      st := Scalar(a);
    case Inner(t) =>
      var c := ConvTable(t);
      st := Sub(c);
  }

  lemma EntryValid(t: Source, i: int)
    requires Valid(t) && 0 <= i < |t.entries|
    ensures DistinctKeys(t.entries) && (t.entries[i].value.Inner? ==> Valid(t.entries[i].value.t))
  {
  }

  /** fillnocolliding */
  method FillNoColliding(t: Source, hash: array<Node>, arr: array<Stored>)
    requires Valid(t) && hash.Length > 0 && arr.Length == t.rawlen
    requires FirstDone(hash[..], t, 0) && ArrayDone(arr[..], t, 0)
    modifies hash, arr
    ensures FirstDone(hash[..], t, |t.entries|) && ArrayDone(arr[..], t, |t.entries|)
    decreases t, 1
  {
    hide Valid, FirstDone, ArrayDone, Same, KeyHash;
    for i := 0 to |t.entries|
      invariant FirstDone(hash[..], t, i) && ArrayDone(arr[..], t, i)
    {
      EntryValid(t, i);
      var k := t.entries[i].key;
      ghost var s, a := hash[..], arr[..];
      if !IsHashKey(k, t.rawlen) {
        var st := SetValue(t.entries[i].value);
        ArrayStep(a, t, i, st);
        arr[k.i - 1] := st;
        assert arr[..] == a[k.i - 1 := st] && hash[..] == s;
        FirstSkip(s, t, i);
      } else {
        ArraySkip(a, t, i);
        var g := KeyHash(k) % hash.Length;
        if hash[g].value == Nil {
          var st := SetValue(t.entries[i].value);
          FirstTake(s, t, i, st);
          hash[g] := Node(st, k, -1, KeyHash(k), true);
          assert hash[..] == s[g := Node(st, k, -1, KeyHash(k), true)] && arr[..] == a;
        } else {
          FirstSkip(s, t, i);
        }
      }
    }
  }

  lemma FirstSkip(s: seq<Node>, t: Source, m: int)
    requires FirstDone(s, t, m) && m < |t.entries|
    requires IsHashKey(t.entries[m].key, t.rawlen) ==> Filled(s, MainSlot(s, t.entries[m].key))
    ensures FirstDone(s, t, m + 1)
  {
    hide KeyHash, FromSource;
  }

  /** fillcolliding: the assertion that an empty slot is left always holds. */
  method FillColliding(t: Source, hash: array<Node>)
    requires Valid(t) && hash.Length == |HashKeys(t.entries, t.rawlen, |t.entries|)| > 0
    requires SecondDone(hash[..], t, 0)
    modifies hash
    ensures SecondDone(hash[..], t, |t.entries|)
    decreases t, 1
  {
    hide Valid, SecondDone, Same, KeyHash, HashKeys, CanInsert;
    for m := 0 to |t.entries|
      invariant SecondDone(hash[..], t, m)
    {
      EntryValid(t, m);
      var k := t.entries[m].key;
      ghost var s := hash[..];
      if IsHashKey(k, t.rawlen) && hash[KeyHash(k) % hash.Length].key != k {
        var g := KeyHash(k) % hash.Length;
        RoomForKey(s, t, m);
        var e := 0;
        while e < hash.Length && hash[e].value != Nil
          invariant 0 <= e <= hash.Length && forall j :: 0 <= j < e ==> hash[j].value != Nil
          modifies {}
        {
          e := e + 1;
        }
        FirstEmpty(s, e);
        assert e < hash.Length;
        var st := SetValue(t.entries[m].value);
        SlotUsable(s, t, m, e, st);
        InsertShape(s, e, k, st);
        SecondInsert(s, t, m, e, st);
        hash[e] := Node(st, k, hash[g].next, KeyHash(k), false);
        hash[g] := hash[g].(next := e, nocolliding := false);
        assert hash[..] == Insert(s, g, e, k, st);
      } else {
        SecondSkip(s, t, m);
      }
    }
  }

  lemma FirstEmpty(s: seq<Node>, e: int)
    requires exists i :: 0 <= i < |s| && !Filled(s, i)
    requires 0 <= e <= |s| && forall j :: 0 <= j < e ==> s[j].value != Nil
    ensures e < |s|
  {
  }

  lemma RoomForKey(s: seq<Node>, t: Source, m: int)
    requires SecondDone(s, t, m) && m < |t.entries| && DistinctKeys(t.entries)
    requires |s| == |HashKeys(t.entries, t.rawlen, |t.entries|)|
    requires IsHashKey(t.entries[m].key, t.rawlen) && s[MainSlot(s, t.entries[m].key)].key != t.entries[m].key
    ensures exists i :: 0 <= i < |s| && !Filled(s, i)
  {
    NotYetPlaced(s, t, m);
    hide KeyHash, NodeOk, Linked, HasMain, EmptyAbove, Same;
    HashKeysAre(t.entries, t.rawlen, |t.entries|, t.entries[m].key);
    forall i | Filled(s, i)
      ensures s[i].key in HashKeys(t.entries, t.rawlen, |t.entries|)
    {
      var e :| Origin(t, e, s[i]);
      HashKeysAre(t.entries, t.rawlen, |t.entries|, s[i].key);
    }
    RoomLeft(s, t.entries, t.rawlen, t.entries[m].key);
  }

  lemma SlotUsable(s: seq<Node>, t: Source, m: int, e: int, st: Stored)
    requires SecondDone(s, t, m) && m < |t.entries| && DistinctKeys(t.entries)
    requires IsHashKey(t.entries[m].key, t.rawlen) && s[MainSlot(s, t.entries[m].key)].key != t.entries[m].key
    requires 0 <= e < |s| && s[e].value == Nil && (forall j :: 0 <= j < e ==> s[j].value != Nil) && st != Nil
    ensures CanInsert(s, e, t.entries[m].key, st)
  {
    NotYetPlaced(s, t, m);
    hide KeyHash, NodeOk, Linked, EmptyAbove, Same;
  }

  /** The loop of convtable for a table without hash part. */
  method FillArray(t: Source, arr: array<Stored>)
    requires Valid(t) && arr.Length == t.rawlen
    requires forall e :: 0 <= e < |t.entries| ==> !IsHashKey(t.entries[e].key, t.rawlen)
    requires forall i :: 0 <= i < arr.Length ==> arr[i] == Nil
    modifies arr
    ensures ArrayDone(arr[..], t, |t.entries|)
    decreases t, 1
  {
    hide Valid, Same;
    for i := 1 to t.rawlen + 1
      invariant forall j :: i - 1 <= j < arr.Length ==> arr[j] == Nil
      invariant forall j :: 0 <= j < i - 1 && arr[j] != Nil ==> KnownKey(t, IntKey(j + 1))
      invariant forall e :: 0 <= e < |t.entries| && t.entries[e].key.i < i ==>
        Same(t.entries[e].value, arr[t.entries[e].key.i - 1])
    {
      var e := 0;
      while e < |t.entries| && t.entries[e].key != IntKey(i)
        invariant 0 <= e <= |t.entries| && forall x :: 0 <= x < e ==> t.entries[x].key != IntKey(i)
        modifies {}
      {
        e := e + 1;
      }
      if e < |t.entries| {
        EntryValid(t, e);
        var st := SetValue(t.entries[e].value);
        arr[i - 1] := st;
        assert KnownKey(t, IntKey(i));
      }
    }
  }

  /** convtable: the result agrees with its source, all the way down. */
  method ConvTable(t: Source) returns (c: Table)
    requires Valid(t)
    ensures Converted(t, c)
    decreases t, 2
  {
    hide Valid, FirstDone, ArrayDone, SecondDone, Same, KeyHash, HashKeys, Converted;
    var arr := new Stored[t.rawlen](_ => Nil);
    assert DistinctKeys(t.entries) by { KeysOf(t); }
    var sizehash := CountSize(t.entries, t.rawlen);
    var hash := new Node[sizehash](_ => Node(Nil, IntKey(0), -1, 0, false));
    if sizehash != 0 {
      FirstBegins(hash[..], arr[..], t);
      FillNoColliding(t, hash, arr);
      ghost var a := arr[..];
      SecondBegins(hash[..], t);
      FillColliding(t, hash);
      assert arr[..] == a;
      SecondEnds(hash[..], arr[..], t);
    } else {
      NoHashPart(t);
      FillArray(t, arr);
      ArrayOnly(hash[..], arr[..], t);
    }
    c := Table(arr[..], hash[..]);
  }

  lemma KeysOf(t: Source)
    requires Valid(t)
    ensures DistinctKeys(t.entries)
  {
  }

  lemma NoHashPart(t: Source)
    requires |HashKeys(t.entries, t.rawlen, |t.entries|)| == 0
    ensures forall e :: 0 <= e < |t.entries| ==> !IsHashKey(t.entries[e].key, t.rawlen)
  {
    forall e | 0 <= e < |t.entries|
      ensures !IsHashKey(t.entries[e].key, t.rawlen)
    {
      HashKeysAre(t.entries, t.rawlen, |t.entries|, t.entries[e].key);
    }
  }

  lemma FirstBegins(s: seq<Node>, a: seq<Stored>, t: Source)
    requires |s| > 0 && (forall i :: 0 <= i < |s| ==> s[i].value == Nil)
    requires |a| == t.rawlen && forall i :: 0 <= i < |a| ==> a[i] == Nil
    ensures FirstDone(s, t, 0) && ArrayDone(a, t, 0)
  {
  }

  lemma ArrayOnly(s: seq<Node>, a: seq<Stored>, t: Source)
    requires |s| == 0 && ArrayDone(a, t, |t.entries|)
    requires forall e :: 0 <= e < |t.entries| ==> !IsHashKey(t.entries[e].key, t.rawlen)
    ensures Converted(t, Table(a, s))
  {
    hide Same;
  }

  lemma SecondEnds(s: seq<Node>, a: seq<Stored>, t: Source)
    requires SecondDone(s, t, |t.entries|) && ArrayDone(a, t, |t.entries|) && DistinctKeys(t.entries)
    requires |s| == |HashKeys(t.entries, t.rawlen, |t.entries|)|
    ensures Converted(t, Table(a, s))
  {
    hide Same, KeyHash, NodeOk, Linked, HasMain, EmptyAbove;
    forall k | k in HashKeys(t.entries, t.rawlen, |t.entries|)
      ensures Placed(s, k)
    {
      HashKeysAre(t.entries, t.rawlen, |t.entries|, k);
    }
    AllPlaced(s, t.entries, t.rawlen);
    forall e | 0 <= e < |t.entries| && IsHashKey(t.entries[e].key, t.rawlen)
      ensures exists i :: 0 <= i < |s| && InSlot(t.entries[e].value, t.entries[e].key, s[i])
    {
      assert Placed(s, t.entries[e].key);
      var i :| Filled(s, i) && s[i].key == t.entries[e].key;
      var o :| Origin(t, o, s[i]);
      assert o == e;
    }
    forall i | 0 <= i < |s|
      ensures KnownKey(t, s[i].key) && IsHashKey(s[i].key, t.rawlen)
    {
      assert Filled(s, i);
      var o :| Origin(t, o, s[i]);
    }
  }

  // ------------------------------------------------------------------ reading

  /** `st` stands for the value that the source has at `k`. */
  ghost predicate Holds(t: Source, k: Key, st: Stored) {
    exists e :: 0 <= e < |t.entries| && t.entries[e].key == k && Same(t.entries[e].value, st)
  }

  lemma ConvertedParts(t: Source, c: Table)
    requires Converted(t, c)
    ensures |c.arr| == t.rawlen && Laid(c.hash) && Full(c.hash)
    ensures forall i :: 0 <= i < |c.hash| ==> KnownKey(t, c.hash[i].key) && IsHashKey(c.hash[i].key, t.rawlen)
    ensures forall i :: 0 <= i < |c.arr| && c.arr[i] != Nil ==> KnownKey(t, IntKey(i + 1))
  {
    hide Same, Laid, Full, KnownKey;
  }

  lemma ConvertedLaid(t: Source, c: Table)
    requires Converted(t, c)
    ensures Laid(c.hash) && Full(c.hash)
  {
    hide Same, Laid, Full, KnownKey;
  }

  lemma ConvertedEntry(t: Source, c: Table, e: int)
    requires Converted(t, c) && 0 <= e < |t.entries|
    ensures |c.arr| == t.rawlen
    ensures !IsHashKey(t.entries[e].key, t.rawlen) ==> Same(t.entries[e].value, c.arr[t.entries[e].key.i - 1])
    ensures IsHashKey(t.entries[e].key, t.rawlen) ==>
      exists i :: 0 <= i < |c.hash| && InSlot(t.entries[e].value, t.entries[e].key, c.hash[i])
  {
    hide Same, Laid, Full, KnownKey;
  }

  /** The cast of an integer key to int, which lindexconf and lnextkey make before anything else. */
  function CastKey(k: Key): Key {
    match k
    case IntKey(i) => IntKey((i + 0x8000_0000) % 0x1_0000_0000 - 0x8000_0000)
    case StrKey(_) => k
  }

  /** The cast keeps exactly the keys in the range of int. */
  lemma CastExact(k: Key)
    ensures CastKey(k) == k <==> (k.IntKey? ==> -0x8000_0000 <= k.i < 0x8000_0000)
  {
  }

  /** A key outside that range is answered as another one. */
  lemma CastFails()
    ensures CastKey(IntKey(0x1_0000_0001)) == IntKey(1)
  {
  }

  /** lindexconf: the value of the cast key if the source has it, and nil otherwise. */
  method IndexConf(ghost t: Source, c: Table, key: Key) returns (v: Stored)
    requires Valid(t) && Converted(t, c)
    ensures KnownKey(t, CastKey(key)) ==> Holds(t, CastKey(key), v)
    ensures !KnownKey(t, CastKey(key)) ==> v == Nil
  {
    hide Valid, Same, Laid, Full, Converted, Holds;
    var k := CastKey(key);
    ConvertedParts(t, c);
    KeysOf(t);
    if k.IntKey? && 0 < k.i <= |c.arr| {
      v := c.arr[k.i - 1];
      IndexedArray(t, c, k);
      return;
    }
    var n := LookupKey(c.hash, k);
    if n >= 0 {
      v := c.hash[n].value;
      IndexedHash(t, c, n);
    } else {
      v := Nil;
      NotIndexed(t, c, k);
    }
  }

  lemma IndexedArray(t: Source, c: Table, k: Key)
    requires Converted(t, c) && !IsHashKey(k, t.rawlen)
    ensures |c.arr| == t.rawlen
    ensures KnownKey(t, k) ==> Holds(t, k, c.arr[k.i - 1])
    ensures !KnownKey(t, k) ==> c.arr[k.i - 1] == Nil
  {
    hide Same, Laid, Full, Converted;
    ConvertedParts(t, c);
    if KnownKey(t, k) {
      var e :| 0 <= e < |t.entries| && t.entries[e].key == k;
      ConvertedEntry(t, c, e);
    }
  }

  lemma IndexedHash(t: Source, c: Table, n: int)
    requires Converted(t, c) && DistinctKeys(t.entries) && 0 <= n < |c.hash|
    ensures KnownKey(t, c.hash[n].key) && Holds(t, c.hash[n].key, c.hash[n].value)
  {
    hide Same, NodeOk, Linked, Converted;
    ConvertedParts(t, c);
    var k := c.hash[n].key;
    var e :| 0 <= e < |t.entries| && t.entries[e].key == k;
    ConvertedEntry(t, c, e);
    var i :| 0 <= i < |c.hash| && InSlot(t.entries[e].value, k, c.hash[i]);
    assert Filled(c.hash, i) && Filled(c.hash, n);
  }

  lemma NotIndexed(t: Source, c: Table, k: Key)
    requires Converted(t, c) && IsHashKey(k, t.rawlen)
    requires forall j :: 0 <= j < |c.hash| ==> c.hash[j].key != k
    ensures !KnownKey(t, k)
  {
    hide Same, Laid, Full, Converted;
    forall e | 0 <= e < |t.entries|
      ensures t.entries[e].key != k
    {
      ConvertedEntry(t, c, e);
    }
  }

  // ---------------------------------------------------------------- iteration

  /** The keys of the array part from index `i`, then those of the hash slots. */
  function KeysFrom(c: Table, i: nat): seq<Key>
    requires i <= |c.arr|
    decreases |c.arr| - i
  {
    if i == |c.arr| then seq(|c.hash|, j requires 0 <= j < |c.hash| => c.hash[j].key)
    else if c.arr[i] != Nil then [IntKey(i + 1)] + KeysFrom(c, i + 1)
    else KeysFrom(c, i + 1)
  }

  function First(s: seq<Key>): Option<Key> {
    if |s| == 0 then None else Some(s[0])
  }

  /** pushfirsthash */
  method FirstHash(c: Table) returns (r: Option<Key>)
    ensures r == First(KeysFrom(c, |c.arr|))
  {
    if |c.hash| != 0 {
      r := Some(c.hash[0].key);
    } else {
      r := None;
    }
  }

  /** The array scan of lnextkey, starting at `i`. */
  method NextInArray(c: Table, start: nat) returns (r: Option<Key>)
    requires start <= |c.arr|
    ensures r == First(KeysFrom(c, start))
  {
    for i := start to |c.arr|
      invariant First(KeysFrom(c, start)) == First(KeysFrom(c, i))
    {
      if c.arr[i] != Nil {
        return Some(IntKey(i + 1));
      }
    }
    r := FirstHash(c);
  }

  /** The key of the slot after `j`. */
  function HashAfter(c: Table, j: nat): Option<Key> {
    if j + 1 < |c.hash| then Some(c.hash[j + 1].key) else None
  }

  /** What lnextkey answers. */
  ghost predicate NextOf(c: Table, cur: Option<Key>, r: Option<Key>) {
    match cur
    case None => r == First(KeysFrom(c, 0))
    case Some(k) =>
      if !IsHashKey(k, |c.arr|) then r == First(KeysFrom(c, k.i))
      else
        (forall j :: 0 <= j < |c.hash| && c.hash[j].key == k ==> r == HashAfter(c, j)) &&
        ((forall j :: 0 <= j < |c.hash| ==> c.hash[j].key != k) ==> r == None)
  }

  /** lnextkey */
  method NextKey(c: Table, cur: Option<Key>) returns (r: Option<Key>)
    requires Laid(c.hash) && Full(c.hash)
    ensures NextOf(c, if cur.Some? then Some(CastKey(cur.value)) else None, r)
  {
    hide NodeOk, Linked, KeysFrom, CastKey;
    if cur == None {
      r := NextInArray(c, 0);
      return;
    }
    var k := CastKey(cur.value);
    if k.IntKey? && 0 < k.i <= |c.arr| {
      r := NextInArray(c, k.i);
      return;
    }
    var n := LookupKey(c.hash, k);
    if n < 0 {
      return None;
    }
    assert forall j :: 0 <= j < |c.hash| && c.hash[j].key == k ==> Filled(c.hash, j) && Filled(c.hash, n);
    if n + 1 == |c.hash| {
      return None;
    }
    r := Some(c.hash[n + 1].key);
  }

  /** Where the key at position `p` of the enumeration comes from. */
  lemma {:induction false} KeysFromShape(c: Table, i: nat, p: nat)
    requires i <= |c.arr| && p < |KeysFrom(c, i)|
    ensures |KeysFrom(c, i)| >= |c.hash|
    ensures var h := |KeysFrom(c, i)| - |c.hash|; var k := KeysFrom(c, i)[p];
      if p < h then k.IntKey? && i < k.i <= |c.arr| && c.arr[k.i - 1] != Nil &&
                    KeysFrom(c, i)[p + 1..] == KeysFrom(c, k.i)
      else k == c.hash[p - h].key
    decreases |c.arr| - i
  {
    if i < |c.arr| {
      if c.arr[i] == Nil {
        KeysFromShape(c, i + 1, p);
      } else {
        var rest := KeysFrom(c, i + 1);
        assert KeysFrom(c, i) == [IntKey(i + 1)] + rest;
        HashAtEnd(c, i + 1);
        if p > 0 {
          KeysFromShape(c, i + 1, p - 1);
          assert KeysFrom(c, i)[p + 1..] == rest[p..];
        }
      }
    }
  }

  lemma {:induction false} HashAtEnd(c: Table, i: nat)
    requires i <= |c.arr|
    ensures |KeysFrom(c, i)| >= |c.hash|
    decreases |c.arr| - i
  {
    if i < |c.arr| {
      HashAtEnd(c, i + 1);
    }
  }

  /** One step of lnextkey moves one place along the enumeration. */
  lemma NextInEnumeration(t: Source, c: Table, p: nat, r: Option<Key>)
    requires Converted(t, c) && p < |KeysFrom(c, 0)| && NextOf(c, Some(KeysFrom(c, 0)[p]), r)
    ensures r == At(KeysFrom(c, 0), p + 1)
  {
    hide Laid, Full, KeysFrom, Converted;
    ConvertedParts(t, c);
    KeysFromShape(c, 0, p);
    var all := KeysFrom(c, 0);
    var h := |all| - |c.hash|;
    if p < h {
      assert |all[p + 1..]| == |all| - p - 1;
    } else {
      var j := p - h;
      assert 0 <= j < |c.hash| && c.hash[j].key == all[p] && IsHashKey(all[p], |c.arr|);
      assert r == HashAfter(c, j);
      if p + 1 < |all| {
        KeysFromShape(c, 0, p + 1);
      }
    }
  }

  /** Iterating lnextkey from nil yields the enumeration. */
  method Traverse(ghost t: Source, c: Table) returns (keys: seq<Key>)
    requires Valid(t) && Converted(t, c)
    ensures keys == KeysFrom(c, 0)
  {
    ghost var all := KeysFrom(c, 0);
    hide Laid, Full, KeysFrom, Converted, CastKey, Valid;
    ConvertedLaid(t, c);
    keys := [];
    var cur := NextKey(c, None);
    assert cur == At(all, 0);
    hide NextOf, At;
    ghost var p: nat := 0;
    AtIs(all, 0);
    while cur.Some?
      invariant p <= |all| && keys == all[..p] && cur == At(all, p)
      invariant cur.Some? <==> p < |all|
      invariant cur.Some? ==> cur.value == all[p]
      decreases |all| - p
    {
      ListedInRange(t, c, p);
      var next := NextKey(c, cur);
      NextInEnumeration(t, c, p, next);
      Longer(all, p);
      AtIs(all, p + 1);
      keys := keys + [cur.value];
      cur, p := next, p + 1;
    }
  }

  /** Every key that is enumerated survives the cast. */
  lemma ListedInRange(t: Source, c: Table, p: nat)
    requires Valid(t) && Converted(t, c) && p < |KeysFrom(c, 0)|
    ensures CastKey(KeysFrom(c, 0)[p]) == KeysFrom(c, 0)[p]
  {
    hide KeysFrom, Converted, Laid, Full;
    ConvertedParts(t, c);
    KeysFromShape(c, 0, p);
    var k := KeysFrom(c, 0)[p];
    if IsHashKey(k, t.rawlen) && KnownKey(t, k) {
      var e :| 0 <= e < |t.entries| && t.entries[e].key == k;
    }
    CastExact(k);
  }

  /** The key at a place of the enumeration, if there is one. */
  function At(s: seq<Key>, p: nat): Option<Key> {
    if p < |s| then Some(s[p]) else None
  }

  lemma AtIs(s: seq<Key>, p: nat)
    ensures At(s, p) == if p < |s| then Some(s[p]) else None
  {
  }

  lemma Longer(s: seq<Key>, p: nat)
    requires p < |s|
    ensures s[..p] + [s[p]] == s[..p + 1]
  {
  }

  /** The enumeration holds every key of the source exactly once and no other. */
  lemma VisitsEveryKeyOnce(t: Source, c: Table)
    requires Converted(t, c)
    ensures forall k :: k in KeysFrom(c, 0) <==> KnownKey(t, k)
    ensures forall p, q :: 0 <= p < q < |KeysFrom(c, 0)| ==> KeysFrom(c, 0)[p] != KeysFrom(c, 0)[q]
  {
    hide Same, KeysFrom, Converted;
    var all := KeysFrom(c, 0);
    forall p, q | 0 <= p < q < |all|
      ensures all[p] != all[q]
    {
      KeysDiffer(t, c, p, q);
    }
    forall k
      ensures k in all <==> KnownKey(t, k)
    {
      ListedIffKnown(t, c, k);
    }
  }

  lemma ListedIffKnown(t: Source, c: Table, k: Key)
    requires Converted(t, c)
    ensures k in KeysFrom(c, 0) <==> KnownKey(t, k)
  {
    hide Same, Laid, Full, KeysFrom, Converted;
    ConvertedParts(t, c);
    var all := KeysFrom(c, 0);
    if k in all {
      var p :| 0 <= p < |all| && all[p] == k;
      KeysFromShape(c, 0, p);
    }
    if KnownKey(t, k) {
      var e :| 0 <= e < |t.entries| && t.entries[e].key == k;
      ConvertedEntry(t, c, e);
      if IsHashKey(k, t.rawlen) {
        var i :| 0 <= i < |c.hash| && InSlot(t.entries[e].value, k, c.hash[i]);
        HashListed(c, 0, i);
      } else {
        SameNotNil(t.entries[e].value, c.arr[k.i - 1]);
        ArrayListed(c, 0, k.i);
      }
    }
  }

  lemma SameNotNil(v: Given, st: Stored)
    requires Same(v, st)
    ensures st != Nil
  {
  }

  lemma {:induction false} HashListed(c: Table, i: nat, j: nat)
    requires i <= |c.arr| && j < |c.hash|
    ensures c.hash[j].key in KeysFrom(c, i)
    decreases |c.arr| - i
  {
    if i < |c.arr| {
      HashListed(c, i + 1, j);
    } else {
      assert KeysFrom(c, i)[j] == c.hash[j].key;
    }
  }

  lemma {:induction false} ArrayListed(c: Table, i: nat, x: nat)
    requires i < x <= |c.arr| && c.arr[x - 1] != Nil
    ensures IntKey(x) in KeysFrom(c, i)
    decreases |c.arr| - i
  {
    if i + 1 < x {
      ArrayListed(c, i + 1, x);
    }
  }

  lemma KeysDiffer(t: Source, c: Table, p: nat, q: nat)
    requires Converted(t, c) && p < q < |KeysFrom(c, 0)|
    ensures KeysFrom(c, 0)[p] != KeysFrom(c, 0)[q]
  {
    hide NodeOk, Linked, KeysFrom, Converted;
    ConvertedParts(t, c);
    var all := KeysFrom(c, 0);
    KeysFromShape(c, 0, p);
    KeysFromShape(c, 0, q);
    var h := |all| - |c.hash|;
    if q < h {
      var i := all[p].i;
      assert all[p + 1..][q - p - 1] == all[q];
      KeysFromShape(c, i, q - p - 1);
      HashAtEnd(c, i);
    } else if p >= h {
      assert Filled(c.hash, p - h) && Filled(c.hash, q - h);
    }
  }
}
