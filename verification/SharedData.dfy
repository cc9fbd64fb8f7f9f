/**
 * Building and reading the shared table of skynet/lualib-src/lua-sharedata.c.
 * A source table is the list of pairs that lua_next yields, in its order, with
 * the border that lua_rawlen reports.
 */
module SharedData {
  import opened SharedLayout

  datatype Given = Atom(a: int) | Inner(t: Source)

  datatype Entry = Entry(key: Key, value: Given)

  datatype Source = Source(rawlen: nat, entries: seq<Entry>)

  ghost predicate DistinctKeys(es: seq<Entry>) {
    forall i, j :: 0 <= i < |es| && 0 <= j < |es| && es[i].key == es[j].key ==> i == j
  }

  /** What every Lua table with 32-bit integer keys and string keys satisfies. */
  ghost predicate Valid(t: Source)
    decreases t
  {
    t.rawlen < 0x8000_0000 && DistinctKeys(t.entries) &&
    (forall i :: 0 <= i < |t.entries| && t.entries[i].key.IntKey? ==>
      -0x8000_0000 <= t.entries[i].key.i < 0x8000_0000) &&
    forall i :: 0 <= i < |t.entries| && t.entries[i].value.Inner? ==> Valid(t.entries[i].value.t)
  }

  /** ishashkey */
  predicate IsHashKey(k: Key, sizearray: nat) {
    !(k.IntKey? && 0 < k.i <= sizearray)
  }

  // ----------------------------------------------------- what conversion means

  ghost predicate KnownKey(t: Source, k: Key) {
    exists e :: 0 <= e < |t.entries| && t.entries[e].key == k
  }

  /** A stored value stands for a given one; inner tables agree all the way down. */
  ghost predicate Same(v: Given, st: Stored)
    decreases v, 0
  {
    match v
    case Atom(a) => st == Scalar(a)
    case Inner(t) => st.Sub? && Converted(t, st.t)
  }

  ghost predicate InSlot(v: Given, k: Key, n: Node)
    decreases v, 1
  {
    n.key == k && Same(v, n.value)
  }

  ghost predicate Converted(t: Source, c: Table)
    decreases t, 2
  {
    |c.arr| == t.rawlen && Laid(c.hash) && Full(c.hash) &&
    (forall e :: 0 <= e < |t.entries| && !IsHashKey(t.entries[e].key, t.rawlen) ==>
      Same(t.entries[e].value, c.arr[t.entries[e].key.i - 1])) &&
    (forall e :: 0 <= e < |t.entries| && IsHashKey(t.entries[e].key, t.rawlen) ==>
      exists i :: 0 <= i < |c.hash| && InSlot(t.entries[e].value, t.entries[e].key, c.hash[i])) &&
    (forall i :: 0 <= i < |c.hash| ==> KnownKey(t, c.hash[i].key) && IsHashKey(c.hash[i].key, t.rawlen)) &&
    (forall i :: 0 <= i < |c.arr| && c.arr[i] != Nil ==> KnownKey(t, IntKey(i + 1)))
  }

  // -------------------------------------------------------------- counting

  ghost function HashKeys(es: seq<Entry>, size: nat, m: nat): set<Key>
    requires m <= |es|
  {
    if m == 0 then {}
    else if IsHashKey(es[m - 1].key, size) then HashKeys(es, size, m - 1) + {es[m - 1].key}
    else HashKeys(es, size, m - 1)
  }

  lemma {:induction false} HashKeysAre(es: seq<Entry>, size: nat, m: nat, k: Key)
    requires m <= |es|
    ensures k in HashKeys(es, size, m) <==> IsHashKey(k, size) && exists e :: 0 <= e < m && es[e].key == k
  {
    if m > 0 {
      HashKeysAre(es, size, m - 1, k);
    }
  }

  /** countsize */
  method CountSize(es: seq<Entry>, size: nat) returns (n: nat)
    requires DistinctKeys(es)
    ensures n == |HashKeys(es, size, |es|)|
  {
    n := 0;
    for i := 0 to |es|
      invariant n == |HashKeys(es, size, i)|
    {
      HashKeysAre(es, size, i, es[i].key);
      n := n + 1;
      if es[i].key.IntKey? && es[i].key.i > 0 && es[i].key.i <= size {
        n := n - 1;
      }
    }
  }

  ghost function KeysBelow(s: seq<Node>, m: nat): set<Key>
    requires m <= |s|
  {
    if m == 0 then {}
    else if Filled(s, m - 1) then KeysBelow(s, m - 1) + {s[m - 1].key}
    else KeysBelow(s, m - 1)
  }

  lemma {:induction false} KeysBelowAre(s: seq<Node>, m: nat, k: Key)
    requires m <= |s|
    ensures k in KeysBelow(s, m) <==> exists i :: 0 <= i < m && Filled(s, i) && s[i].key == k
  {
    if m > 0 {
      KeysBelowAre(s, m - 1, k);
    }
  }

  /** Distinct keys fill as many slots; all of them exactly when every slot is filled. */
  lemma {:induction false} KeysBelowCount(s: seq<Node>, m: nat)
    requires m <= |s| && Distinct(s)
    ensures |KeysBelow(s, m)| <= m
    ensures |KeysBelow(s, m)| == m <==> forall i :: 0 <= i < m ==> Filled(s, i)
  {
    if m > 0 {
      KeysBelowCount(s, m - 1);
      KeysBelowAre(s, m - 1, s[m - 1].key);
      assert (forall i :: 0 <= i < m ==> Filled(s, i)) <==>
        Filled(s, m - 1) && forall i :: 0 <= i < m - 1 ==> Filled(s, i);
    }
  }

  lemma SubsetSize<T>(a: set<T>, b: set<T>)
    requires a <= b
    ensures |a| <= |b|
    ensures |a| == |b| ==> a == b
  {
    assert b == a + (b - a);
  }

  /** While some hash key has no slot, some slot has no key: the source's assertion holds. */
  lemma RoomLeft(s: seq<Node>, es: seq<Entry>, size: nat, k: Key)
    requires Distinct(s) && |s| == |HashKeys(es, size, |es|)|
    requires forall i :: Filled(s, i) ==> s[i].key in HashKeys(es, size, |es|)
    requires k in HashKeys(es, size, |es|) && forall i :: Filled(s, i) ==> s[i].key != k
    ensures exists i :: 0 <= i < |s| && !Filled(s, i)
  {
    var all := HashKeys(es, size, |es|);
    KeysBelowCount(s, |s|);
    KeysBelowAre(s, |s|, k);
    forall x | x in KeysBelow(s, |s|)
      ensures x in all
    {
      KeysBelowAre(s, |s|, x);
    }
    SubsetSize(KeysBelow(s, |s|), all);
  }

  /** Once every hash key has a slot, every slot is filled. */
  lemma AllPlaced(s: seq<Node>, es: seq<Entry>, size: nat)
    requires Distinct(s) && |s| == |HashKeys(es, size, |es|)|
    requires forall k :: k in HashKeys(es, size, |es|) ==> exists i :: Filled(s, i) && s[i].key == k
    ensures Full(s)
  {
    var all := HashKeys(es, size, |es|);
    forall x | x in all
      ensures x in KeysBelow(s, |s|)
    {
      KeysBelowAre(s, |s|, x);
    }
    SubsetSize(all, KeysBelow(s, |s|));
    KeysBelowCount(s, |s|);
  }
}
