/** The two passes of convtable in skynet/lualib-src/lua-sharedata.c, step by step. */
module SharedFill {
  import opened SharedLayout
  import opened SharedData

  /** Node `n` holds entry `e` of the source. */
  ghost predicate Origin(t: Source, e: int, n: Node) {
    0 <= e < |t.entries| && IsHashKey(t.entries[e].key, t.rawlen) &&
    InSlot(t.entries[e].value, t.entries[e].key, n)
  }

  ghost predicate FromSource(t: Source, n: Node) {
    exists e :: Origin(t, e, n)
  }

  function MainSlot(s: seq<Node>, k: Key): int
    requires |s| > 0
  {
    KeyHash(k) % |s|
  }

  // ---------------------------------------------------------------- array part

  ghost predicate ArrayDone(a: seq<Stored>, t: Source, m: int) {
    |a| == t.rawlen && m <= |t.entries| &&
    (forall e :: 0 <= e < m && !IsHashKey(t.entries[e].key, t.rawlen) ==>
      Same(t.entries[e].value, a[t.entries[e].key.i - 1])) &&
    (forall i :: 0 <= i < |a| && a[i] != Nil ==> KnownKey(t, IntKey(i + 1)))
  }

  lemma ArrayStep(a: seq<Stored>, t: Source, m: int, st: Stored)
    requires 0 <= m < |t.entries| && DistinctKeys(t.entries) && ArrayDone(a, t, m)
    requires !IsHashKey(t.entries[m].key, t.rawlen) && Same(t.entries[m].value, st)
    ensures ArrayDone(a[t.entries[m].key.i - 1 := st], t, m + 1)
  {
    hide Same;
  }

  lemma ArraySkip(a: seq<Stored>, t: Source, m: int)
    requires 0 <= m < |t.entries| && ArrayDone(a, t, m) && IsHashKey(t.entries[m].key, t.rawlen)
    ensures ArrayDone(a, t, m + 1)
  {
    hide Same;
  }

  // ---------------------------------------------------------------- first pass

  /** After the first pass over `m` entries: main positions only, each taken by the first key that wants it. */
  ghost predicate FirstDone(s: seq<Node>, t: Source, m: int) {
    |s| > 0 && 0 <= m <= |t.entries| &&
    (forall i :: Filled(s, i) ==> s[i].keyhash == KeyHash(s[i].key) && Main(s, i) == i && s[i].next == -1) &&
    (forall i :: Filled(s, i) ==> FromSource(t, s[i])) &&
    (forall e :: 0 <= e < m && IsHashKey(t.entries[e].key, t.rawlen) ==> Filled(s, MainSlot(s, t.entries[e].key)))
  }

  lemma FirstTake(s: seq<Node>, t: Source, m: int, st: Stored)
    requires FirstDone(s, t, m) && m < |t.entries|
    requires IsHashKey(t.entries[m].key, t.rawlen) && st != Nil && Same(t.entries[m].value, st)
    ensures var k := t.entries[m].key;
      FirstDone(s[MainSlot(s, k) := Node(st, k, -1, KeyHash(k), true)], t, m + 1)
  {
    hide Same, KeyHash;
    var k := t.entries[m].key;
    var n := Node(st, k, -1, KeyHash(k), true);
    assert Origin(t, m, n);
    var s' := s[MainSlot(s, k) := n];
    forall e | 0 <= e < m && IsHashKey(t.entries[e].key, t.rawlen)
      ensures Filled(s', MainSlot(s', t.entries[e].key))
    {
      assert Filled(s, MainSlot(s, t.entries[e].key));
    }
  }

  // --------------------------------------------------------------- second pass

  /** The parts of the layout that the second pass keeps for the keys still to come. */
  ghost predicate SecondDone(s: seq<Node>, t: Source, m: int) {
    |s| > 0 && 0 <= m <= |t.entries| && Laid(s) &&
    (forall i :: Filled(s, i) ==> FromSource(t, s[i])) &&
    (forall e :: 0 <= e < |t.entries| && IsHashKey(t.entries[e].key, t.rawlen) ==> HasMain(s, t.entries[e].key)) &&
    (forall i :: Filled(s, i) && Main(s, i) != i ==> Seen(t, m, s[i].key)) &&
    EmptyAbove(s) &&
    (forall e :: 0 <= e < m && IsHashKey(t.entries[e].key, t.rawlen) ==> Placed(s, t.entries[e].key))
  }

  ghost predicate HasMain(s: seq<Node>, k: Key)
    requires |s| > 0
  {
    Filled(s, MainSlot(s, k)) && Main(s, MainSlot(s, k)) == MainSlot(s, k)
  }

  ghost predicate Seen(t: Source, m: int, k: Key)
    requires m <= |t.entries|
  {
    exists e :: 0 <= e < m && t.entries[e].key == k
  }

  ghost predicate Placed(s: seq<Node>, k: Key) {
    exists i :: Filled(s, i) && s[i].key == k
  }

  /** Colliders are put into empty slots from the bottom up. */
  ghost predicate EmptyAbove(s: seq<Node>) {
    forall i, j :: Filled(s, i) && Main(s, i) != i && 0 <= j < |s| && !Filled(s, j) ==> i < j
  }

  lemma FirstIsLaid(s: seq<Node>, t: Source, m: int)
    requires FirstDone(s, t, m)
    ensures Laid(s)
  {
    hide Same, KeyHash, InSlot;
    forall i | Filled(s, i)
      ensures NodeOk(s, i) && Linked(s, i)
    {
      assert Main(s, i) == i;
    }
  }

  lemma SecondBegins(s: seq<Node>, t: Source)
    requires FirstDone(s, t, |t.entries|)
    ensures SecondDone(s, t, 0)
  {
    hide Same, KeyHash, InSlot;
    FirstIsLaid(s, t, |t.entries|);
    hide Laid, NodeOk, Linked;
  }

  /** The key sits at its main position already. */
  lemma SecondSkip(s: seq<Node>, t: Source, m: int)
    requires SecondDone(s, t, m) && m < |t.entries|
    requires IsHashKey(t.entries[m].key, t.rawlen) ==> s[MainSlot(s, t.entries[m].key)].key == t.entries[m].key
    ensures SecondDone(s, t, m + 1)
  {
    hide Same, KeyHash, InSlot, Laid, EmptyAbove, FromSource;
    if IsHashKey(t.entries[m].key, t.rawlen) {
      assert HasMain(s, t.entries[m].key);
      assert Placed(s, t.entries[m].key);
    }
    forall i | Filled(s, i) && Main(s, i) != i
      ensures Seen(t, m + 1, s[i].key)
    {
      assert Seen(t, m, s[i].key);
    }
  }

  /** A key that is not at its main position is nowhere. */
  lemma NotYetPlaced(s: seq<Node>, t: Source, m: int)
    requires SecondDone(s, t, m) && m < |t.entries| && DistinctKeys(t.entries)
    requires s[MainSlot(s, t.entries[m].key)].key != t.entries[m].key
    ensures forall i :: Filled(s, i) ==> s[i].key != t.entries[m].key
  {
    hide Same, KeyHash, InSlot, EmptyAbove, FromSource, Linked, HasMain;
    forall i | Filled(s, i)
      ensures s[i].key != t.entries[m].key
    {
      assert NodeOk(s, i);
      if Main(s, i) != i {
        assert Seen(t, m, s[i].key);
      }
    }
  }

  /** The new node goes between the main node and the rest of its chain. */
  function Insert(s: seq<Node>, g: int, e: int, k: Key, st: Stored): seq<Node>
    requires 0 <= g < |s| && 0 <= e < |s|
  {
    s[e := Node(st, k, s[g].next, KeyHash(k), false)][g := s[g].(next := e, nocolliding := false)]
  }

  /** A slot that the second pass may use for key `k`. */
  ghost predicate CanInsert(s: seq<Node>, e: int, k: Key, st: Stored) {
    |s| > 0 && Laid(s) && HasMain(s, k) && 0 <= e < |s| && !Filled(s, e) && EmptyAbove(s) &&
    (forall j :: 0 <= j < e ==> Filled(s, j)) &&
    (forall i :: Filled(s, i) ==> s[i].key != k) && st != Nil
  }

  lemma InsertShape(s: seq<Node>, e: int, k: Key, st: Stored)
    requires CanInsert(s, e, k, st)
    ensures var g := MainSlot(s, k); var s' := Insert(s, g, e, k, st);
      |s'| == |s| && g != e && Main(s', e) == g && Main(s', g) == g &&
      (forall i :: 0 <= i < |s| && i != e ==>
        Filled(s', i) == Filled(s, i) && Main(s', i) == Main(s, i) && s'[i].key == s[i].key) &&
      Filled(s', e) && (forall i :: 0 <= i < |s| && i != e && i != g ==> s'[i] == s[i]) &&
      s'[g].next == e && s'[e].next == s[g].next && !s'[g].nocolliding && !s'[e].nocolliding &&
      s'[e].key == k && s'[g].keyhash == s[g].keyhash && s'[e].keyhash == KeyHash(k)
  {
    hide KeyHash, Laid, EmptyAbove;
  }

  lemma InsertNodes(s: seq<Node>, e: int, k: Key, st: Stored)
    requires CanInsert(s, e, k, st)
    ensures var s' := Insert(s, MainSlot(s, k), e, k, st);
      (forall i :: Filled(s', i) ==> NodeOk(s', i)) && Distinct(s')
  {
    InsertShape(s, e, k, st);
    hide KeyHash, EmptyAbove, Linked, Insert;
    var g := MainSlot(s, k);
    var s' := Insert(s, g, e, k, st);
    forall i | Filled(s', i)
      ensures NodeOk(s', i)
    {
      if i != e {
        assert NodeOk(s, i);
      }
    }
  }

  lemma InsertLinks(s: seq<Node>, e: int, k: Key, st: Stored, i: int)
    requires CanInsert(s, e, k, st) && Filled(Insert(s, MainSlot(s, k), e, k, st), i)
    ensures Linked(Insert(s, MainSlot(s, k), e, k, st), i)
  {
    InsertShape(s, e, k, st);
    hide KeyHash, Insert, NodeOk, Distinct;
    var g := MainSlot(s, k);
    var s' := Insert(s, g, e, k, st);
    assert Linked(s, g);
    if i != e {
      assert Linked(s, i);
    }
    forall j, h | 0 <= j < |s| && j != e
      ensures Collider(s', j, h) == Collider(s, j, h)
    {
    }
    assert forall j, h :: Collider(s, j, h) ==> j < e;
  }

  lemma SecondInsert(s: seq<Node>, t: Source, m: int, e: int, st: Stored)
    requires SecondDone(s, t, m) && m < |t.entries| && IsHashKey(t.entries[m].key, t.rawlen)
    requires Same(t.entries[m].value, st) && CanInsert(s, e, t.entries[m].key, st)
    ensures var k := t.entries[m].key;
      SecondDone(Insert(s, MainSlot(s, k), e, k, st), t, m + 1)
  {
    var k := t.entries[m].key;
    var g := MainSlot(s, k);
    var s' := Insert(s, g, e, k, st);
    InsertShape(s, e, k, st);
    InsertNodes(s, e, k, st);
    forall i | Filled(s', i) ensures Linked(s', i) { InsertLinks(s, e, k, st, i); }
    assert Laid(s');
    assert s'[g].value == s[g].value;
    assert s'[e].value == st;
    hide KeyHash, Insert, NodeOk, Distinct, Linked, Laid, Same;
    InsertOrigins(s, s', t, m, g, e);
    InsertRest(s, s', t, m, g, e);
  }

  lemma InsertOrigins(s: seq<Node>, s': seq<Node>, t: Source, m: int, g: int, e: int)
    requires |s'| == |s| && 0 <= e < |s| && 0 <= g < |s| && 0 <= m < |t.entries|
    requires forall i :: Filled(s, i) ==> FromSource(t, s[i])
    requires forall i :: 0 <= i < |s| && i != e && i != g ==> s'[i] == s[i]
    requires s'[g].key == s[g].key && s'[g].value == s[g].value
    requires IsHashKey(t.entries[m].key, t.rawlen) && InSlot(t.entries[m].value, t.entries[m].key, s'[e])
    ensures forall i :: Filled(s', i) ==> FromSource(t, s'[i])
  {
    hide Same;
    forall i | Filled(s', i)
      ensures FromSource(t, s'[i])
    {
      if i == e {
        assert Origin(t, m, s'[e]);
      } else {
        var o :| Origin(t, o, s[i]);
        assert Origin(t, o, s'[i]);
      }
    }
  }

  lemma InsertRest(s: seq<Node>, s': seq<Node>, t: Source, m: int, g: int, e: int)
    requires SecondDone(s, t, m) && m < |t.entries| && |s'| == |s| && 0 <= e < |s| && 0 <= g < |s| && g != e
    requires !Filled(s, e) && Filled(s', e) && s'[e].key == t.entries[m].key && Main(s', e) == g
    requires forall j :: 0 <= j < e ==> Filled(s, j)
    requires forall i :: 0 <= i < |s| && i != e ==>
      Filled(s', i) == Filled(s, i) && Main(s', i) == Main(s, i) && s'[i].key == s[i].key
    ensures forall x :: 0 <= x < |t.entries| && IsHashKey(t.entries[x].key, t.rawlen) ==> HasMain(s', t.entries[x].key)
    ensures forall i :: Filled(s', i) && Main(s', i) != i ==> Seen(t, m + 1, s'[i].key)
    ensures EmptyAbove(s')
    ensures forall x :: 0 <= x < m + 1 && IsHashKey(t.entries[x].key, t.rawlen) ==> Placed(s', t.entries[x].key)
  {
    hide KeyHash, Laid, FromSource;
    forall x | 0 <= x < |t.entries| && IsHashKey(t.entries[x].key, t.rawlen)
      ensures HasMain(s', t.entries[x].key)
    {
      assert HasMain(s, t.entries[x].key);
    }
    forall i | Filled(s', i) && Main(s', i) != i
      ensures Seen(t, m + 1, s'[i].key)
    {
      if i != e {
        assert Seen(t, m, s[i].key);
      }
    }
    forall x | 0 <= x < m + 1 && IsHashKey(t.entries[x].key, t.rawlen)
      ensures Placed(s', t.entries[x].key)
    {
      if x < m {
        assert Placed(s, t.entries[x].key);
        var i :| Filled(s, i) && s[i].key == t.entries[x].key;
        assert Filled(s', i);
      }
    }
  }
}
