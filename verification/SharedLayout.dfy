/**
 * The read-only hash table of skynet/lualib-src/lua-sharedata.c: nodes with
 * `next` links, laid out so that every key can be found from its main
 * position, and the lookup that walks those links.
 */
module SharedLayout {

  type Text = seq<bv8>

  datatype Key = IntKey(i: int) | StrKey(s: Text)

  datatype Stored = Nil | Scalar(a: int) | Sub(t: Table)

  datatype Node = Node(value: Stored, key: Key, next: int, keyhash: nat, nocolliding: bool)

  datatype Table = Table(arr: seq<Stored>, hash: seq<Node>)

  // --------------------------------------------------------------- hash values

  /** The loop of calchash, from byte `l1` down in strides of `step`. */
  function HashFrom(s: Text, l1: nat, step: nat, h: bv32): bv32
    requires l1 <= |s| && step > 0
    decreases l1
  {
    if l1 < step then h
    else HashFrom(s, l1 - step, step, h ^ ((h << 5) + (h >> 2) + s[l1 - 1] as bv32))
  }

  function CalcHash(s: Text): bv32 {
    HashFrom(s, |s|, |s| / 32 + 1, (|s| % 0x1_0000_0000) as bv32)
  }

  function KeyHash(k: Key): (h: nat)
    ensures h < 0x1_0000_0000
  {
    match k
    case IntKey(i) => i % 0x1_0000_0000
    case StrKey(s) => CalcHash(s) as nat
  }

  // -------------------------------------------------------------------- layout

  predicate Filled(s: seq<Node>, i: int) {
    0 <= i < |s| && s[i].value != Nil
  }

  function Main(s: seq<Node>, i: int): int
    requires 0 <= i < |s|
  {
    s[i].keyhash % |s|
  }

  /** A node outside its main position, in the chain of position `g`. */
  predicate Collider(s: seq<Node>, i: int, g: int) {
    Filled(s, i) && Main(s, i) == g && i != g
  }

  /** Links go from the main node to the highest collider, and from there strictly down. */
  function Bound(s: seq<Node>, i: int): int
    requires 0 <= i < |s|
  {
    if Main(s, i) == i then |s| else i
  }

  /** `next` is the highest collider of the same chain below the bound, or -1 when there is none. */
  ghost predicate Linked(s: seq<Node>, i: int)
    requires 0 <= i < |s|
  {
    var g, b, n := Main(s, i), Bound(s, i), s[i].next;
    -1 <= n < b && (n >= 0 ==> Collider(s, n, g)) &&
    forall j :: n < j < b ==> !Collider(s, j, g)
  }

  ghost predicate NodeOk(s: seq<Node>, i: int)
    requires 0 <= i < |s|
  {
    s[i].keyhash == KeyHash(s[i].key) &&
    Filled(s, Main(s, i)) && Main(s, Main(s, i)) == Main(s, i) &&
    (s[i].nocolliding ==> Main(s, i) == i && s[i].next == -1)
  }

  ghost predicate Distinct(s: seq<Node>) {
    forall i, j :: Filled(s, i) && Filled(s, j) && s[i].key == s[j].key ==> i == j
  }

  ghost predicate Laid(s: seq<Node>) {
    (forall i :: Filled(s, i) ==> NodeOk(s, i)) &&
    (forall i :: Filled(s, i) ==> Linked(s, i)) &&
    Distinct(s)
  }

  ghost predicate Full(s: seq<Node>) {
    forall i :: 0 <= i < |s| ==> Filled(s, i)
  }

  // -------------------------------------------------------------------- lookup

  /** Every node not yet ruled out: the colliders of chain `g` below the bound of `i`, and `i`. */
  ghost predicate RuledOut(s: seq<Node>, k: Key, g: int, b: int) {
    forall j :: Filled(s, j) && s[j].key == k ==> Main(s, j) == g && j != g && j < b
  }

  lemma ChainOfKey(s: seq<Node>, k: Key)
    requires Laid(s) && |s| > 0
    ensures forall j :: Filled(s, j) && s[j].key == k ==> Main(s, j) == KeyHash(k) % |s|
  {
    forall j | Filled(s, j) && s[j].key == k
      ensures Main(s, j) == KeyHash(k) % |s|
    {
      assert NodeOk(s, j);
    }
  }

  /** Leaving a node that does not hold the key: the rest of the chain is all that remains. */
  lemma StepDown(s: seq<Node>, k: Key, i: int, g: int)
    requires Filled(s, i) && Linked(s, i) && s[i].key != k && Main(s, i) == g
    requires forall j :: Filled(s, j) && s[j].key == k ==> Main(s, j) == g
    requires i == g || RuledOut(s, k, g, i + 1)
    ensures s[i].next < 0 ==> forall j :: Filled(s, j) ==> s[j].key != k
    ensures s[i].next >= 0 ==> RuledOut(s, k, g, s[i].next + 1) && Collider(s, s[i].next, g)
  {
    var n := s[i].next;
    forall j | Filled(s, j) && s[j].key == k
      ensures j != g && j < n + 1
    {
      assert !Collider(s, j, g) || j <= n;
    }
  }

  /**
   * lookup_key: finds the node of a key or -1. The loop ends because links
   * only go down once they have left the main position.
   */
  method LookupKey(s: seq<Node>, k: Key) returns (r: int)
    requires Laid(s) && Full(s)
    ensures r >= 0 ==> r < |s| && s[r].key == k
    ensures r < 0 ==> forall j :: 0 <= j < |s| ==> s[j].key != k
  {
    if |s| == 0 {
      return -1;
    }
    hide KeyHash;
    var keyhash := KeyHash(k);
    var i := keyhash % |s|;
    ChainOfKey(s, k);
    assert Filled(s, i) && NodeOk(s, i);
    if keyhash != s[i].keyhash && s[i].nocolliding {
      Alone(s, k, i);
      return -1;
    }
    ghost var g := i;
    while true
      invariant Filled(s, i)
      invariant Main(s, g) == g ==> Main(s, i) == g && (i == g || RuledOut(s, k, g, i + 1))
      invariant Main(s, g) != g ==> forall j :: 0 <= j < |s| ==> s[j].key != k
      decreases Bound(s, i)
    {
      assert NodeOk(s, i) && Linked(s, i);
      if keyhash == s[i].keyhash && s[i].key == k {
        return i;
      }
      assert s[i].key != k;
      if Main(s, g) == g {
        StepDown(s, k, i, g);
      }
      if s[i].next < 0 {
        AllFilled(s, k);
        return -1;
      }
      i := s[i].next;
    }
  }

  lemma AllFilled(s: seq<Node>, k: Key)
    requires Full(s)
    ensures (forall j :: Filled(s, j) ==> s[j].key != k) ==> forall j :: 0 <= j < |s| ==> s[j].key != k
  {
  }

  /** A node marked as not colliding is the whole chain. */
  lemma Alone(s: seq<Node>, k: Key, i: int)
    requires Laid(s) && Full(s) && |s| > 0 && i == KeyHash(k) % |s|
    requires s[i].nocolliding && s[i].keyhash != KeyHash(k)
    ensures forall j :: 0 <= j < |s| ==> s[j].key != k
  {
    assert Filled(s, i) && NodeOk(s, i) && Linked(s, i);
    ChainOfKey(s, k);
    forall j | 0 <= j < |s|
      ensures s[j].key != k
    {
      assert Filled(s, j) && NodeOk(s, j);
      assert !Collider(s, j, i);
    }
  }
}
