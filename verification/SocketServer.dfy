/** send_buffer, send_socket, close_socket and force_close of skynet/skynet-src/socket_server.c for one TCP socket. */
module SocketServer {
  import opened Basics
  import opened SocketQueue

  const WARNING_SIZE: int := 1024 * 1024

  /** The queues of a socket together with what has happened to it so far. */
  datatype Snap = Snap(
    kind: Kind,
    high: seq<Buffer>,
    low: seq<Buffer>,
    wbSize: int,
    accepted: seq<Package>, // taken from callers, in order
    sent: seq<Package>,     // wholly written, in order
    wire: Bytes,            // everything the kernel has taken
    dropped: seq<Buffer>,   // still queued when the socket was closed
    reason: Reason)

  function Pending(x: Snap): seq<Buffer> {
    if x.kind == Invalid then x.dropped else x.high + x.low
  }

  /** The same packages of each priority in the same order. */
  ghost predicate SameOrder(a: seq<Package>, b: seq<Package>) {
    Only(a, true) == Only(b, true) && Only(a, false) == Only(b, false)
  }

  /** Only the head of the high list may be partly sent or of low priority. */
  predicate Queues(high: seq<Buffer>, low: seq<Buffer>) {
    WholeTail(high) && (forall i :: 1 <= i < |high| ==> !high[i].pkg.low) &&
    (forall i :: 0 <= i < |low| ==> low[i].n == 0 && low[i].pkg.low)
  }

  ghost predicate Good(x: Snap) {
    Queues(x.high, x.low) && Ok(Pending(x)) &&
    x.wire == Wire(x.sent, Pending(x)) &&
    SameOrder(x.accepted, x.sent + Packages(Pending(x))) &&
    (x.kind == Invalid <==> x.reason != Open) &&
    (x.reason == Flushed ==> x.dropped == []) &&
    (if x.kind == Invalid then x.high == [] && x.low == [] else x.wbSize == Size(x.high) + Size(x.low))
  }

  // ----------------------------------------------------- what writing does

  /** The high list after writing. */
  function WriteHigh(x: Snap, d: Drained): Snap {
    x.(high := d.list, wbSize := x.wbSize - |d.out|, sent := x.sent + d.done, wire := x.wire + d.out)
  }

  function WriteLow(x: Snap, d: Drained): Snap {
    x.(low := d.list, wbSize := x.wbSize - |d.out|, sent := x.sent + d.done, wire := x.wire + d.out)
  }

  lemma WirePrefix(sent: seq<Package>, a: seq<Buffer>, b: seq<Buffer>)
    requires Ok(a) && Ok(b) && (b != [] ==> b[0].n == 0)
    ensures Ok(a + b) && Wire(sent, a + b) == Wire(sent, a)
  {
    if a == [] {
      assert a + b == b;
      if b != [] {
        assert b[0].pkg.data[..0] == [];
      }
    } else {
      assert (a + b)[0] == a[0];
    }
  }

  /** The end of `list`, up to progress on its head. */
  predicate SuffixOf(l: seq<Buffer>, list: seq<Buffer>) {
    |l| <= |list| &&
    (forall i :: 1 <= i < |l| ==> l[i] == list[i + |list| - |l|]) &&
    (l != [] ==> l[0].pkg == list[|list| - |l|].pkg)
  }

  lemma SuffixStep(l: seq<Buffer>, list: seq<Buffer>)
    requires list != [] && SuffixOf(l, list[1..])
    ensures SuffixOf(l, list)
  {
  }

  lemma SuffixHead(b: Buffer, list: seq<Buffer>)
    requires list != [] && b.pkg == list[0].pkg
    ensures SuffixOf([b] + list[1..], list)
  {
  }

  lemma {:induction false} DrainTail(list: seq<Buffer>, k: seq<Reply>, out: Bytes, done: seq<Package>)
    requires Ok(list)
    ensures SuffixOf(Drain(list, k, out, done).list, list)
    decreases |list| + |k|
  {
    hide SuffixOf;
    if list != [] && k != [] {
      match k[0]
      case Intr => DrainTail(list, k[1..], out, done);
      case Again => SuffixSelf(list);
      case Fail => SuffixSelf(list);
      case Sent(n) =>
        var b := list[0];
        if n >= |Rest(b)| {
          DrainTail(list[1..], k[1..], out + Rest(b), done + [b.pkg]);
          SuffixStep(Drain(list[1..], k[1..], out + Rest(b), done + [b.pkg]).list, list);
        } else {
          SuffixHead(b.(n := b.n + n), list);
        }
    } else {
      SuffixSelf(list);
    }
  }

  lemma SuffixSelf(list: seq<Buffer>)
    ensures SuffixOf(list, list)
  {
  }

  lemma HighWritten(x: Snap, k: seq<Reply>)
    requires Good(x) && x.kind != Invalid
    ensures Good(WriteHigh(x, Drain(x.high, k, [], [])))
  {
    var d := Drain(x.high, k, [], []);
    hide Drain, SameOrder, Packages, Size, Wire;
    var y := WriteHigh(x, d);
    DrainKeeps(x.high, k, [], []);
    DrainTail(x.high, k, [], []);
    WirePrefix(x.sent, x.high, x.low);
    assert Wire(y.sent, y.high + y.low) == y.wire by {
      assert x.wire + [] == x.wire && x.sent + [] == x.sent;
      DrainWrites(x.high, k, [], [], x.wire, x.sent);
      WirePrefix(y.sent, y.high, y.low);
    }
    assert y.sent + Packages(y.high + y.low) == x.sent + Packages(x.high + x.low) by {
      PackagesAppend(x.high, x.low);
      PackagesAppend(y.high, y.low);
      Regroup(x.sent, d.done, Packages(d.list), Packages(x.low), Packages(x.high));
    }
    hide WholeTail, Conserves;
    assert Queues(y.high, y.low) by { HighQueues(x.high, x.low, d.list); }
  }

  lemma HighQueues(high: seq<Buffer>, low: seq<Buffer>, l: seq<Buffer>)
    requires Queues(high, low) && WholeTail(l) && SuffixOf(l, high)
    ensures Queues(l, low) && Ok(l + low)
  {
  }

  lemma Regroup(sent: seq<Package>, done: seq<Package>, a: seq<Package>, b: seq<Package>, h: seq<Package>)
    requires done + a == [] + h
    ensures sent + done + (a + b) == sent + (h + b)
  {
    assert sent + done + (a + b) == sent + (done + a) + b;
  }

  /** The low list has been written with an empty high list: its head may now be partly sent. */
  ghost predicate LowWritten(y: Snap) {
    y.kind != Invalid && y.high == [] && WholeTail(y.low) && (forall i :: 0 <= i < |y.low| ==> y.low[i].pkg.low) &&
    y.wire == Wire(y.sent, y.low) && SameOrder(y.accepted, y.sent + Packages(y.low)) &&
    y.reason == Open && y.wbSize == Size(y.low)
  }

  lemma LowIsWritten(x: Snap, k: seq<Reply>)
    requires Good(x) && x.kind != Invalid && x.high == []
    ensures LowWritten(WriteLow(x, Drain(x.low, k, [], [])))
  {
    var d := Drain(x.low, k, [], []);
    hide Drain, SameOrder, Packages, Size, Wire, SuffixOf;
    var y := WriteLow(x, d);
    assert x.high + x.low == x.low;
    DrainKeeps(x.low, k, [], []);
    DrainTail(x.low, k, [], []);
    LowQueues(x.low, d.list);
    LowAccounts(x.low, k, x.wire, x.sent);
    NoBuffer();
  }

  lemma LowAccounts(low: seq<Buffer>, k: seq<Reply>, wire: Bytes, sent: seq<Package>)
    requires WholeTail(low) && wire == Wire(sent, low)
    ensures var d := Drain(low, k, [], []);
      Ok(d.list) && wire + d.out == Wire(sent + d.done, d.list) &&
      sent + d.done + Packages(d.list) == sent + Packages(low)
  {
    var d := Drain(low, k, [], []);
    hide Drain, Packages, Wire;
    assert wire + [] == wire && sent + [] == sent;
    DrainWrites(low, k, [], [], wire, sent);
    DrainKeeps(low, k, [], []);
    Settle(sent, d.done, Packages(d.list), Packages(low));
  }

  lemma Settle(sent: seq<Package>, done: seq<Package>, rest: seq<Package>, all: seq<Package>)
    requires done + rest == [] + all
    ensures sent + done + rest == sent + all
  {
    assert sent + done + rest == sent + (done + rest);
    assert [] + all == all;
  }

  lemma LowQueues(low: seq<Buffer>, l: seq<Buffer>)
    requires SuffixOf(l, low) && forall i :: 0 <= i < |low| ==> low[i].pkg.low
    ensures forall i :: 0 <= i < |l| ==> l[i].pkg.low
  {
  }

  lemma NoBuffer()
    ensures Size([]) == 0
  {
  }

  /** raise_uncomplete, and the case where nothing needs raising. */
  lemma Raised(y: Snap)
    requires LowWritten(y)
    ensures y.low != [] ==> Good(y.(high := [y.low[0]], low := y.low[1..]))
    ensures (y.low == [] || y.low[0].n == 0) ==> Good(y)
  {
    hide SameOrder;
    assert [] + y.low == y.low;
    if y.low != [] {
      assert [y.low[0]] + y.low[1..] == y.low;
      assert Size([y.low[0]]) == |y.low[0].pkg.data| - y.low[0].n;
    }
  }

  /** force_close */
  function Close(x: Snap, why: Reason): Snap {
    if x.kind == Invalid then x
    else x.(kind := Invalid, high := [], low := [], dropped := x.high + x.low, reason := why)
  }

  lemma CloseGood(x: Snap, why: Reason)
    requires Good(x) || LowWritten(x)
    requires why != Open && (why == Flushed ==> x.high == [] && x.low == [])
    ensures Good(Close(x, why))
  {
    hide SameOrder, Packages, Size, Wire;
    var y := Close(x, why);
    if x.kind != Invalid {
      assert LowWritten(x) && x.high == [] ==> x.high + x.low == x.low;
      assert y.dropped == x.high + x.low;
    }
  }

  // -------------------------------------------------------------- accepting

  lemma OneBuffer(b: Buffer)
    ensures Size([b]) == |b.pkg.data| - b.n && Packages([b]) == [b.pkg] && Packages([]) == [] && Size([]) == 0
  {
    assert [b][1..] == [];
    assert Size([]) == 0;
  }

  lemma AcceptHigh(x: Snap, p: Package)
    requires Good(x) && x.kind != Invalid && !p.low
    ensures Good(x.(high := x.high + [Buffer(p, 0)], wbSize := x.wbSize + |p.data|, accepted := x.accepted + [p]))
  {
    hide SameOrder, Packages, Size, Wire;
    var b := Buffer(p, 0);
    var high := x.high + [b];
    var y := x.(high := high, wbSize := x.wbSize + |p.data|, accepted := x.accepted + [p]);
    OneBuffer(b);
    assert y.wbSize == Size(y.high) + Size(y.low) by { SizeAppend(x.high, [b]); }
    assert y.wire == Wire(y.sent, high + x.low) by {
      WirePrefix(x.sent, x.high, x.low);
      WirePrefix(x.sent, x.high, [b]);
      WirePrefix(x.sent, high, x.low);
    }
    assert SameOrder(y.accepted, y.sent + Packages(high + x.low)) by { HighOrder(x, p); }
  }

  lemma HighOrder(x: Snap, p: Package)
    requires Good(x) && x.kind != Invalid && !p.low
    ensures SameOrder(x.accepted + [p], x.sent + Packages(x.high + [Buffer(p, 0)] + x.low))
  {
    hide Packages, Size, Wire, SameOrder;
    var b := Buffer(p, 0);
    OneBuffer(b);
    PackagesAppend(x.high, x.low);
    PackagesAppend(x.high, [b]);
    PackagesAppend(x.high + [b], x.low);
    PackagesAt(x.low);
    InsertHigh(x.accepted, x.sent, Packages(x.high), Packages(x.low), p);
  }

  lemma InsertHigh(acc: seq<Package>, sent: seq<Package>, h: seq<Package>, l: seq<Package>, p: Package)
    requires SameOrder(acc, sent + (h + l)) && !p.low && forall i :: 0 <= i < |l| ==> l[i].low
    ensures SameOrder(acc + [p], sent + (h + [p] + l))
  {
    hide Only;
    OnlyNone(l, false);
    Single(p);
    InsertOne(acc, sent, h, l, p, true);
    InsertOne(acc, sent, h, l, p, false);
  }

  lemma InsertOne(acc: seq<Package>, sent: seq<Package>, h: seq<Package>, l: seq<Package>, p: Package, low: bool)
    requires Only(acc, low) == Only(sent + (h + l), low)
    requires Only([p], low) == [] || Only(l, low) == []
    ensures Only(acc + [p], low) == Only(sent + (h + [p] + l), low)
  {
    hide Only;
    var a, s, b, c, d := Only(acc, low), Only(sent, low), Only(h, low), Only(l, low), Only([p], low);
    OnlyAppend(acc, [p], low);
    OnlyAppend(sent, h + l, low);
    OnlyAppend(h, l, low);
    OnlyAppend(sent, h + [p] + l, low);
    OnlyAppend(h + [p], l, low);
    OnlyAppend(h, [p], low);
    assert a + d == s + (b + c) + d;
    assert s + (b + c) + d == s + (b + d + c);
  }

  lemma Single(p: Package)
    ensures Only([p], p.low) == [p] && Only([p], !p.low) == []
  {
    assert [p][..0] == [];
    assert Only([], p.low) == [] && Only([], !p.low) == [];
  }

  lemma AcceptLow(x: Snap, p: Package)
    requires Good(x) && x.kind != Invalid && p.low
    ensures Good(x.(low := x.low + [Buffer(p, 0)], wbSize := x.wbSize + |p.data|, accepted := x.accepted + [p]))
  {
    hide SameOrder, Packages, Size, Wire;
    var b := Buffer(p, 0);
    var y := x.(low := x.low + [b], wbSize := x.wbSize + |p.data|, accepted := x.accepted + [p]);
    OneBuffer(b);
    assert y.wbSize == Size(y.high) + Size(y.low) by { SizeAppend(x.low, [b]); }
    assert y.high + y.low == x.high + x.low + [b];
    WirePrefix(x.sent, x.high + x.low, [b]);
    PackagesAppend(x.high + x.low, [b]);
    AppendLast(x.accepted, x.sent, Packages(x.high + x.low), p);
  }

  lemma AppendLast(acc: seq<Package>, sent: seq<Package>, l: seq<Package>, p: Package)
    requires SameOrder(acc, sent + l)
    ensures SameOrder(acc + [p], sent + (l + [p]))
  {
    hide Only;
    assert sent + (l + [p]) == sent + l + [p];
    forall low: bool
      ensures Only(acc + [p], low) == Only(sent + l + [p], low)
    {
      OnlyAppend(acc, [p], low);
      OnlyAppend(sent + l, [p], low);
    }
  }

  lemma FlatLast(sent: seq<Package>, p: Package)
    ensures Flat(sent + [p]) == Flat(sent) + p.data
  {
    assert (sent + [p])[..|sent|] == sent;
  }

  lemma DirectOrder(acc: seq<Package>, sent: seq<Package>, p: Package)
    requires SameOrder(acc, sent + [])
    ensures SameOrder(acc + [p], sent + [p])
  {
    hide SameOrder;
    AppendLast(acc, sent, [], p);
    assert [] + [p] == [p];
  }

  /** A package written in part on a socket with nothing queued. */
  lemma AcceptDirect(x: Snap, p: Package, n: nat)
    requires Good(x) && x.kind != Invalid && x.high == [] && x.low == [] && n <= |p.data|
    ensures Good(x.(high := [Buffer(p, n)], wbSize := x.wbSize + |p.data| - n,
                      accepted := x.accepted + [p], wire := x.wire + p.data[..n]))
  {
    hide SameOrder, Size, Packages, Flat;
    var b := Buffer(p, n);
    assert [b] + [] == [b] && x.high + x.low == [];
    OneBuffer(b);
    DirectOrder(x.accepted, x.sent, p);
    assert Flat(x.sent) + [] == Flat(x.sent);
  }

  /** A package written wholly on a socket with nothing queued. */
  lemma AcceptWhole(x: Snap, p: Package)
    requires Good(x) && x.kind != Invalid && x.high == [] && x.low == []
    ensures Good(x.(sent := x.sent + [p], accepted := x.accepted + [p], wire := x.wire + p.data))
  {
    hide SameOrder, Size, Packages, Flat;
    assert x.high + x.low == [];
    OneBuffer(Buffer(p, 0));
    DirectOrder(x.accepted, x.sent, p);
    FlatLast(x.sent, p);
    assert x.sent + [p] + [] == x.sent + [p];
    assert Flat(x.sent) + [] == Flat(x.sent) && Flat(x.sent + [p]) + [] == Flat(x.sent + [p]);
  }
}
