/**
 * The write queues of a TCP socket in skynet/skynet-src/socket_server.c. The
 * kernel is a script of replies to write(), so every claim holds for every
 * pattern of partial writes.
 */
module SocketQueue {
  import opened Basics

  datatype Package = Package(low: bool, data: Bytes)

  /** struct write_buffer: `n` bytes of the package are already on the wire. */
  datatype Buffer = Buffer(pkg: Package, n: nat)

  /** What write() answers; an exhausted script means that it would block. */
  datatype Reply = Sent(n: nat) | Intr | Again | Fail

  datatype Kind = Connecting | Connected | Bound | Accepting | Listening | HalfClosed | Invalid

  /** What the socket thread reports: -1, SOCKET_CLOSE, SOCKET_WARNING, or a failed assertion. */
  datatype Outcome = Nothing | Closed | Warning(kilobytes: int) | Aborted

  /** Why a socket was closed. */
  datatype Reason = Open | Flushed | WriteError | ReadEnd | Shutdown

  // ------------------------------------------------------------------ buffers

  predicate Ok(list: seq<Buffer>) {
    forall i :: 0 <= i < |list| ==> list[i].n <= |list[i].pkg.data|
  }

  /** Only the head may be partly sent. */
  predicate WholeTail(list: seq<Buffer>) {
    Ok(list) && forall i :: 1 <= i < |list| ==> list[i].n == 0
  }

  function Rest(b: Buffer): Bytes
    requires b.n <= |b.pkg.data|
  {
    b.pkg.data[b.n..]
  }

  /** The bytes still to send. */
  function Size(list: seq<Buffer>): int {
    if list == [] then 0 else |list[0].pkg.data| - list[0].n + Size(list[1..])
  }

  function Packages(list: seq<Buffer>): seq<Package> {
    if list == [] then [] else [list[0].pkg] + Packages(list[1..])
  }

  function Flat(ps: seq<Package>): Bytes {
    if ps == [] then [] else Flat(ps[..|ps| - 1]) + ps[|ps| - 1].data
  }

  /** What the peer has seen once `sent` is out and the head of `list` is partly out. */
  function Wire(sent: seq<Package>, list: seq<Buffer>): Bytes
    requires Ok(list)
  {
    Flat(sent) + if list == [] then [] else list[0].pkg.data[..list[0].n]
  }

  /** The packages of one priority, in order. */
  function Only(ps: seq<Package>, low: bool): seq<Package> {
    if ps == [] then []
    else Only(ps[..|ps| - 1], low) + if ps[|ps| - 1].low == low then [ps[|ps| - 1]] else []
  }

  lemma {:induction false} OnlyAppend(a: seq<Package>, b: seq<Package>, low: bool)
    ensures Only(a + b, low) == Only(a, low) + Only(b, low)
  {
    if b == [] {
      assert a + b == a;
    } else {
      var n := |b| - 1;
      OnlyAppend(a, b[..n], low);
      assert (a + b)[..|a + b| - 1] == a + b[..n];
    }
  }

  lemma {:induction false} OnlyNone(ps: seq<Package>, low: bool)
    requires forall i :: 0 <= i < |ps| ==> ps[i].low != low
    ensures Only(ps, low) == []
  {
    if ps != [] {
      OnlyNone(ps[..|ps| - 1], low);
    }
  }

  lemma {:induction false} PackagesAppend(a: seq<Buffer>, b: seq<Buffer>)
    ensures Packages(a + b) == Packages(a) + Packages(b)
  {
    if a == [] {
      assert a + b == b;
    } else {
      PackagesAppend(a[1..], b);
      assert (a + b)[1..] == a[1..] + b;
    }
  }

  lemma {:induction false} SizeAppend(a: seq<Buffer>, b: seq<Buffer>)
    ensures Size(a + b) == Size(a) + Size(b)
  {
    if a == [] {
      assert a + b == b;
    } else {
      SizeAppend(a[1..], b);
      assert (a + b)[1..] == a[1..] + b;
    }
  }

  lemma {:induction false} PackagesAt(list: seq<Buffer>)
    ensures |Packages(list)| == |list| && forall i :: 0 <= i < |list| ==> Packages(list)[i] == list[i].pkg
  {
    if list != [] {
      PackagesAt(list[1..]);
    }
  }

  // ------------------------------------------------------------- send_list_tcp

  /** A list after writing: what is left of it, of the script, and what got out. */
  datatype Drained = Drained(list: seq<Buffer>, kernel: seq<Reply>, out: Bytes, done: seq<Package>, fail: bool)

  function Drain(list: seq<Buffer>, kernel: seq<Reply>, out: Bytes, done: seq<Package>): Drained
    requires Ok(list)
    decreases |list| + |kernel|
  {
    if list == [] || kernel == [] then Drained(list, kernel, out, done, false)
    else
      var b, rest := list[0], Rest(list[0]);
      match kernel[0]
      case Intr => Drain(list, kernel[1..], out, done)
      case Again => Drained(list, kernel[1..], out, done, false)
      case Fail => Drained(list, kernel[1..], out, done, true)
      case Sent(n) =>
        if n >= |rest| then Drain(list[1..], kernel[1..], out + rest, done + [b.pkg])
        else Drained([b.(n := b.n + n)] + list[1..], kernel[1..], out + rest[..n], done, false)
  }

  /** Draining keeps the order of packages and the count of bytes, and leaves at most the head partly sent. */
  ghost predicate Conserves(d: Drained, list: seq<Buffer>, out: Bytes, done: seq<Package>) {
    WholeTail(d.list) && d.done + Packages(d.list) == done + Packages(list) &&
    |d.out| + Size(d.list) == |out| + Size(list)
  }

  lemma {:induction false} DrainKeeps(list: seq<Buffer>, kernel: seq<Reply>, out: Bytes, done: seq<Package>)
    requires WholeTail(list)
    ensures Conserves(Drain(list, kernel, out, done), list, out, done)
    decreases |list| + |kernel|
  {
    if list != [] && kernel != [] {
      match kernel[0]
      case Intr => DrainKeeps(list, kernel[1..], out, done);
      case Again =>
      case Fail =>
      case Sent(n) =>
        var b, rest := list[0], Rest(list[0]);
        if n >= |rest| {
          DrainKeeps(list[1..], kernel[1..], out + rest, done + [b.pkg]);
          HeadGone(Drain(list[1..], kernel[1..], out + rest, done + [b.pkg]), list, out, done);
        } else {
          HeadCut(list, kernel[1..], out, done, n);
        }
    }
  }

  lemma HeadGone(d: Drained, list: seq<Buffer>, out: Bytes, done: seq<Package>)
    requires list != [] && Ok(list) && Conserves(d, list[1..], out + Rest(list[0]), done + [list[0].pkg])
    ensures Conserves(d, list, out, done)
  {
    assert done + [list[0].pkg] + Packages(list[1..]) == done + ([list[0].pkg] + Packages(list[1..]));
  }

  lemma HeadCut(list: seq<Buffer>, k: seq<Reply>, out: Bytes, done: seq<Package>, n: nat)
    requires list != [] && WholeTail(list) && n < |Rest(list[0])|
    ensures var b := list[0];
      Conserves(Drained([b.(n := b.n + n)] + list[1..], k, out + Rest(b)[..n], done, false), list, out, done)
  {
    var b := list[0];
    var l := [b.(n := b.n + n)] + list[1..];
    assert l[1..] == list[1..];
  }

  ghost predicate Accounted(d: Drained, wire: Bytes, sent: seq<Package>) {
    Ok(d.list) && wire + d.out == Wire(sent + d.done, d.list)
  }

  /** What draining writes is what the accounts say: whole packages, then part of the head. */
  lemma {:induction false} DrainWrites(list: seq<Buffer>, kernel: seq<Reply>, out: Bytes, done: seq<Package>,
                                       wire: Bytes, sent: seq<Package>)
    requires WholeTail(list) && wire + out == Wire(sent + done, list)
    ensures Accounted(Drain(list, kernel, out, done), wire, sent)
    decreases |list| + |kernel|
  {
    hide Only, Wire, Flat;
    if list != [] && kernel != [] {
      match kernel[0]
      case Intr => DrainWrites(list, kernel[1..], out, done, wire, sent);
      case Again =>
      case Fail =>
      case Sent(n) =>
        var b, rest := list[0], Rest(list[0]);
        if n >= |rest| {
          HeadOut(wire, out, sent, done, list);
          DrainWrites(list[1..], kernel[1..], out + rest, done + [b.pkg], wire, sent);
        } else {
          PartOut(wire, out, sent + done, list, n);
        }
    }
  }

  lemma HeadOut(wire: Bytes, out: Bytes, sent: seq<Package>, done: seq<Package>, list: seq<Buffer>)
    requires WholeTail(list) && list != [] && wire + out == Wire(sent + done, list)
    ensures wire + (out + Rest(list[0])) == Wire(sent + (done + [list[0].pkg]), list[1..])
  {
    var b := list[0];
    var all := sent + (done + [b.pkg]);
    assert all[..|all| - 1] == sent + done;
    var part := b.pkg.data[..b.n];
    assert part + Rest(b) == b.pkg.data;
    Joined(wire, out, Rest(b));
    Joined(Flat(sent + done), part, Rest(b));
    assert Flat(all) == Flat(sent + done) + b.pkg.data;
  }

  lemma PartOut(wire: Bytes, out: Bytes, sent: seq<Package>, list: seq<Buffer>, n: nat)
    requires WholeTail(list) && list != [] && wire + out == Wire(sent, list) && n < |Rest(list[0])|
    ensures var b := list[0];
      wire + (out + Rest(b)[..n]) == Wire(sent, [b.(n := b.n + n)] + list[1..])
  {
    var b := list[0];
    var part := b.pkg.data[..b.n];
    assert part + Rest(b)[..n] == b.pkg.data[..b.n + n];
    Joined(wire, out, Rest(b)[..n]);
    Joined(Flat(sent), part, Rest(b)[..n]);
  }

  lemma Joined(a: Bytes, b: Bytes, c: Bytes)
    ensures a + (b + c) == a + b + c
  {
  }

  // ------------------------------------------------------ the kernel's answers

  /** The byte counts among the answers. */
  function Counts(used: seq<Reply>): seq<nat> {
    if used == [] then [] else (if used[0].Sent? then [used[0].n] else []) + Counts(used[1..])
  }

  /** What the answers `used` make of a list: k packages are taken whole, and one more may be taken in part. */
  ghost predicate Answered(list: seq<Buffer>, used: seq<Reply>, k: nat, left: seq<Buffer>)
    requires Ok(list)
  {
    var n := Counts(used);
    && k <= |list| && k <= |n| <= k + 1 && (forall j :: 0 <= j < k ==> n[j] >= |Rest(list[j])|)
    && (|n| == k ==> left == list[k..])
    && (|n| == k + 1 ==>
          k < |list| && n[k] < |Rest(list[k])| && left == [list[k].(n := list[k].n + n[k])] + list[k + 1..])
  }

  /** Writing stops with the list done, the answers at an end, or an answer that is no whole package. */
  ghost predicate Stops(used: seq<Reply>, kernel: seq<Reply>, k: nat, left: seq<Buffer>, fail: bool) {
    && (forall i :: 0 <= i < |used| - 1 ==> used[i].Intr? || used[i].Sent?)
    && (fail <==> used != [] && used[|used| - 1] == Fail)
    && (left != [] ==>
          kernel == [] || (used != [] && (used[|used| - 1] == Fail || used[|used| - 1] == Again || |Counts(used)| > k)))
    && (|Counts(used)| > k ==> used[|used| - 1].Sent?)
  }

  ghost predicate Read(list: seq<Buffer>, kernel: seq<Reply>, k: nat, d: Drained)
    requires Ok(list)
  {
    && |d.kernel| <= |kernel|
    && var used := kernel[..|kernel| - |d.kernel|];
       kernel == used + d.kernel && Answered(list, used, k, d.list) && Stops(used, d.kernel, k, d.list, d.fail)
  }

  /** Writing a list uses up the answers one by one: each count of a whole package or more sends the next package; a
      smaller one sends that much and stops it, as do an error and a refusal; nothing else does. */
  lemma {:induction false} DrainExact(list: seq<Buffer>, kernel: seq<Reply>, out: Bytes, done: seq<Package>)
    requires Ok(list)
    ensures var d := Drain(list, kernel, out, done);
      |d.done| >= |done| && Read(list, kernel, |d.done| - |done|, d)
    decreases |list| + |kernel|
  {
    hide Read, Drain;
    var d := Drain(list, kernel, out, done);
    if list == [] || kernel == [] {
      DrainEnds(list, kernel, out, done);
    } else if kernel[0].Intr? {
      DrainAgain(list, kernel, out, done);
      DrainExact(list, kernel[1..], out, done);
      ReadIntr(list, kernel, |d.done| - |done|, d);
    } else if kernel[0].Sent? && kernel[0].n >= |Rest(list[0])| {
      DrainNext(list, kernel, out, done);
      DrainExact(list[1..], kernel[1..], out + Rest(list[0]), done + [list[0].pkg]);
      ReadWhole(list, kernel, |d.done| - |done|, d);
    } else {
      DrainEnds(list, kernel, out, done);
    }
  }

  lemma DrainAgain(list: seq<Buffer>, kernel: seq<Reply>, out: Bytes, done: seq<Package>)
    requires Ok(list) && list != [] && kernel != [] && kernel[0].Intr?
    ensures Drain(list, kernel, out, done) == Drain(list, kernel[1..], out, done)
  {
  }

  lemma DrainNext(list: seq<Buffer>, kernel: seq<Reply>, out: Bytes, done: seq<Package>)
    requires Ok(list) && list != [] && kernel != [] && kernel[0].Sent? && kernel[0].n >= |Rest(list[0])|
    ensures var b := list[0];
      Drain(list, kernel, out, done) == Drain(list[1..], kernel[1..], out + Rest(b), done + [b.pkg])
  {
  }

  lemma DrainEnds(list: seq<Buffer>, kernel: seq<Reply>, out: Bytes, done: seq<Package>)
    requires Ok(list)
    requires list == [] || kernel == [] || (!kernel[0].Intr? && (kernel[0].Sent? ==> kernel[0].n < |Rest(list[0])|))
    ensures var d := Drain(list, kernel, out, done); d.done == done && Read(list, kernel, 0, d)
  {
    hide Read;
    var d := Drain(list, kernel, out, done);
    if list == [] || kernel == [] {
      ReadNone(list, kernel, d);
    } else {
      ReadOne(list, kernel, d);
    }
  }

  lemma ReadNone(list: seq<Buffer>, kernel: seq<Reply>, d: Drained)
    requires Ok(list) && (list == [] || kernel == []) && d.list == list && d.kernel == kernel && !d.fail
    ensures Read(list, kernel, 0, d)
  {
    assert kernel[..0] == [];
  }

  lemma ReadOne(list: seq<Buffer>, kernel: seq<Reply>, d: Drained)
    requires list != [] && kernel != [] && Ok(list) && d.kernel == kernel[1..] && d.fail == kernel[0].Fail?
    requires !kernel[0].Intr?
    requires if kernel[0].Sent? then kernel[0].n < |Rest(list[0])|
             && d.list == [list[0].(n := list[0].n + kernel[0].n)] + list[1..] else d.list == list
    ensures Read(list, kernel, 0, d)
  {
    assert kernel[..1] == [kernel[0]];
    assert [kernel[0]][1..] == [];
    assert kernel == kernel[..1] + kernel[1..];
  }

  lemma ReadIntr(list: seq<Buffer>, kernel: seq<Reply>, k: nat, d: Drained)
    requires kernel != [] && kernel[0].Intr? && Ok(list) && Read(list, kernel[1..], k, d)
    ensures Read(list, kernel, k, d)
  {
    var used := kernel[..|kernel| - |d.kernel|];
    assert used[1..] == kernel[1..][..|kernel[1..]| - |d.kernel|];
    assert used == [kernel[0]] + used[1..];
  }

  lemma ReadWhole(list: seq<Buffer>, kernel: seq<Reply>, k: nat, d: Drained)
    requires list != [] && kernel != [] && kernel[0].Sent? && Ok(list) && kernel[0].n >= |Rest(list[0])|
    requires k > 0 && Read(list[1..], kernel[1..], k - 1, d)
    ensures Read(list, kernel, k, d)
  {
    var used := kernel[..|kernel| - |d.kernel|];
    assert used[1..] == kernel[1..][..|kernel[1..]| - |d.kernel|];
    assert used == [kernel[0]] + used[1..];
    assert list[1..][k - 1..] == list[k..];
  }
}
