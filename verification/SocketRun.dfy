/** One TCP socket of skynet/skynet-src/socket_server.c, and every run of it. */
module SocketRun {
  import opened Basics
  import opened SocketQueue
  import opened SocketServer

  // ------------------------------------------------- both lists, one after the other

  /** The high list is written first... */
  function First(high: seq<Buffer>, kernel: seq<Reply>): Drained
    requires Ok(high)
  {
    Drain(high, kernel, [], [])
  }

  /** ...and when all of it is out, the low list. */
  predicate Through(high: seq<Buffer>, kernel: seq<Reply>)
    requires Ok(high)
  {
    !First(high, kernel).fail && First(high, kernel).list == []
  }

  function Second(high: seq<Buffer>, low: seq<Buffer>, kernel: seq<Reply>): Drained
    requires Ok(high) && Ok(low)
  {
    Drain(low, First(high, kernel).kernel, [], [])
  }

  /** Some write fails. */
  predicate Fails(high: seq<Buffer>, low: seq<Buffer>, kernel: seq<Reply>)
    requires Ok(high) && Ok(low)
  {
    First(high, kernel).fail || (Through(high, kernel) && Second(high, low, kernel).fail)
  }

  /** Both lists get out. */
  predicate Drains(high: seq<Buffer>, low: seq<Buffer>, kernel: seq<Reply>)
    requires Ok(high) && Ok(low)
  {
    Through(high, kernel) && !Second(high, low, kernel).fail && Second(high, low, kernel).list == []
  }

  /** The kernel stops exactly between two packages of the low list. */
  predicate StopsBetween(high: seq<Buffer>, low: seq<Buffer>, kernel: seq<Reply>)
    requires Ok(high) && Ok(low)
  {
    Through(high, kernel) &&
    var e := Second(high, low, kernel);
    !e.fail && e.list != [] && e.list[0].n == 0
  }

  /** What the kernel takes of both lists. */
  function Out(high: seq<Buffer>, low: seq<Buffer>, kernel: seq<Reply>): Bytes
    requires Ok(high) && Ok(low)
  {
    First(high, kernel).out + if Through(high, kernel) then Second(high, low, kernel).out else []
  }

  function Done(high: seq<Buffer>, low: seq<Buffer>, kernel: seq<Reply>): seq<Package>
    requires Ok(high) && Ok(low)
  {
    First(high, kernel).done + if Through(high, kernel) then Second(high, low, kernel).done else []
  }

  /** What is left of the kernel's answers. */
  function Unread(high: seq<Buffer>, low: seq<Buffer>, kernel: seq<Reply>): seq<Reply>
    requires Ok(high) && Ok(low)
  {
    if Through(high, kernel) then Second(high, low, kernel).kernel else First(high, kernel).kernel
  }

  /** The queues afterwards: a package of the low list that is partly out has become the high list. */
  predicate LeftOver(high: seq<Buffer>, low: seq<Buffer>, kernel: seq<Reply>, high': seq<Buffer>, low': seq<Buffer>)
    requires Ok(high) && Ok(low)
  {
    if !Through(high, kernel) then high' == First(high, kernel).list && low' == low
    else Raises(Second(high, low, kernel).list, high', low')
  }

  predicate Raises(l: seq<Buffer>, high: seq<Buffer>, low: seq<Buffer>) {
    if l != [] && l[0].n != 0 then high == [l[0]] && low == l[1..] else high == [] && low == l
  }

  lemma JoinedDone(a: seq<Package>, b: seq<Package>, c: seq<Package>)
    ensures a + (b + c) == a + b + c
  {
  }

  /** With nothing queued nothing happens... */
  lemma NothingToWrite(kernel: seq<Reply>)
    ensures Drains([], [], kernel) && !Fails([], [], kernel) && !StopsBetween([], [], kernel)
    ensures Out([], [], kernel) == [] && Done([], [], kernel) == [] && Unread([], [], kernel) == kernel
  {
    NothingLeft(kernel);
  }

  /** ...and if not everything gets out, something is left. */
  lemma SomethingLeft(high: seq<Buffer>, low: seq<Buffer>, kernel: seq<Reply>, high': seq<Buffer>, low': seq<Buffer>)
    requires Ok(high) && Ok(low) && LeftOver(high, low, kernel, high', low') && !Fails(high, low, kernel)
    ensures high' == [] && low' == [] <==> Drains(high, low, kernel)
  {
    hide Drain;
  }

  class Socket {
    var kind: Kind
    var high: seq<Buffer>
    var low: seq<Buffer>
    var wbSize: int
    var warnSize: int
    var kernel: seq<Reply>
    ghost var accepted: seq<Package>
    ghost var sent: seq<Package>
    ghost var wire: Bytes
    ghost var dropped: seq<Buffer>
    ghost var reason: Reason

    ghost function Now(): Snap
      reads this
    {
      Snap(kind, high, low, wbSize, accepted, sent, wire, dropped, reason)
    }

    constructor (k: Kind, script: seq<Reply>)
      requires k != Invalid
      ensures Good(Now()) && kind == k && kernel == script && accepted == [] && high == [] && low == []
    {
      kind, high, low, wbSize, warnSize, kernel := k, [], [], 0, 0, script;
      accepted, sent, wire, dropped, reason := [], [], [], [], Open;
      new;
      hide Good;
      FreshGood(k);
    }

    predicate Empty()
      reads this
    {
      high == [] && low == []
    }

    /** force_close */
    method ForceClose(ghost why: Reason)
      modifies this
      ensures Now() == Close(old(Now()), why) && kernel == old(kernel) && warnSize == old(warnSize)
    {
      if kind == Invalid {
        return;
      }
      dropped, reason := high + low, why;
      high, low, kind := [], [], Invalid;
    }

    /** send_list_tcp, up to the call of force_close on an error */
    method SendList(list: seq<Buffer>) returns (rest: seq<Buffer>, fail: bool)
      requires Ok(list)
      modifies this`kernel, this`wbSize, this`sent, this`wire
      ensures var d := Drain(list, old(kernel), [], []);
        rest == d.list && fail == d.fail && kernel == d.kernel && wbSize == old(wbSize) - |d.out| &&
        sent == old(sent) + d.done && wire == old(wire) + d.out
    {
      rest, fail := list, false;
      ghost var out, done := [], [];
      ghost var all := Drain(list, kernel, [], []);
      assert wire == old(wire) + out && sent == old(sent) + done;
      while rest != [] && kernel != []
        invariant Ok(rest) && !fail && Drain(rest, kernel, out, done) == all
        invariant wbSize == old(wbSize) - |out| && wire == old(wire) + out && sent == old(sent) + done
        decreases |rest| + |kernel|
      {
        var reply, b := kernel[0], rest[0];
        kernel := kernel[1..];
        match reply
        case Intr =>
        case Again => return;
        case Fail =>
          fail := true;
          return;
        case Sent(m) =>
          var sz := if m >= |Rest(b)| then |Rest(b)| else m;
          wbSize := wbSize - sz;
          wire := wire + Rest(b)[..sz];
          assert wire == old(wire) + (out + Rest(b)[..sz]);
          out := out + Rest(b)[..sz];
          if sz != |Rest(b)| {
            rest := [b.(n := b.n + sz)] + rest[1..];
            return;
          }
          assert Rest(b)[..sz] == Rest(b);
          sent := sent + [b.pkg];
          assert sent == old(sent) + (done + [b.pkg]);
          done := done + [b.pkg];
          rest := rest[1..];
      }
    }

    /**
     * send_buffer. It closes the socket exactly when a write fails or a
     * half-closed socket has nothing left; the assertion at its end fails
     * exactly when the kernel stops between two packages of the low list.
     */
    method SendBuffer() returns (r: Outcome)
      requires Good(Now()) && kind != Invalid
      modifies this
      ensures Good(Now()) && accepted == old(accepted)
      ensures r == Aborted <==> StopsBetween(old(high), old(low), old(kernel))
      ensures r == Closed <==>
        Fails(old(high), old(low), old(kernel)) ||
        (Drains(old(high), old(low), old(kernel)) && old(kind) == HalfClosed)
      ensures r == Closed <==> kind == Invalid
      ensures r == Closed ==> reason == if Fails(old(high), old(low), old(kernel)) then WriteError else Flushed
      ensures r.Warning? <==> Drains(old(high), old(low), old(kernel)) && kind != Invalid && old(warnSize) > 0
      ensures (r.Warning? ==> r == Warning(0)) && warnSize == if r.Warning? then 0 else old(warnSize)
      ensures r != Closed ==> kind == old(kind) && LeftOver(old(high), old(low), old(kernel), high, low)
      ensures wire == old(wire) + Out(old(high), old(low), old(kernel))
      ensures sent == old(sent) + Done(old(high), old(low), old(kernel))
      ensures kernel == Unread(old(high), old(low), old(kernel))
      ensures kind == HalfClosed ==> !Empty()
    {
      hide Good, Drain, LowWritten;
      GoodParts(Now());
      ghost var x := Now();
      HighWritten(x, kernel);
      var fail;
      high, fail := SendList(high);
      ghost var y := Now();
      GoodParts(y);
      if fail {
        CloseGood(y, WriteError);
        ForceClose(WriteError);
        return Closed;
      }
      if high != [] {
        return Nothing;
      }
      r := SendLow();
      assert y.wire == old(wire) + First(old(high), old(kernel)).out;
      Joined(old(wire), First(old(high), old(kernel)).out, Second(old(high), old(low), old(kernel)).out);
      JoinedDone(old(sent), First(old(high), old(kernel)).done, Second(old(high), old(low), old(kernel)).done);
    }

    /** The rest of send_buffer, once the high list is out. */
    method SendLow() returns (r: Outcome)
      requires Good(Now()) && kind != Invalid && high == []
      modifies this
      ensures Good(Now()) && accepted == old(accepted) && Ok(old(low))
      ensures var e := Drain(old(low), old(kernel), [], []);
        (r == Aborted <==> !e.fail && e.list != [] && e.list[0].n == 0) &&
        (r == Closed <==> e.fail || (e.list == [] && old(kind) == HalfClosed)) &&
        (r == Closed ==> reason == if e.fail then WriteError else Flushed) &&
        (r.Warning? <==> !e.fail && e.list == [] && kind != Invalid && old(warnSize) > 0) &&
        (r != Closed ==> Raises(e.list, high, low)) &&
        wire == old(wire) + e.out && sent == old(sent) + e.done && kernel == e.kernel
      ensures r == Closed <==> kind == Invalid
      ensures (r.Warning? ==> r == Warning(0)) && warnSize == if r.Warning? then 0 else old(warnSize)
      ensures r != Closed ==> kind == old(kind)
    {
      hide Good, Drain, LowWritten;
      GoodParts(Now());
      if low != [] {
        LowIsWritten(Now(), kernel);
        var fail;
        low, fail := SendList(low);
        LowParts(Now());
        Raised(Now());
        if fail {
          CloseGood(Now(), WriteError);
          ForceClose(WriteError);
          return Closed;
        }
        if low != [] && low[0].n != 0 {
          high, low := [low[0]], low[1..];
          return Nothing;
        }
        if low != [] {
          return Aborted;
        }
      } else {
        NothingLeft(kernel);
      }
      if kind == HalfClosed {
        CloseGood(Now(), Flushed);
        ForceClose(Flushed);
        return Closed;
      }
      if warnSize > 0 {
        warnSize := 0;
        return Warning(0);
      }
      return Nothing;
    }

    /** send_socket: the package is taken unless the socket cannot send or the write fails. */
    method SendSocket(data: Bytes, priorityLow: bool) returns (r: Outcome)
      requires Good(Now())
      modifies this
      ensures Good(Now())
      ensures var p := Package(priorityLow, data);
        accepted == old(accepted) + (if old(Sends(kind)) && r != Closed then [p] else [])
      ensures r == Closed <==> old(kind) != Invalid && kind == Invalid
      ensures r == Closed <==> old(kind == Connected && Empty() && kernel != [] && kernel[0] == Fail)
      ensures r == Closed ==> reason == WriteError && dropped == [] && wire == old(wire)
      ensures r != Closed ==> kind == old(kind)
      ensures !old(Sends(kind)) ==> r == Nothing && Now() == old(Now())
      ensures old(Sends(kind)) && r != Closed ==> Took(old(Now()), Now(), Package(priorityLow, data), old(kernel))
      ensures Warned(|high| + |low| > old(|high| + |low|), wbSize, old(warnSize), warnSize, r)
      ensures r != Aborted
    {
      hide Good;
      GoodParts(Now());
      ghost var x := Now();
      var p := Package(priorityLow, data);
      if !Sends(kind) {
        return Nothing;
      }
      if Empty() && kind == Connected {
        var queued;
        r, queued := SendDirect(p);
        if !queued {
          return;
        }
      } else if priorityLow {
        AcceptLow(x, p);
        low := low + [Buffer(p, 0)];
        wbSize := wbSize + |data|;
        accepted := accepted + [p];
      } else {
        AcceptHigh(x, p);
        high := high + [Buffer(p, 0)];
        wbSize := wbSize + |data|;
        accepted := accepted + [p];
      }
      assert Took(x, Now(), p, old(kernel));
      hide Took;
      r := Warn();
    }

    /** send_socket on a connected socket with nothing queued: what is not written goes to the high list. */
    method SendDirect(p: Package) returns (r: Outcome, queued: bool)
      requires Good(Now()) && kind == Connected && Empty()
      modifies this
      ensures Good(Now()) && accepted == old(accepted) + (if r == Nothing then [p] else [])
      ensures r == Closed <==> old(kernel != [] && kernel[0] == Fail)
      ensures if r == Closed then
                kind == Invalid && reason == WriteError && dropped == [] && wire == old(wire) && !queued
              else r == Nothing && kind == old(kind) && Took(old(Now()), Now(), p, old(kernel))
      ensures queued <==> !Empty()
      ensures warnSize == old(warnSize)
    {
      hide Good;
      ghost var x := Now();
      var n := 0;
      if kernel != [] {
        var reply := kernel[0];
        kernel := kernel[1..];
        if reply == Fail {
          CloseGood(x, WriteError);
          ForceClose(WriteError);
          return Closed, false;
        }
        if reply.Sent? {
          n := if reply.n >= |p.data| then |p.data| else reply.n;
        }
      }
      wire := wire + p.data[..n];
      accepted := accepted + [p];
      if n == |p.data| {
        assert p.data[..n] == p.data;
        AcceptWhole(x, p);
        sent := sent + [p];
        return Nothing, false;
      }
      AcceptDirect(x, p, n);
      high := [Buffer(p, n)];
      wbSize := wbSize + |p.data| - n;
      return Nothing, true;
    }

    /** The end of send_socket: something has been queued. */
    method Warn() returns (r: Outcome)
      modifies this`warnSize
      ensures Warned(true, wbSize, old(warnSize), warnSize, r)
      ensures r == Nothing || r.Warning?
    {
      if wbSize >= WARNING_SIZE && wbSize >= warnSize {
        warnSize := if warnSize == 0 then WARNING_SIZE * 2 else warnSize * 2;
        return Warning(if wbSize % 1024 == 0 then wbSize / 1024 else wbSize / 1024 + 1);
      }
      return Nothing;
    }

    /** close_socket: flush what the kernel takes now, and half-close if something is left. */
    method CloseSocket(shutdown: bool) returns (r: Outcome)
      requires Good(Now())
      modifies this
      ensures Good(Now()) && accepted == old(accepted)
      ensures r == Aborted <==> StopsBetween(old(high), old(low), old(kernel))
      ensures r == Closed <==> kind == Invalid
      ensures r == Closed <==>
        r != Aborted && (shutdown || old(kind) == Invalid || Fails(old(high), old(low), old(kernel)) ||
                         Drains(old(high), old(low), old(kernel)))
      ensures r == Closed && old(kind) != Invalid ==>
        reason == if Fails(old(high), old(low), old(kernel)) then WriteError
                  else if Drains(old(high), old(low), old(kernel)) then Flushed else Shutdown
      ensures r != Closed ==> LeftOver(old(high), old(low), old(kernel), high, low) && !Empty()
      ensures r != Closed ==> r == Aborted || (r == Nothing && kind == HalfClosed && !shutdown)
      ensures wire == old(wire) + Out(old(high), old(low), old(kernel))
      ensures sent == old(sent) + Done(old(high), old(low), old(kernel))
      ensures kernel == Unread(old(high), old(low), old(kernel))
    {
      hide Good, Drain, First, Second, Through, Fails, Out, Done, Unread, LeftOver;
      GoodParts(Now());
      NothingToWrite(kernel);
      if kind == Invalid {
        return Closed;
      }
      if !Empty() {
        r := SendBuffer();
        if r != Closed {
          SomethingLeft(old(high), old(low), old(kernel), high, low);
        }
        if r != Nothing && !r.Warning? {
          return;
        }
      }
      if shutdown || Empty() {
        ghost var why := if Empty() then Flushed else Shutdown;
        CloseGood(Now(), why);
        ForceClose(why);
        return Closed;
      }
      HalfCloseGood(Now());
      kind := HalfClosed;
      return Nothing;
    }

    /** forward_message_tcp on end of file or an error, and report_connect on an error */
    method ReadEnds()
      requires Good(Now())
      modifies this
      ensures Good(Now()) && kind == Invalid && accepted == old(accepted)
      ensures reason == if old(kind) == Invalid then old(reason) else ReadEnd
    {
      CloseGood(Now(), ReadEnd);
      ForceClose(ReadEnd);
    }
  }

  /** What the kernel takes of a package of the given size that is written directly. */
  function TakenAtOnce(kernel: seq<Reply>, size: nat): nat {
    if kernel == [] || !kernel[0].Sent? then 0 else if kernel[0].n >= size then size else kernel[0].n
  }

  /** What becomes of a package that is not refused: written directly and the rest kept, or queued by its priority. */
  ghost predicate Took(x: Snap, y: Snap, p: Package, kernel: seq<Reply>) {
    if x.kind == Connected && x.high == [] && x.low == [] then
      var n := TakenAtOnce(kernel, |p.data|);
      y.wire == x.wire + p.data[..n] && y.low == [] && y.high == if n == |p.data| then [] else [Buffer(p, n)]
    else
      y.wire == x.wire &&
      if p.low then y.high == x.high && y.low == x.low + [Buffer(p, 0)]
      else y.high == x.high + [Buffer(p, 0)] && y.low == x.low
  }

  /** A warning comes when something is queued and the size has reached the limit, which doubles; in kilobytes, rounded
      up. */
  predicate Warned(queued: bool, size: int, limit: int, limit': int, r: Outcome) {
    (r.Warning? <==> queued && size >= WARNING_SIZE && size >= limit) &&
    (r.Warning? ==> 1024 * (r.kilobytes - 1) < size <= 1024 * r.kilobytes) &&
    limit' == if !r.Warning? then limit else if limit == 0 then WARNING_SIZE * 2 else limit * 2
  }

  predicate Sends(k: Kind) {
    k == Connecting || k == Connected || k == Bound
  }

  lemma FreshGood(k: Kind)
    requires k != Invalid
    ensures Good(Snap(k, [], [], 0, [], [], [], [], Open))
  {
    var x := Snap(k, [], [], 0, [], [], [], [], Open);
    assert Pending(x) == [];
    assert Packages([]) == [] && Flat([]) == [] && Size([]) == 0;
  }

  lemma GoodParts(x: Snap)
    requires Good(x)
    ensures Queues(x.high, x.low) && Ok(x.high) && Ok(x.low) && WholeTail(x.low)
    ensures x.kind == Invalid <==> x.reason != Open
    ensures x.kind == Invalid ==> x.high == [] && x.low == []
  {
  }

  lemma LowParts(y: Snap)
    requires LowWritten(y)
    ensures y.high == [] && y.kind != Invalid && y.reason == Open && Ok(y.low)
  {
  }

  lemma NothingLeft(k: seq<Reply>)
    ensures Drain([], k, [], []) == Drained([], k, [], [], false)
  {
  }

  lemma HalfCloseGood(x: Snap)
    requires Good(x) && x.kind != Invalid
    ensures Good(x.(kind := HalfClosed))
  {
  }

  // ------------------------------------------------------------------ all runs

  datatype Op = Send(data: Bytes, low: bool) | Writable | CloseIt(shutdown: bool) | EndOfFile | ConnectDone

  predicate Flushes(op: Op) {
    op.Writable? || op.CloseIt?
  }

  /**
   * Any sequence of requests and events on one socket, up to a failed
   * assertion. After an event that flushes, a half-closed socket has
   * something left to write.
   */
  method Drive(s: Socket, ops: seq<Op>) returns (aborted: bool)
    requires Good(s.Now())
    modifies s
    ensures Good(s.Now()) && old(s.accepted) <= s.accepted
    ensures var list := Pending(s.Now());
      s.wire == Flat(s.sent) + if list == [] then [] else list[0].pkg.data[..list[0].n]
    ensures forall low: bool :: Only(s.sent, low) <= Only(s.accepted, low)
    ensures s.reason == Flushed ==> s.wire == Flat(s.sent) && SameOrder(s.accepted, s.sent)
    ensures s.kind == HalfClosed && s.Empty() ==>
      old(s.kind == HalfClosed && s.Empty()) && forall i :: 0 <= i < |ops| ==> !Flushes(ops[i])
  {
    aborted := DriveOn(s, ops);
    WholePackages(s.Now());
    if s.reason == Flushed {
      FlushedDelivers(s.Now());
    }
  }

  method DriveOn(s: Socket, ops: seq<Op>) returns (aborted: bool)
    requires Good(s.Now())
    modifies s
    ensures Good(s.Now()) && old(s.accepted) <= s.accepted
    ensures s.kind == HalfClosed && s.Empty() ==>
      old(s.kind == HalfClosed && s.Empty()) && forall i :: 0 <= i < |ops| ==> !Flushes(ops[i])
  {
    hide Good, Drain, First, Second, Through, Fails, Drains, StopsBetween, Out, Done, Unread, LeftOver, Took, Warned;
    aborted := false;
    for i := 0 to |ops|
      invariant Good(s.Now()) && old(s.accepted) <= s.accepted
      invariant s.kind == HalfClosed && s.Empty() ==>
        old(s.kind == HalfClosed && s.Empty()) && forall j :: 0 <= j < i ==> !Flushes(ops[j])
    {
      GoodParts(s.Now());
      var r := Nothing;
      match ops[i]
      case Send(data, low) => r := s.SendSocket(data, low);
      case Writable =>
        if s.kind == Connected || s.kind == HalfClosed || s.kind == Bound {
          r := s.SendBuffer();
        }
      case CloseIt(shutdown) => r := s.CloseSocket(shutdown);
      case EndOfFile => s.ReadEnds();
      case ConnectDone =>
        if s.kind == Connecting {
          ConnectGood(s.Now());
          s.kind := Connected;
        }
      if r == Aborted {
        return true;
      }
    }
  }

  lemma ConnectGood(x: Snap)
    requires Good(x) && x.kind == Connecting
    ensures Good(x.(kind := Connected))
  {
  }

  // ------------------------------------------------------------ what that means

  lemma {:induction false} OnlyPrefix(ps: seq<Package>, n: nat, low: bool)
    requires n <= |ps|
    ensures Only(ps[..n], low) <= Only(ps, low)
  {
    assert ps == ps[..n] + ps[n..];
    OnlyAppend(ps[..n], ps[n..], low);
  }

  /**
   * At every point of every run the wire carries whole packages in an order
   * that respects submission within each priority, plus at most the
   * beginning of one package, whose rest is the head of what is pending.
   */
  lemma WholePackages(x: Snap)
    requires Good(x)
    ensures x.wire == Flat(x.sent) + (if Pending(x) == [] then [] else Pending(x)[0].pkg.data[..Pending(x)[0].n])
    ensures forall low: bool :: Only(x.sent, low) <= Only(x.accepted, low)
    ensures x.kind != Invalid && x.high == [] ==> x.wire == Flat(x.sent)
  {
    hide Only;
    forall low: bool
      ensures Only(x.sent, low) <= Only(x.accepted, low)
    {
      var all := x.sent + Packages(Pending(x));
      assert all[..|x.sent|] == x.sent;
      OnlyPrefix(all, |x.sent|, low);
    }
    if x.kind != Invalid && x.high == [] {
      assert x.high + x.low == x.low;
      assert Flat(x.sent) + [] == Flat(x.sent);
    }
  }

  /** A socket that was closed without an error, an end of file or a shutdown has delivered everything it took. */
  lemma FlushedDelivers(x: Snap)
    requires Good(x) && x.reason == Flushed
    ensures x.wire == Flat(x.sent) && SameOrder(x.accepted, x.sent)
  {
    assert x.sent + [] == x.sent;
  }

  /** The head of the low list is never partly sent between events, which is what send_buffer first asserts. */
  lemma LowHeadWhole(x: Snap)
    requires Good(x)
    ensures x.low != [] ==> x.low[0].n == 0
  {
  }

  /** Stopping between packages means that the low list is cut at a package boundary, with something left. */
  lemma BoundaryCut(high: seq<Buffer>, low: seq<Buffer>, kernel: seq<Reply>)
    requires Queues(high, low)
    ensures var d := Drain(high, kernel, [], []); var e := Drain(low, d.kernel, [], []);
      StopsBetween(high, low, kernel) <==>
      !d.fail && d.list == [] && !e.fail && exists j :: 0 <= j < |low| && e.list == low[j..]
  {
    var d := Drain(high, kernel, [], []);
    var e := Drain(low, d.kernel, [], []);
    DrainTail(low, d.kernel, [], []);
    hide Drain;
    if e.list != [] && e.list[0].n == 0 {
      var j := |low| - |e.list|;
      assert e.list[0] == low[j];
      assert e.list == low[j..];
    }
  }

  /** Two one-byte packages of low priority, of which the kernel takes one: the assertion fails. */
  lemma BoundaryExample(a: Byte, b: Byte)
    ensures StopsBetween([], [Buffer(Package(true, [a]), 0), Buffer(Package(true, [b]), 0)], [Sent(1), Again])
  {
    var low := [Buffer(Package(true, [a]), 0), Buffer(Package(true, [b]), 0)];
    var k := [Sent(1), Again];
    assert Drain([], k, [], []) == Drained([], k, [], [], false);
    assert Rest(low[0]) == [a];
    assert low[1..] == [low[1]] && k[1..] == [Again];
    assert Drain(low, k, [], []) == Drain([low[1]], [Again], [] + [a], [] + [low[0].pkg]);
    assert Drain([low[1]], [Again], [] + [a], [] + [low[0].pkg]).list == [low[1]];
  }
}
