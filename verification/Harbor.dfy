/**
 * A link to another harbor in skynet/service-src/service_harbor.c: messages by
 * handle wait in a ring until the link is up and keep their order; the receiver
 * rebuilds them from the socket's data, however that arrives.
 */
module Harbor {
  import opened Basics
  import opened MessageQueue
  import opened HarborFrames

  const QueueSize: nat := 1024

  const Blank: Msg := Msg([], 0, 0, 0)

  /** struct harbor_msg_queue: a ring with one slot kept free. */
  class MsgQueue {
    var size: nat
    var head: nat
    var tail: nat
    var data: array<Msg>

    ghost predicate Valid()
      reads this
    {
      size > 1 && data.Length == size && head < size && tail < size
    }

    ghost function Contents(): seq<Msg>
      requires Valid()
      reads this, data
    {
      Ring(data[..], head, tail)
    }

    /** new_queue */
    constructor ()
      ensures Valid() && fresh(data) && Contents() == []
    {
      size, head, tail := QueueSize, 0, 0;
      data := new Msg[QueueSize](_ => Blank);
    }

    /** push_queue_msg: doubles the ring when only the free slot is left. */
    method Push(m: Msg)
      requires Valid()
      modifies this, data
      ensures Valid() && (data == old(data) || fresh(data)) && Contents() == old(Contents()) + [m]
    {
      hide Ring;
      Wrapped(tail, 1, size);
      if (tail + 1) % size == head {
        Grow();
      }
      Put(m);
    }

    /** The slot at the tail, with one left free. */
    method Put(m: Msg)
      requires Valid() && head != if tail + 1 < size then tail + 1 else 0
      modifies this`tail, data
      ensures Valid() && Contents() == old(Contents()) + [m]
    {
      hide Ring;
      Wrapped(tail, 1, size);
      ghost var before := data[..];
      RingWrite(before, head, tail, m);
      data[tail] := m;
      assert data[..] == before[tail := m];
      tail := (tail + 1) % size;
    }

    /** The copy into a ring of twice the size. */
    method Grow()
      requires Valid() && head == if tail + 1 < size then tail + 1 else 0
      modifies this
      ensures Valid() && fresh(data) && Contents() == old(Contents())
      ensures head == 0 && tail + 1 < size
    {
      var bigger := new Msg[size * 2](_ => Blank);
      ghost var all := Contents();
      assert |all| == size - 1;
      for i := 0 to size - 1
        invariant size == old(size) && head == old(head) && tail == old(tail) && data == old(data)
        invariant data[..] == old(data[..]) && fresh(bigger) && bigger.Length == 2 * size
        invariant forall j :: 0 <= j < i ==> bigger[j] == all[j]
      {
        Wrapped(head, i, size);
        bigger[i] := data[(i + head) % size];
        assert all[i] == bigger[i];
      }
      head, tail := 0, size - 1;
      size := size * 2;
      data := bigger;
      assert data[..][0..tail] == all;
    }

    /** pop_queue */
    method Pop() returns (empty: bool, m: Msg)
      requires Valid()
      modifies this
      ensures Valid() && data == old(data)
      ensures empty <==> old(Contents()) == []
      ensures empty ==> Contents() == []
      ensures !empty ==> old(Contents()) == [m] + Contents()
    {
      if head == tail {
        return true, Blank;
      }
      RingPop(data[..], head, tail);
      Wrapped(head, 1, size);
      empty, m := false, data[head];
      head := (head + 1) % size;
    }
  }

  datatype Status = Wait | Handshake | Header | Content | Down

  /** What came of a chunk: dealt with, or a content without room for the trailer, which the source reads anyway. */
  datatype Outcome = Done | ShortContent

  /** struct slave, for one harbor `id`; `self` is our own number. */
  class Link {
    const id: Byte
    const self: Byte
    var fd: int
    var status: Status
    var queue: MsgQueue?
    var length: nat
    var read: nat
    var size: Bytes
    var recv: Bytes
    /** Messages by handle that were taken, those given to the socket, what the socket got, and what was forwarded. */
    ghost var taken: seq<Msg>
    ghost var flushed: seq<Msg>
    ghost var wire: Bytes
    ghost var inbox: seq<Msg>

    /** The messages that still wait. */
    ghost function Waiting(): seq<Msg>
      requires queue != null ==> queue.Valid()
      reads this, queue, if queue != null then {queue.data} else {}
    {
      if queue == null then [] else queue.Contents()
    }

    /**
     * Sending: what was taken is what the socket got, then what waits; nothing
     * waits on a link that is up; the socket got our number and then the frames.
     */
    ghost predicate Sending()
      reads this, queue, if queue != null then {queue.data} else {}
    {
      (queue != null ==> queue.Valid()) && (status == Wait <==> fd == 0) &&
      (status != Down ==> taken == flushed + Waiting()) &&
      (status == Header || status == Content ==> queue == null) &&
      (fd == 0 ==> flushed == [] && wire == []) &&
      (fd != 0 ==> wire == [self] + Frames(flushed)) && flushed <= taken
    }

    /** Receiving: the fields stand for these bytes since the last whole message. */
    ghost predicate Stands(rest: Bytes)
      reads this
    {
      |size| == 4 &&
      (status == Header ==> read < 4 && rest == size[..read]) &&
      (status == Content ==>
        size[0] == 0 && length == LengthOf(size) && read == |recv| && rest == size + recv &&
        (read < length || (length == 0 && read == 0))) &&
      (status != Content ==> length == 0 && recv == []) && (status != Header && status != Content ==> read == 0)
    }

    constructor (id0: Byte, self0: Byte)
      ensures id == id0 && self == self0 && Sending() && Stands([]) && status == Wait && queue == null
      ensures taken == [] && inbox == []
    {
      id, self := id0, self0;
      fd, status, queue, length, read, size, recv := 0, Wait, null, 0, 0, [0, 0, 0, 0], [];
      taken, flushed, wire, inbox := [], [], [], [];
    }

    /** send_remote on this link. */
    method SendRemote(m: Msg)
      requires fd != 0 && wire == [self] + Frames(flushed)
      modifies this`wire, this`flushed
      ensures flushed == old(flushed) + [m] && wire == [self] + Frames(flushed)
      ensures wire == old(wire) + if Fits(m) then Framed(m) else []
    {
      hide Frames, Framed, Fits;
      FramesNext(flushed, m);
      assert [self] + Frames(flushed) + [] == [self] + Frames(flushed);
      assert [self] + (Frames(flushed) + Framed(m)) == [self] + Frames(flushed) + Framed(m);
      assert Frames(flushed) + [] == Frames(flushed);
      flushed := flushed + [m];
      if Fits(m) {
        wire := wire + Framed(m);
      }
    }

    /** dispatch_queue: what waits goes out in order. */
    method DispatchQueue()
      requires fd != 0 && (queue != null ==> queue.Valid()) && wire == [self] + Frames(flushed)
      modifies this, queue
      ensures queue == null && flushed == old(flushed) + old(Waiting()) && wire == [self] + Frames(flushed)
      ensures fd == old(fd) && status == old(status) && taken == old(taken) && inbox == old(inbox)
      ensures length == old(length) && read == old(read) && size == old(size) && recv == old(recv)
    {
      hide Frames, Framed, Fits, Ring;
      if queue == null {
        return;
      }
      var q := queue;
      ghost var total := flushed + q.Contents();
      var empty, m := q.Pop();
      while !empty
        invariant q == old(queue) && q.Valid() && q.data == old(queue.data) && queue == q
        invariant wire == [self] + Frames(flushed)
        invariant flushed + ((if empty then [] else [m]) + q.Contents()) == total
        invariant empty ==> q.Contents() == []
        invariant fd == old(fd) && status == old(status) && taken == old(taken) && inbox == old(inbox)
        invariant length == old(length) && read == old(read) && size == old(size) && recv == old(recv)
        decreases |q.Contents()|, if empty then 0 else 1
      {
        Moved(flushed, m, q.Contents());
        SendRemote(m);
        empty, m := q.Pop();
      }
      assert flushed + ([] + []) == flushed;
      queue := null;
    }

    /** remote_send_handle for another harbor: queued until the link is up, then sent; lost once it is down. */
    method SendHandle(m: Msg)
      requires Sending()
      modifies this, queue, if queue != null then {queue.data} else {}
      ensures Sending() && taken == old(taken) + [m] && fd == old(fd) && status == old(status)
      ensures queue == old(queue) || fresh(queue)
      ensures queue != null ==> fresh(queue.data) || (queue == old(queue) && queue.data == old(queue.data))
      ensures status != Down ==> flushed + Waiting() == old(flushed + Waiting()) + [m]
      ensures status == Down ==> flushed == old(flushed) && wire == old(wire)
      ensures inbox == old(inbox)
      ensures length == old(length) && read == old(read) && size == old(size) && recv == old(recv)
    {
      hide Frames, Framed, Fits, Ring;
      ghost var before := Waiting();
      taken := taken + [m];
      if fd == 0 || status == Handshake {
        if queue == null {
          queue := new MsgQueue();
        }
        queue.Push(m);
        assert Waiting() == before + [m];
        assert flushed + (before + [m]) == flushed + before + [m];
      } else if status != Down {
        assert flushed + [] == flushed;
        SendRemote(m);
        assert flushed + [] == flushed;
      }
    }

    /** The commands S and A of harbor_command: a connection we made, or one that was made to us. */
    method Connect(newfd: int, ours: bool)
      requires Sending() && newfd != 0
      modifies this, queue
      ensures Sending() && taken == old(taken) && inbox == old(inbox)
      ensures old(fd) != 0 ==> fd == old(fd) && status == old(status) && wire == old(wire) && queue == old(queue)
      ensures old(fd) == 0 ==> fd == newfd && status == (if ours then Handshake else Header)
      ensures queue != null ==> queue == old(queue) && queue.data == old(queue.data)
      ensures length == old(length) && read == old(read) && size == old(size) && recv == old(recv)
    {
      if fd != 0 {
        return;
      }
      fd, wire := newfd, [self];
      assert wire == [self] + Frames([]);
      if ours {
        status := Handshake;
      } else {
        status := Header;
        DispatchQueue();
      }
    }

    /** close_harbor */
    method Close()
      requires Sending() && fd != 0
      modifies this
      ensures Sending() && status == Down && queue == null && fd == old(fd) && taken == old(taken)
      ensures inbox == old(inbox) && wire == old(wire) && flushed == old(flushed) && Stands([])
    {
      status, queue := Down, null;
      length, read, size, recv := 0, 0, [0, 0, 0, 0], [];
    }

    /** forward_local_messsage */
    method Forward()
      requires length == |recv| >= CookieLength
      modifies this`inbox
      ensures inbox == old(inbox) + [MsgOf(recv)]
    {
      inbox := inbox + [MsgOf(recv)];
    }

    /**
     * push_socket_data on a link that is up: the messages that the bytes since the
     * last whole one and the chunk hold, the link closed where they say so.
     */
    method Receive(chunk: Bytes, ghost rest: Bytes) returns (out: Outcome)
      requires Sending() && Stands(rest) && (status == Header || status == Content)
      requires Unfinished(rest) && |chunk| > 0
      modifies this
      ensures Got(old(inbox), out, Unpack(rest + chunk))
      ensures out == Done ==> Sending() && taken == old(taken) && wire == old(wire) && fd == old(fd)
      ensures out == Done ==> flushed == old(flushed) && queue == null
    {
      hide Unpack, Frames, Ring, LengthOf, MsgOf;
      var buffer := chunk;
      ghost var raw, got: seq<Msg> := rest, [];
      UnpackIs(rest + chunk);
      while true
        invariant Sending() && Stands(raw) && (status == Header || status == Content) && Unfinished(raw)
        invariant taken == old(taken) && wire == old(wire) && fd == old(fd) && flushed == old(flushed)
        invariant inbox == old(inbox) + got
        invariant Unpack(rest + chunk) == Joined2(got, Unpack(raw + buffer))
        invariant |buffer| > 0
        decreases |buffer|
      {
        var left, go, result := TakeMessage(buffer, raw);
        if !go {
          return result;
        }
        got := got + [inbox[|inbox| - 1]];
        buffer, raw := left, [];
        assert raw + buffer == buffer;
        if buffer == [] {
          NothingIn();
          return Done;
        }
      }
    }

    /** As much of one message as the bytes hold. */
    method TakeMessage(buffer: Bytes, ghost raw: Bytes) returns (left: Bytes, go: bool, out: Outcome)
      requires Sending() && Stands(raw) && (status == Header || status == Content) && |buffer| > 0
      modifies this
      ensures out == Done ==> Sending() && taken == old(taken) && wire == old(wire) && fd == old(fd)
      ensures out == Done ==> flushed == old(flushed) && queue == null
      ensures go ==> out == Done && |left| < |buffer| && status == Header && Stands([]) && |inbox| == |old(inbox)| + 1
      ensures go ==> inbox == old(inbox) + [inbox[|inbox| - 1]]
      ensures go ==> Unpack(raw + buffer) == Joined2([inbox[|inbox| - 1]], Unpack(left))
      ensures !go ==> Unpack(raw + buffer).msgs == [] && Got(old(inbox), out, Unpack(raw + buffer))
    {
      hide Unpack, Frames, Ring, LengthOf, MsgOf, Sending, Stands, Unfinished, Joined2;
      left, go, out := buffer, true, Done;
      ghost var now := raw;
      if status == Header {
        left, go, now := TakeHeader(buffer, raw);
        if !go {
          return;
        }
      }
      left, go, out := TakeContent(left, now);
    }

    /** The bytes of the length. */
    method TakeHeader(buffer: Bytes, ghost raw: Bytes) returns (left: Bytes, go: bool, ghost now: Bytes)
      requires Sending() && Stands(raw) && status == Header && |buffer| > 0
      modifies this
      ensures Sending() && taken == old(taken) && wire == old(wire) && fd == old(fd) && flushed == old(flushed)
      ensures inbox == old(inbox) && queue == null
      ensures go ==> 0 < |left| < |buffer| && status == Content && read == 0 && Stands(now) && Unfinished(now)
      ensures go ==> now + left == raw + buffer
      ensures !go ==> Unpack(raw + buffer).msgs == [] && Got(old(inbox), Done, Unpack(raw + buffer))
    {
      hide Unpack, Frames, Ring, LengthOf, MsgOf;
      left, now, go := buffer, raw, false;
      var need := 4 - read;
      if |buffer| < need {
        size := size[..read] + buffer + size[read + |buffer|..];
        assert size[..read + |buffer|] == raw + buffer;
        read := read + |buffer|;
        StillHeader(raw + buffer);
        return;
      }
      size := size[..read] + buffer[..need];
      assert size == raw + buffer[..need] && raw + buffer == size + buffer[need..];
      left := buffer[need..];
      if size[0] != 0 {
        TooLongHere(size, left);
        Close();
        return;
      }
      now := size;
      length, read, recv, status := LengthOf(size), 0, [], Content;
      assert size + [] == size;
      FourOnly(size);
      if left == [] {
        assert raw + buffer == now;
        UnfinishedIs(now);
        return;
      }
      go := true;
    }

    /** The bytes of the content. */
    method TakeContent(buffer: Bytes, ghost raw: Bytes) returns (left: Bytes, go: bool, out: Outcome)
      requires Sending() && Stands(raw) && status == Content && |buffer| > 0
      modifies this
      ensures out == Done ==> Sending() && taken == old(taken) && wire == old(wire) && fd == old(fd)
      ensures out == Done ==> flushed == old(flushed) && queue == null
      ensures go ==> out == Done && |left| < |buffer| && status == Header && Stands([]) && |inbox| == |old(inbox)| + 1
      ensures go ==> inbox == old(inbox) + [inbox[|inbox| - 1]]
      ensures go ==> Unpack(raw + buffer) == Joined2([inbox[|inbox| - 1]], Unpack(left))
      ensures !go ==> Unpack(raw + buffer).msgs == [] && Got(old(inbox), out, Unpack(raw + buffer))
    {
      hide Unpack, Frames, Ring, LengthOf, MsgOf;
      left, go, out := buffer, false, Done;
      var need := length - read;
      if |buffer| < need {
        recv := recv + buffer;
        read := read + |buffer|;
        assert raw + buffer == size + recv;
        StillContent(size, recv);
        return;
      }
      recv := recv + buffer[..need];
      left := buffer[need..];
      assert raw + buffer == size + recv + left;
      ContentDone(size, recv, left);
      if length < CookieLength {
        out := ShortContent;
        return;
      }
      Forward();
      length, read, recv, status := 0, 0, [], Header;
      go := true;
    }

    /** push_socket_data: the first byte of a connection that we made is the number of the other side. */
    method Data(chunk: Bytes, ghost rest: Bytes) returns (out: Outcome)
      requires Sending() && Stands(rest) && |chunk| > 0
      requires status == Header || status == Content ==> Unfinished(rest)
      requires status == Handshake ==> rest == []
      modifies this, queue
      ensures old(status) == Wait || old(status) == Down ==>
        out == Done && status == old(status) && inbox == old(inbox) && wire == old(wire) && Stands(rest)
      ensures old(status) == Handshake && chunk[0] != id ==>
        out == Done && status == Down && inbox == old(inbox) && Stands([])
      ensures old(status) == Handshake && chunk[0] == id ==> Got(old(inbox), out, Unpack(chunk[1..]))
      ensures old(status) == Header || old(status) == Content ==> Got(old(inbox), out, Unpack(rest + chunk))
      ensures out == Done ==> Sending() && taken == old(taken) && fd == old(fd)
      ensures out == Done && (status == Header || status == Content) ==> flushed == taken
      ensures out == Done && queue != null ==> queue == old(queue) && queue.data == old(queue.data)
    {
      hide Unpack, Frames, Ring, LengthOf, MsgOf;
      match status {
        case Wait => return Done;
        case Down => return Done;
        case Handshake =>
          if chunk[0] != id {
            Close();
            return Done;
          }
          Greeted();
          NothingIn();
          if |chunk| == 1 {
            assert chunk[1..] == [];
            return Done;
          }
          assert [] + chunk[1..] == chunk[1..];
          out := Receive(chunk[1..], []);
        case Header => out := Receive(chunk, rest);
        case Content => out := Receive(chunk, rest);
      }
    }

    /** The other side is the one we expect: what waits goes out. */
    method Greeted()
      requires Sending() && Stands([]) && status == Handshake
      modifies this, queue
      ensures Sending() && Stands([]) && status == Header && queue == null && flushed == taken
      ensures fd == old(fd) && taken == old(taken) && inbox == old(inbox)
    {
      hide Frames, Ring, LengthOf;
      status := Header;
      DispatchQueue();
      assert flushed + [] == flushed;
    }

    /** What the bytes since the last whole message came to. */
    ghost predicate Got(before: seq<Msg>, out: Outcome, p: Parsed)
      reads this
    {
      inbox == before + p.msgs &&
      (p.end == Going ==> out == Done && Stands(p.rest) && (status == Header || status == Content)) &&
      (p.end == Closed ==> out == Done && status == Down && Stands([])) && (p.end == Broken <==> out == ShortContent)
    }
  }

  lemma Moved(a: seq<Msg>, m: Msg, b: seq<Msg>)
    ensures a + ([m] + b) == a + [m] + b && [] + b == b
  {
  }

  ghost function Joined2(got: seq<Msg>, p: Parsed): Parsed {
    Parsed(got + p.msgs, p.rest, p.end)
  }

  // ----------------------------------------------------------------------- runs

  /** What can happen to a link: a message by handle, a command, data from the socket. */
  datatype Op = Send(m: Msg) | Join(fd: int, ours: bool) | Chunk(bytes: Bytes)

  function Sent(ops: seq<Op>): seq<Msg> {
    if ops == [] then []
    else Sent(ops[..|ops| - 1]) + if ops[|ops| - 1].Send? then [ops[|ops| - 1].m] else []
  }

  lemma SentNext(ops: seq<Op>, i: nat)
    requires i < |ops|
    ensures Sent(ops[..i + 1]) == Sent(ops[..i]) + if ops[i].Send? then [ops[i].m] else []
  {
    assert ops[..i + 1][..i] == ops[..i];
  }

  /**
   * Any run of a link: the messages by handle reach it in the order in which they
   * were sent, whether they waited for the connection, for the handshake or for
   * nothing; none is missing or twice once the link is up.
   */
  method Drive(ops: seq<Op>, id: Byte, self: Byte) returns (l: Link, ok: bool)
    requires forall i :: 0 <= i < |ops| ==>
      (ops[i].Join? ==> ops[i].fd != 0) && (ops[i].Chunk? ==> |ops[i].bytes| > 0)
    ensures ok ==> l.Sending() && l.taken == Sent(ops) && l.flushed <= Sent(ops)
    ensures ok && l.fd != 0 ==> l.wire == [self] + Frames(l.flushed)
    ensures ok && (l.status == Header || l.status == Content) ==> l.flushed == Sent(ops)
  {
    hide Unpack, Frames, Ring, LengthOf, MsgOf, Sent;
    l := new Link(id, self);
    ghost var rest: Bytes := [];
    EmptyUnfinished();
    assert ops[..0] == [] && Sent([]) == [] by { NoneSent(); }
    for i := 0 to |ops|
      invariant fresh(l) && l.self == self && l.id == id && l.Sending() && l.taken == Sent(ops[..i])
      invariant l.queue != null ==> fresh(l.queue) && fresh(l.queue.data)
      invariant l.Stands(rest) && Unfinished(rest) && (l.status == Wait || l.status == Handshake ==> rest == [])
    {
      SentNext(ops, i);
      match ops[i] {
        case Send(m) => l.SendHandle(m);
        case Join(fd, ours) => l.Connect(fd, ours);
        case Chunk(bytes) =>
          ghost var all := if l.status == Handshake then bytes[1..] else rest + bytes;
          ghost var up := l.status == Handshake || l.status == Header || l.status == Content;
          StillUnfinished(all);
          var out := l.Data(bytes, rest);
          if out != Done {
            return l, false;
          }
          if up {
            rest := if l.status == Down then [] else Unpack(all).rest;
          }
      }
      assert Sent(ops[..i]) + [] == Sent(ops[..i]);
    }
    ok := true;
    assert ops[..|ops|] == ops;
    assert l.status == Header || l.status == Content ==> l.flushed + [] == l.flushed;
  }

  lemma NoneSent()
    ensures Sent([]) == []
  {
  }

  lemma UnpackIs(s: Bytes)
    ensures Unpack(s) == Joined2([], Unpack(s))
  {
    hide Unpack;
  }

  lemma FourOnly(s: Bytes)
    requires |s| == 4 && s[0] == 0
    ensures Unfinished(s)
  {
  }

  lemma UnfinishedIs(s: Bytes)
    requires Unfinished(s)
    ensures Unpack(s) == Parsed([], s, Going)
  {
  }

  lemma StillHeader(s: Bytes)
    requires |s| < 4
    ensures Unpack(s) == Parsed([], s, Going)
  {
  }

  lemma TooLongHere(size: Bytes, tail: Bytes)
    requires |size| == 4 && size[0] != 0
    ensures Unpack(size + tail) == Parsed([], [], Closed)
  {
    HeaderStays(size, tail);
  }

  lemma StillContent(size: Bytes, recv: Bytes)
    requires |size| == 4 && size[0] == 0 && |recv| < LengthOf(size)
    ensures Unpack(size + recv) == Parsed([], size + recv, Going) && Unfinished(size + recv)
  {
    HeaderStays(size, recv);
  }

  lemma ContentDone(size: Bytes, recv: Bytes, tail: Bytes)
    requires |size| == 4 && size[0] == 0 && |recv| == LengthOf(size) && (recv != [] || tail != [])
    ensures |recv| < CookieLength ==> Unpack(size + recv + tail) == Parsed([], [], Broken)
    ensures |recv| >= CookieLength ==>
      Unpack(size + recv + tail) == Joined2([MsgOf(recv)], Unpack(tail))
  {
    hide LengthOf, MsgOf;
    var s, n := size + recv + tail, |recv|;
    assert s == size + (recv + tail);
    HeaderStays(size, recv + tail);
    assert s[4..4 + n] == recv && s[4 + n..] == tail;
    if n >= CookieLength {
      UnpackFirst(s);
    }
  }

  /**
   * A link that is up and the stream of another harbor's link, however the socket
   * cuts it: exactly the messages that went in, in order, with their headers.
   */
  method Reassemble(l: Link, chunks: seq<Bytes>, ghost ms: seq<Msg>)
    requires l.Sending() && l.Stands([]) && l.status == Header
    requires forall i :: 0 <= i < |chunks| ==> |chunks[i]| > 0
    requires Joined(chunks) == Frames(ms) && forall i :: 0 <= i < |ms| ==> Small(ms[i])
    modifies l
    ensures l.inbox == old(l.inbox) + ms && l.Sending() && l.Stands([]) && l.status == Header
  {
    hide Unpack, UnpackAll, Frames, Ring, Unfinished, LengthOf;
    FramesBack(ms);
    NothingIn();
    AnyCutting([], chunks);
    assert [] + Joined(chunks) == Joined(chunks);
    ghost var rest: Bytes, got: seq<Msg> := [], [];
    EmptyUnfinished();
    var i := 0;
    assert chunks[0..] == chunks;
    while i < |chunks|
      invariant 0 <= i <= |chunks| && l.Sending() && l.Stands(rest) && (l.status == Header || l.status == Content)
      invariant Unfinished(rest) && l.inbox == old(l.inbox) + got
      invariant Joined2(got, UnpackAll(rest, chunks[i..])) == Parsed(ms, [], Going)
    {
      ghost var p := Unpack(rest + chunks[i]);
      NextChunk(rest, chunks, i, got, ms);
      var _ := l.Receive(chunks[i], rest);
      StillUnfinished(rest + chunks[i]);
      rest, got := p.rest, got + p.msgs;
      i := i + 1;
    }
    LastChunk(rest, chunks[i..]);
  }

  lemma NextChunk(rest: Bytes, chunks: seq<Bytes>, i: nat, got: seq<Msg>, ms: seq<Msg>)
    requires i < |chunks| && Joined2(got, UnpackAll(rest, chunks[i..])) == Parsed(ms, [], Going)
    ensures var p := Unpack(rest + chunks[i]);
      p.end == Going && Joined2(got + p.msgs, UnpackAll(p.rest, chunks[i + 1..])) == Parsed(ms, [], Going)
  {
    hide Unpack;
    assert chunks[i..][0] == chunks[i] && chunks[i..][1..] == chunks[i + 1..];
    var p := Unpack(rest + chunks[i]);
    var later := UnpackAll(p.rest, chunks[i + 1..]).msgs;
    assert got + (p.msgs + later) == got + p.msgs + later;
  }

  lemma {:induction false} StillUnfinished(s: Bytes)
    ensures Unpack(s).end == Going ==> Unfinished(Unpack(s).rest)
    decreases |s|
  {
    hide LengthOf, MsgOf;
    if !Unfinished(s) && s[0] == 0 && LengthOf(s) >= CookieLength {
      StillUnfinished(s[4 + LengthOf(s)..]);
    }
  }

  lemma EmptyUnfinished()
    ensures Unfinished([])
  {
  }

  lemma LastChunk(rest: Bytes, chunks: seq<Bytes>)
    requires chunks == []
    ensures UnpackAll(rest, chunks) == Parsed([], rest, Going)
  {
  }
}
