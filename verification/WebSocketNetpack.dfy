/**
 * Incremental deframing of lualib-src/lua-websocketnetpack.c: many
 * connections, each delivering its stream in chunks of any size.
 */
module WebSocketNetpack {
  import opened Basics
  import opened WebSocketFrames
  import opened WebSocketChunks
  import opened WebSocketLengths

  /** struct uncomplete: a header still short of bytes, or a payload being filled. */
  datatype Uncomplete =
    | Heading(header: Bytes)
    | Filling(size: nat, got: Bytes, mask: Bytes, hasunmask: nat)

  datatype Pack = Pack(id: int, data: Bytes)

  /** The record stands for what is kept of the stream. */
  ghost predicate Stands(u: Option<Uncomplete>, k: Kept) {
    match u
    case None => k == Fresh
    case Some(Heading(h)) => k == Part(h) && Short(ReadSize(h)) && |h| <= HeaderRoom
    case Some(Filling(size, got, mask, seen)) =>
      k.Part? &&
      var h, rest := ReadSize(k.rest), k.rest;
      h.Frame? && h.size == size && h.mask == mask && h.head <= |rest| <= h.head + size &&
      got == Unmask(rest[h.head..], mask, 0) && (|mask| == 4 ==> seen == |got|)
  }

  function Get(m: map<int, Uncomplete>, fd: int): Option<Uncomplete> {
    if fd in m then Some(m[fd]) else None
  }

  function Tagged(fd: int, ps: seq<Bytes>): seq<Pack> {
    seq(|ps|, i requires 0 <= i < |ps| => Pack(fd, ps[i]))
  }

  lemma TaggedAppend(fd: int, p: Bytes, ps: seq<Bytes>)
    ensures Tagged(fd, [p] + ps) == [Pack(fd, p)] + Tagged(fd, ps)
    ensures Tagged(fd, []) == [] && Tagged(fd, [p]) == [Pack(fd, p)]
  {
  }

  /** decode_wsmask_data */
  method DecodeMask(data: Bytes, mask: Bytes, hasunmask: nat) returns (out: Bytes, seen: nat)
    ensures out == Unmask(data, mask, hasunmask)
    ensures if |mask| == 4 then BitsDiffer(out, data, mask, hasunmask) else out == data
    ensures seen == if |mask| == 4 then hasunmask + |data| else hasunmask
  {
    hide Xor, MaskAt;
    if |mask| != 4 {
      return data, hasunmask;
    }
    out := [];
    for i := 0 to |data|
      invariant |out| == i && forall j :: 0 <= j < i ==> out[j] == Xor(data[j], MaskAt(mask, j + hasunmask))
    {
      out := out + [Xor(data[i], MaskAt(mask, i + hasunmask))];
    }
    seen := hasunmask + |data|;
    UnmaskBits(data, mask, hasunmask);
    hide BitsDiffer;
  }

  /** The loop of push_more, which skips every negative length but -1. */
  method SkipHeaders(s: Bytes) returns (r: Bytes, h: Header)
    ensures Whole(r) == Whole(s) && h == ReadSize(r) && (Short(h) || h.Frame?) && |r| <= |s|
  {
    r := s;
    h := ReadSize(r);
    hide ReadSize, Split, Behind;
    while h == Bad || h == TooLong || h == Negative
      invariant h == ReadSize(r) && Whole(r) == Whole(s) && |r| <= |s|
      decreases |r|
    {
      SkipSplit(r);
      r := r[2..];
      h := ReadSize(r);
    }
    ReadSizeShape(r);
  }

  // ----------------------------------------------------- completing a header

  lemma ResumeStep(h: Bytes, chunk: Bytes, index: nat)
    requires index < |chunk|
    ensures Resume(h, chunk[index..]) == GoOn(Dropped(h + [chunk[index]]), chunk[index + 1..])
  {
    hide ReadSize, Whole, Dropped;
    assert chunk[index..][0] == chunk[index] && chunk[index..][1..] == chunk[index + 1..];
  }

  /**
   * The loop of filter_data_ that adds one byte at a time to an unfinished
   * header; it fails past the end of the header or on a negative length.
   */
  method FillHeader(header0: Bytes, chunk: Bytes) returns (header: Bytes, index: nat, h: Header, ok: bool)
    requires |chunk| > 0 && Short(ReadSize(header0)) && |header0| <= HeaderRoom
    ensures !ok ==> Resume(header0, chunk) == Fed([], Failed)
    ensures ok ==> index <= |chunk| && h == ReadSize(header)
    ensures ok ==> (Short(h) && |header| <= HeaderRoom && index == |chunk|) || (h.Frame? && h.head <= |header|)
    ensures ok ==> Resume(header0, chunk) == GoOn(header, chunk[index..])
  {
    hide ReadSize, Resume, Dropped, Whole, GoOn;
    header, index, h := header0, 0, ReadSize(header0);
    assert chunk[0..] == chunk;
    GoOnCases(header, chunk);
    while index < |chunk| && Short(h)
      invariant index <= |chunk| && h == ReadSize(header)
      invariant (Short(h) && |header| <= HeaderRoom) || (h.Frame? && h.head <= |header|)
      invariant Resume(header0, chunk) == GoOn(header, chunk[index..])
      decreases |chunk| - index
    {
      GoOnCases(header, chunk[index..]);
      ResumeStep(header, chunk, index);
      header := header + [chunk[index]];
      index := index + 1;
      header := DropPairs(header);
      h := ReadSize(header);
      GoOnCases(header, chunk[index..]);
      if h == Negative || (Short(h) && |header| > HeaderRoom) {
        return header, index, h, false;
      }
    }
    ok := true;
  }

  /** Its inner loop, which filter_data_ has for a fresh chunk too. */
  method DropPairs(header0: Bytes) returns (header: Bytes)
    ensures header == Dropped(header0)
  {
    hide ReadSize;
    header := header0;
    var h := ReadSize(header);
    while h == Bad || h == TooLong
      invariant h == ReadSize(header) && Dropped(header) == Dropped(header0)
      decreases |header|
    {
      ReadSizeShape(header);
      header := header[2..];
      h := ReadSize(header);
    }
  }

  // ------------------------------------------------------------- the records

  /** A frame that has started: so much of its payload is here. */
  lemma StartFilling(s: Bytes, got: Bytes, seen: nat)
    requires ReadSize(s).Frame? && |s| < ReadSize(s).head + ReadSize(s).size
    requires ReadSize(s).head <= |s|
    requires got == Unmask(s[ReadSize(s).head..], ReadSize(s).mask, 0)
    requires |ReadSize(s).mask| == 4 ==> seen == |got|
    ensures Stands(Some(Filling(ReadSize(s).size, got, ReadSize(s).mask, seen)), Behind(s))
    ensures Split(s).payloads == [] && Behind(s) == Part(s)
  {
    OpenSplit(s);
  }

  /** More of the payload arrives, not yet all of it. */
  lemma MoreFilling(rest: Bytes, chunk: Bytes, u: Uncomplete, out: Bytes)
    requires u.Filling? && Stands(Some(u), Part(rest)) && |chunk| < u.size - |u.got|
    requires out == Unmask(chunk, u.mask, u.hasunmask)
    ensures var seen := if |u.mask| == 4 then u.hasunmask + |chunk| else u.hasunmask;
      Stands(Some(Filling(u.size, u.got + out, u.mask, seen)), Behind(rest + chunk))
    ensures Split(rest + chunk).payloads == [] && Behind(rest + chunk) == Part(rest + chunk)
  {
    hide ReadSize, Split, Unmask, Behind;
    var h, s := ReadSize(rest), rest + chunk;
    ReadSizeStable(rest, chunk);
    PayloadSoFar(rest, chunk, h.head, u);
    OpenSplit(s);
  }

  /** Unmasking in pieces, with the running offset, is unmasking the whole. */
  lemma PayloadSoFar(rest: Bytes, chunk: Bytes, head: nat, u: Uncomplete)
    requires u.Filling? && head <= |rest|
    requires u.got == Unmask(rest[head..], u.mask, 0) && (|u.mask| == 4 ==> u.hasunmask == |u.got|)
    ensures |u.got| == |rest| - head && |Unmask(chunk, u.mask, u.hasunmask)| == |chunk|
    ensures u.got + Unmask(chunk, u.mask, u.hasunmask) == Unmask((rest + chunk)[head..], u.mask, 0)
  {
    hide Unmask;
    UnmaskAt(rest[head..], u.mask, 0);
    UnmaskAt(chunk, u.mask, u.hasunmask);
    UnmaskAppend(rest[head..], chunk, u.mask, 0);
    assert (rest + chunk)[head..] == rest[head..] + chunk;
    OffsetIrrelevant(chunk, u.mask, u.hasunmask, |rest[head..]|);
  }

  lemma OffsetIrrelevant(data: Bytes, mask: Bytes, a: nat, b: nat)
    requires |mask| == 4 ==> a == b
    ensures Unmask(data, mask, a) == Unmask(data, mask, b)
  {
  }

  /** The last byte of the payload arrives: the package is complete, what follows is a new stream. */
  lemma Completed(rest: Bytes, chunk: Bytes, u: Uncomplete, need: nat)
    requires u.Filling? && Stands(Some(u), Part(rest)) && need == u.size - |u.got| <= |chunk|
    ensures Split(rest + chunk).payloads ==
      [u.got + Unmask(chunk[..need], u.mask, u.hasunmask)] + Split(chunk[need..]).payloads
    ensures Behind(rest + chunk) == if need == |chunk| then Fresh else Behind(chunk[need..])
  {
    hide ReadSize, Split, Unmask, Behind;
    var h, more := ReadSize(rest), chunk[..need];
    ReadSizeStable(rest, chunk);
    PayloadSoFar(rest, more, h.head, u);
    CutAt(rest, chunk, h.head, need);
    hide Stands;
    FirstFrame(rest + chunk, h, |rest| + need);
  }

  lemma FirstFrame(s: Bytes, h: Header, n: nat)
    requires ReadSize(s) == h && h.Frame? && n == h.head + h.size && n <= |s|
    ensures Split(s).payloads == [Unmask(s[h.head..n], h.mask, 0)] + Split(s[n..]).payloads
    ensures Behind(s) == if |s| == n then Fresh else Behind(s[n..])
  {
    hide ReadSize, Split, Unmask, Behind;
    SplitFrame(s, h.head, h.size, h.mask);
    BehindFrame(s);
  }

  lemma CutAt(rest: Bytes, chunk: Bytes, head: nat, need: nat)
    requires head <= |rest| && need <= |chunk|
    ensures (rest + chunk)[|rest| + need..] == chunk[need..]
    ensures (rest + chunk)[head..|rest| + need] == (rest + chunk[..need])[head..]
  {
  }

  /** A record made from a header stands for the header alone. */
  lemma HeaderDone(header: Bytes, h: Header)
    requires h == ReadSize(header) && h.Frame? && h.head <= |header|
    ensures Stands(Some(Filling(h.size, [], h.mask, 0)), Part(header[..h.head]))
  {
    HeaderAlone(header);
    hide ReadSize;
    var s := header[..h.head];
    assert s[h.head..] == [];
  }

  class Netpack {
    var pending: map<int, Uncomplete>
    var queue: seq<Pack>

    constructor ()
      ensures pending == map[] && queue == []
    {
      pending, queue := map[], [];
    }

    /** push_more: every whole frame of the buffer is queued, the rest is kept if there is room. */
    method PushMore(fd: int, buffer: Bytes) returns (ok: bool)
      requires fd !in pending
      modifies this
      ensures ok <==> Behind(buffer) != Failed
      ensures ok ==> queue == old(queue) + Tagged(fd, Split(buffer).payloads)
      ensures ok ==> Stands(Get(pending, fd), Behind(buffer))
      ensures forall k :: k != fd ==> Get(pending, k) == old(Get(pending, k))
      decreases |buffer|
    {
      hide ReadSize, Split, Unmask, Stands, Tagged, Behind;
      var b, h := SkipHeaders(buffer);
      ReadSizeShape(b);
      TaggedAppend(fd, [], []);
      if Short(h) {
        ShortBehind(b);
        if |b| > HeaderRoom {
          return false;
        }
        HeadingStands(b);
        pending := pending[fd := Heading(b)];
        return true;
      }
      if |b| - h.head < h.size {
        var got, seen := DecodeMask(b[h.head..], h.mask, 0);
        UnmaskAt(b[h.head..], h.mask, 0);
        StartFilling(b, got, seen);
        pending := pending[fd := Filling(h.size, got, h.mask, seen)];
        return true;
      }
      var n := h.head + h.size;
      var payload, _ := DecodeMask(b[h.head..n], h.mask, 0);
      SplitFrame(b, h.head, h.size, h.mask);
      BehindFrame(b);
      TaggedAppend(fd, payload, Split(b[n..]).payloads);
      queue := queue + [Pack(fd, payload)];
      if |b| > n {
        ok := PushMore(fd, b[n..]);
      } else {
        EmptySplit();
        NoneStands();
        assert b[n..] == [];
        ok := true;
      }
    }

    /**
     * filter_data_ for a connection that has shaken hands: the payloads that the
     * chunk completes, and what is kept, as the rules for chunks say; or failure
     * where they say so.
     */
    method Filter(fd: int, chunk: Bytes, ghost kept: Kept) returns (direct: Option<Bytes>, ok: bool)
      requires |chunk| > 0 && Stands(Get(pending, fd), kept)
      modifies this
      ensures ok <==> Feed(kept, chunk).kept != Failed
      ensures ok ==> Stands(Get(pending, fd), Feed(kept, chunk).kept)
      ensures ok && direct.None? ==> queue == old(queue) + Tagged(fd, Feed(kept, chunk).payloads)
      ensures ok && direct.Some? ==> queue == old(queue) && Feed(kept, chunk).payloads == [direct.value]
      ensures forall k :: k != fd ==> Get(pending, k) == old(Get(pending, k))
    {
      hide ReadSize, Split, Unmask, Tagged, Resume, Behind;
      TaggedAppend(fd, [], []);
      if fd in pending {
        var u := pending[fd];
        pending := pending - {fd};
        var buffer := chunk;
        ghost var sofar := kept.rest;
        if u.Heading? {
          var header, index, h, good := FillHeader(u.header, chunk);
          if !good {
            return None, false;
          }
          buffer := chunk[index..];
          if Short(h) {
            NothingLeft(header);
            assert chunk[index..] == [];
            pending := pending[fd := Heading(header)];
            return None, true;
          }
          HeaderDone(header, h);
          u, sofar := Filling(h.size, [], h.mask, 0), header[..h.head];
        }
        assert Feed(kept, chunk) == Whole(sofar + buffer);
        hide Stands, Feed;
        direct, ok := Fill(fd, u, buffer, sofar);
      } else {
        direct, ok := FilterFresh(fd, chunk);
      }
    }

    /** The part of filter_data_ that continues a payload. */
    method Fill(fd: int, u: Uncomplete, chunk: Bytes, ghost rest: Bytes) returns (direct: Option<Bytes>, ok: bool)
      requires fd !in pending && u.Filling? && Stands(Some(u), Part(rest))
      modifies this
      ensures ok <==> Behind(rest + chunk) != Failed
      ensures ok ==> Stands(Get(pending, fd), Behind(rest + chunk))
      ensures ok && direct.None? ==> queue == old(queue) + Tagged(fd, Split(rest + chunk).payloads)
      ensures ok && direct.Some? ==> queue == old(queue) && Split(rest + chunk).payloads == [direct.value]
      ensures forall k :: k != fd ==> Get(pending, k) == old(Get(pending, k))
    {
      hide ReadSize, Split, Unmask, Stands, Tagged, Behind;
      GotWithin(u, rest);
      TaggedAppend(fd, [], []);
      var need := u.size - |u.got|;
      if |chunk| < need {
        var more, seen := DecodeMask(chunk, u.mask, u.hasunmask);
        MoreFilling(rest, chunk, u, more);
        pending := pending[fd := Filling(u.size, u.got + more, u.mask, seen)];
        return None, true;
      }
      var last, _ := DecodeMask(chunk[..need], u.mask, u.hasunmask);
      var payload := u.got + last;
      Completed(rest, chunk, u, need);
      if |chunk| == need {
        EmptySplit();
        NoneStands();
        assert chunk[need..] == [];
        return Some(payload), true;
      }
      TaggedAppend(fd, payload, Split(chunk[need..]).payloads);
      queue := queue + [Pack(fd, payload)];
      ok := PushMore(fd, chunk[need..]);
      direct := None;
    }

    /** The part of filter_data_ for a connection with nothing kept. */
    method FilterFresh(fd: int, chunk: Bytes) returns (direct: Option<Bytes>, ok: bool)
      requires fd !in pending
      modifies this
      ensures ok <==> Top(chunk).kept != Failed
      ensures ok ==> Stands(Get(pending, fd), Top(chunk).kept)
      ensures ok && direct.None? ==> queue == old(queue) + Tagged(fd, Top(chunk).payloads)
      ensures ok && direct.Some? ==> queue == old(queue) && Top(chunk).payloads == [direct.value]
      ensures forall k :: k != fd ==> Get(pending, k) == old(Get(pending, k))
    {
      hide ReadSize, Split, Unmask, Stands, Tagged, Behind, Dropped;
      var b := DropPairs(chunk);
      var h := ReadSize(b);
      if h == Negative {
        return None, false;
      }
      DroppedWhole(chunk);
      if h.Frame? && |b| == h.head + h.size {
        var payload, _ := DecodeMask(b[h.head..], h.mask, 0);
        SplitFrame(b, h.head, h.size, h.mask);
        BehindFrame(b);
        EmptySplit();
        NoneStands();
        assert b[h.head + h.size..] == [] && b[h.head..h.head + h.size] == b[h.head..];
        return Some(payload), true;
      }
      ok := PushMore(fd, b);
      direct := None;
    }
  }

  lemma DroppedWhole(s: Bytes)
    ensures Whole(Dropped(s)) == Whole(s)
  {
    hide Split, Behind, Dropped;
    DroppedSplit(s, []);
    assert s + [] == s && Dropped(s) + [] == Dropped(s);
  }

  lemma ShortBehind(s: Bytes)
    requires Short(ReadSize(s))
    ensures Split(s) == Cut([], s) && Behind(s) == if |s| <= HeaderRoom then Part(s) else Failed
  {
  }

  lemma NothingLeft(h: Bytes)
    ensures Resume(h, []) == Fed([], Part(h))
  {
  }

  lemma HeadingStands(b: Bytes)
    requires Short(ReadSize(b)) && |b| <= HeaderRoom
    ensures Stands(Some(Heading(b)), Part(b))
  {
  }

  lemma NoneStands()
    ensures Stands(None, Fresh)
  {
  }

  lemma GotWithin(u: Uncomplete, rest: Bytes)
    requires u.Filling? && Stands(Some(u), Part(rest))
    ensures |u.got| <= u.size
  {
    UnmaskAt(rest[ReadSize(rest).head..], u.mask, 0);
  }

  // ----------------------------------------------------------------- all runs

  datatype Event = Event(fd: int, chunk: Bytes)

  /** The chunks of one connection. */
  function Chunks(es: seq<Event>, fd: int): seq<Bytes> {
    if es == [] then []
    else Chunks(es[..|es| - 1], fd) + if es[|es| - 1].fd == fd then [es[|es| - 1].chunk] else []
  }

  /** The payloads delivered for one connection. */
  function Of(log: seq<Pack>, fd: int): seq<Bytes> {
    if log == [] then []
    else Of(log[..|log| - 1], fd) + if log[|log| - 1].id == fd then [log[|log| - 1].data] else []
  }

  lemma OfOne(log: seq<Pack>, p: Pack, fd: int)
    ensures Of(log + [p], fd) == Of(log, fd) + if p.id == fd then [p.data] else []
  {
    assert (log + [p])[..|log|] == log;
  }

  lemma {:induction false} OfTagged(log: seq<Pack>, id: int, ps: seq<Bytes>, fd: int)
    ensures Of(log + Tagged(id, ps), fd) == Of(log, fd) + if id == fd then ps else []
    decreases |ps|
  {
    hide Of;
    if ps == [] {
      assert log + Tagged(id, ps) == log;
    } else {
      var p, tail := ps[0], ps[1..];
      assert ps == [p] + tail;
      TaggedAppend(id, p, tail);
      OfOne(log, Pack(id, p), fd);
      OfTagged(log + [Pack(id, p)], id, tail, fd);
      hide Tagged;
      assert log + ([Pack(id, p)] + Tagged(id, tail)) == log + [Pack(id, p)] + Tagged(id, tail);
    }
  }

  lemma {:induction false} FeedOneMore(k: Kept, chunks: seq<Bytes>, c: Bytes)
    ensures var f := FeedAll(k, chunks);
      FeedAll(k, chunks + [c]) == Fed(f.payloads + Feed(f.kept, c).payloads, Feed(f.kept, c).kept)
    decreases |chunks|
  {
    hide Feed;
    if chunks == [] {
      LastChunk(k, c);
    } else {
      assert (chunks + [c])[1..] == chunks[1..] + [c];
      FeedOneMore(Feed(k, chunks[0]).kept, chunks[1..], c);
    }
  }

  lemma ChunksNext(es: seq<Event>, i: nat, fd: int)
    requires i < |es|
    ensures Chunks(es[..i + 1], fd) == Chunks(es[..i], fd) + if es[i].fd == fd then [es[i].chunk] else []
  {
    assert es[..i + 1][..i] == es[..i];
  }

  /** What is known about one connection after the first `i` events. */
  ghost predicate InStep(es: seq<Event>, i: nat, fd: int, u: Option<Uncomplete>, log: seq<Pack>)
    requires i <= |es|
  {
    var f := FeedAll(Fresh, Chunks(es[..i], fd));
    Of(log, fd) == f.payloads && Stands(u, f.kept)
  }

  lemma Advance(es: seq<Event>, i: nat, fd: int, u: Option<Uncomplete>, u': Option<Uncomplete>, log: seq<Pack>)
    requires i < |es| && InStep(es, i, fd, u, log)
    requires es[i].fd != fd ==> u' == u
    requires es[i].fd == fd ==> Stands(u', Feed(FeedAll(Fresh, Chunks(es[..i], fd)).kept, es[i].chunk).kept)
    ensures var ps := Feed(FeedAll(Fresh, Chunks(es[..i], es[i].fd)).kept, es[i].chunk).payloads;
      InStep(es, i + 1, fd, u', log + Tagged(es[i].fd, ps))
  {
    hide Feed, Stands, Chunks, Tagged, FeedAll;
    var ps := Feed(FeedAll(Fresh, Chunks(es[..i], es[i].fd)).kept, es[i].chunk).payloads;
    ChunksNext(es, i, fd);
    OfTagged(log, es[i].fd, ps, fd);
    if es[i].fd == fd {
      FeedOneMore(Fresh, Chunks(es[..i], fd), es[i].chunk);
    } else {
      assert Chunks(es[..i], fd) + [] == Chunks(es[..i], fd);
      assert Of(log, fd) + [] == Of(log, fd);
    }
  }

  /** Nothing leads out of failure. */
  lemma {:induction false} StaysFailed(chunks: seq<Bytes>)
    ensures FeedAll(Failed, chunks).kept == Failed
    decreases |chunks|
  {
    if chunks != [] {
      StaysFailed(chunks[1..]);
    }
  }

  lemma {:induction false} FailedOnce(k: Kept, chunks: seq<Bytes>, later: seq<Bytes>)
    requires FeedAll(k, chunks).kept == Failed
    ensures FeedAll(k, chunks + later).kept == Failed
    decreases |chunks|
  {
    hide Feed;
    if chunks == [] {
      StaysFailed(later);
      assert chunks + later == later;
    } else {
      assert (chunks + later)[1..] == chunks[1..] + later;
      FailedOnce(Feed(k, chunks[0]).kept, chunks[1..], later);
    }
  }

  lemma {:induction false} ChunksFrom(es: seq<Event>, i: nat, fd: int) returns (later: seq<Bytes>)
    requires i <= |es|
    ensures Chunks(es, fd) == Chunks(es[..i], fd) + later
    decreases |es| - i
  {
    if i == |es| {
      assert es[..i] == es;
      later := [];
    } else {
      var rest := ChunksFrom(es, i + 1, fd);
      ChunksNext(es, i, fd);
      later := (if es[i].fd == fd then [es[i].chunk] else []) + rest;
    }
  }

  /** No connection fails. */
  ghost predicate Survives(es: seq<Event>) {
    forall fd :: FeedAll(Fresh, Chunks(es, fd)).kept != Failed
  }

  lemma Fatal(es: seq<Event>, i: nat)
    requires i < |es| && Feed(FeedAll(Fresh, Chunks(es[..i], es[i].fd)).kept, es[i].chunk).kept == Failed
    ensures !Survives(es)
  {
    hide Feed, FeedAll, Chunks;
    var fd := es[i].fd;
    ChunksNext(es, i, fd);
    FeedOneMore(Fresh, Chunks(es[..i], fd), es[i].chunk);
    var later := ChunksFrom(es, i + 1, fd);
    FailedOnce(Fresh, Chunks(es[..i + 1], fd), later);
  }

  /**
   * Any number of connections, any interleaving, any way of cutting their
   * streams into chunks: it fails exactly when some connection does; otherwise
   * each connection gets what the rules for its own chunks say, and the payloads
   * of its whole stream if that is exact.
   */
  method Run(es: seq<Event>) returns (log: seq<Pack>, ok: bool)
    requires forall i :: 0 <= i < |es| ==> |es[i].chunk| > 0
    ensures ok <==> Survives(es)
    ensures ok ==> forall fd :: Of(log, fd) == FeedAll(Fresh, Chunks(es, fd)).payloads
    ensures ok ==> forall fd :: Exact(Joined(Chunks(es, fd))) ==> Of(log, fd) == Split(Joined(Chunks(es, fd))).payloads
  {
    hide Feed, Stands, Chunks, Tagged, Of, FeedAll, Exact, Joined, Split, Survives;
    var np := new Netpack();
    log := [];
    RunStart(es);
    assert forall fd :: Get(np.pending, fd) == None;
    for i := 0 to |es|
      invariant np.queue == []
      invariant forall fd :: InStep(es, i, fd, Get(np.pending, fd), log)
    {
      ghost var before, log0 := np.pending, log;
      var id := es[i].fd;
      ghost var kept := FeedAll(Fresh, Chunks(es[..i], id)).kept;
      ghost var ps := Feed(kept, es[i].chunk).payloads;
      assert InStep(es, i, id, Get(np.pending, id), log);
      var direct, good := np.Filter(id, es[i].chunk, kept);
      if !good {
        Fatal(es, i);
        return log, false;
      }
      if direct.Some? {
        TaggedAppend(id, direct.value, []);
        log := log + [Pack(id, direct.value)];
      } else {
        assert [] + Tagged(id, ps) == Tagged(id, ps);
        log := log + np.queue;
        np.queue := [];
      }
      assert log == log0 + Tagged(id, ps);
      forall fd
        ensures InStep(es, i + 1, fd, Get(np.pending, fd), log)
      {
        assert InStep(es, i, fd, Get(before, fd), log0);
        Advance(es, i, fd, Get(before, fd), Get(np.pending, fd), log0);
      }
    }
    ok := true;
    assert es[..|es|] == es;
    forall fd
      ensures Of(log, fd) == FeedAll(Fresh, Chunks(es, fd)).payloads
      ensures Exact(Joined(Chunks(es, fd))) ==> Of(log, fd) == Split(Joined(Chunks(es, fd))).payloads
    {
      assert InStep(es, |es|, fd, Get(np.pending, fd), log);
      CutAnyway(Chunks(es, fd));
    }
    AllStand(es, np.pending, log);
  }

  lemma AllStand(es: seq<Event>, pending: map<int, Uncomplete>, log: seq<Pack>)
    requires forall fd :: InStep(es, |es|, fd, Get(pending, fd), log)
    ensures Survives(es)
  {
    hide FeedAll, Chunks, Of;
    assert es[..|es|] == es;
    forall fd
      ensures FeedAll(Fresh, Chunks(es, fd)).kept != Failed
    {
      assert InStep(es, |es|, fd, Get(pending, fd), log);
    }
  }

  /** Connections whose streams are all exact, or all plain, survive. */
  lemma NobodyFails(es: seq<Event>)
    requires forall fd :: Exact(Joined(Chunks(es, fd))) || Plain(Joined(Chunks(es, fd)))
    ensures Survives(es)
  {
    hide FeedAll, Chunks, Exact, Plain, Joined;
    forall fd
      ensures FeedAll(Fresh, Chunks(es, fd)).kept != Failed
    {
      var cs := Chunks(es, fd);
      if Plain(Joined(cs)) {
        PlainNeverFails(cs);
      } else {
        CuttingExact(Joined(cs));
        assert Agrees(FeedAll(Fresh, cs), Joined(cs));
      }
    }
  }

  lemma CutAnyway(chunks: seq<Bytes>)
    ensures Exact(Joined(chunks)) ==> FeedAll(Fresh, chunks).payloads == Split(Joined(chunks)).payloads
  {
    hide Exact, FeedAll, Split, Joined;
    CuttingExact(Joined(chunks));
    assert Exact(Joined(chunks)) ==> Agrees(FeedAll(Fresh, chunks), Joined(chunks));
  }

  lemma RunStart(es: seq<Event>)
    ensures forall fd :: InStep(es, 0, fd, None, [])
  {
    forall fd
      ensures InStep(es, 0, fd, None, [])
    {
      assert es[..0] == [];
    }
  }
}
