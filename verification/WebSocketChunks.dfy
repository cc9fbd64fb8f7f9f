/**
 * What filter_data_ of lualib-src/lua-websocketnetpack.c makes of a stream
 * that arrives in chunks, on the raw bytes: a chunk with nothing kept is read
 * whole, an unfinished header is resumed byte by byte. Shows exactly for which
 * streams the cutting into chunks does not matter.
 */
module WebSocketChunks {
  import opened Basics
  import opened WebSocketFrames

  /** HEADERSIZE: the bytes that a record has for an unfinished header. */
  const HeaderRoom: int := 1024

  /**
   * What is kept between two chunks: no record, or one that stands for these
   * bytes. Failed is where the model ends: the source writes past the header of
   * a record, or asks for a negative number of bytes of memory.
   */
  datatype Kept = Fresh | Part(rest: Bytes) | Failed

  datatype Fed = Fed(payloads: seq<Bytes>, kept: Kept)

  function Rest(k: Kept): Bytes {
    match k
    case Fresh => []
    case Part(rest) => rest
    case Failed => []
  }

  /** A header that stays in the record. */
  predicate Short(h: Header) {
    h == TooShort || h == Stuck
  }

  /** A record for an unfinished header. */
  function Keep(s: Bytes): Kept {
    if |s| <= HeaderRoom then Part(s) else Failed
  }

  // ------------------------------------------------------------ read at once

  /** What push_more leaves: a record, unless the bytes end with a payload. */
  function Behind(s: Bytes): Kept
    decreases |s|
  {
    match ReadSize(s)
    case TooShort => Keep(s)
    case Stuck => Keep(s)
    case Bad => ReadSizeShape(s); Behind(s[2..])
    case TooLong => ReadSizeShape(s); Behind(s[2..])
    case Negative => ReadSizeShape(s); Behind(s[2..])
    case Frame(head, size, _) =>
      ReadSizeShape(s);
      if |s| < head + size then Part(s)
      else if |s| == head + size then Fresh
      else Behind(s[head + size..])
  }

  function Whole(s: Bytes): Fed {
    Fed(Split(s).payloads, Behind(s))
  }

  lemma {:induction false} BehindRest(s: Bytes)
    ensures Behind(s) != Failed ==> Rest(Behind(s)) == Split(s).rest
    ensures Behind(s) == Failed ==> ReadSize(Split(s).rest) == Stuck && |Split(s).rest| > HeaderRoom
    decreases |s|
  {
    hide ReadSize, Unmask;
    ReadSizeShape(s);
    match ReadSize(s)
    case TooShort => ShortFits(s);
    case Stuck =>
    case Bad => BehindRest(s[2..]);
    case TooLong => BehindRest(s[2..]);
    case Negative => BehindRest(s[2..]);
    case Frame(head, size, mask) =>
      if |s| >= head + size {
        BehindRest(s[head + size..]);
        if |s| == head + size {
          EmptySplit();
        }
      }
  }

  /** A header that is short of bytes fits the record. */
  lemma ShortFits(s: Bytes)
    requires ReadSize(s) == TooShort
    ensures |s| < 14 && Keep(s) == Part(s)
  {
  }

  lemma EmptySplit()
    ensures Split([]) == Cut([], [])
  {
    ReadSizeShape([]);
  }

  // ----------------------------------------------------------------- resumed

  /** filter_data_ drops two bytes at a time until a header is neither bad nor over the limit. */
  function Dropped(s: Bytes): (r: Bytes)
    ensures Short(ReadSize(r)) || ReadSize(r) == Negative || (ReadSize(r).Frame? && ReadSize(r).head <= |r|)
    ensures |r| <= |s| && r == s[|s| - |r|..]
    decreases |s|
  {
    ReadSizeShape(s);
    if ReadSize(s) == Bad || ReadSize(s) == TooLong then Dropped(s[2..]) else s
  }

  /**
   * The unfinished header takes one byte after the other. When it becomes a
   * frame, only its head is remembered, whatever is kept behind it.
   */
  function Resume(h: Bytes, chunk: Bytes): Fed
    decreases |chunk|, 0
  {
    if chunk == [] then Fed([], Part(h))
    else
      GoOn(Dropped(h + [chunk[0]]), chunk[1..])
  }

  /** What is remembered of a complete header. */
  function HeadOf(g: Bytes): Bytes {
    if ReadSize(g).Frame? && ReadSize(g).head <= |g| then g[..ReadSize(g).head] else g
  }

  /** With g as header and the rest of the chunk. */
  function GoOn(g: Bytes, later: Bytes): Fed
    decreases |later|, 1
  {
    if ReadSize(g).Frame? then Whole(HeadOf(g) + later)
    else if Short(ReadSize(g)) && |g| <= HeaderRoom then Resume(g, later)
    else Fed([], Failed)
  }

  /** The first header of a chunk is read by filter_data_, those behind its frame by push_more. */
  function Top(chunk: Bytes): Fed {
    if ReadSize(Dropped(chunk)) == Negative then Fed([], Failed) else Whole(chunk)
  }

  /** One chunk. */
  function Feed(k: Kept, chunk: Bytes): Fed {
    match k
    case Fresh => Top(chunk)
    case Part(rest) => if Short(ReadSize(rest)) then Resume(rest, chunk) else Whole(rest + chunk)
    case Failed => Fed([], Failed)
  }

  function FeedAll(k: Kept, chunks: seq<Bytes>): Fed
    decreases |chunks|
  {
    if chunks == [] then Fed([], k)
    else
      var first := Feed(k, chunks[0]);
      var later := FeedAll(first.kept, chunks[1..]);
      Fed(first.payloads + later.payloads, later.kept)
  }

  function Joined(chunks: seq<Bytes>): Bytes {
    if chunks == [] then [] else chunks[0] + Joined(chunks[1..])
  }

  // --------------------------------------------------------------- the condition

  /** Where the header ends. */
  function HeadEnd(s: Bytes): nat
    requires |s| >= 2
  {
    LengthEnd(s[1] % 128) + if s[1] / 128 == 1 then 4 else 0
  }

  lemma HeadEndShape(s: Bytes)
    requires ReadSize(s) == TooLong
    ensures |s| >= 2 && 2 <= HeadEnd(s) <= |s|
  {
  }

  /**
   * A condition on the headers of a stream. None has a negative length, except
   * that at most 1024 bytes may begin with a length of -1. One over the limit,
   * its pairs dropped, leaves no frame with more bytes than its head; or that
   * frame is empty and those bytes drop as well.
   */
  predicate Exact(s: Bytes)
    decreases |s|, 0
  {
    match ReadSize(s)
    case TooShort => true
    case Stuck => |s| <= HeaderRoom
    case Negative => false
    case Bad => ReadSizeShape(s); Exact(s[2..])
    case Frame(head, size, _) => ReadSizeShape(s); |s| < head + size || Exact(s[head + size..])
    case TooLong => HeadEndShape(s); OverOk(Dropped(s[2..HeadEnd(s)]), s[HeadEnd(s)..])
  }

  /** The condition at a header over the limit: g is left of it, x follows. */
  predicate OverOk(g: Bytes, x: Bytes)
    decreases |g| + |x|, 1
  {
    var r := ReadSize(g);
    if !r.Frame? || r.head >= |g| then Exact(g + x)
    else r.size == 0 && Split(g[r.head..]) == Cut([], []) && Exact(x)
  }

  // ------------------------------------------------------------ small steps

  /** A header that one byte decides ends with that byte. */
  lemma HeaderStep(h: Bytes, c: Byte)
    requires ReadSize(h) == TooShort
    ensures ReadSize(h + [c]) == Bad ==> |h| == 1
    ensures ReadSize(h + [c]).Frame? ==> ReadSize(h + [c]).head == |h| + 1
    ensures ReadSize(h + [c]) == TooLong ==> |h| >= 1 && HeadEnd(h + [c]) == |h| + 1
  {
    var s := h + [c];
    if |h| >= 2 {
      assert s[0] == h[0] && s[1] == h[1];
    }
  }

  lemma Skip(s: Bytes, x: Bytes)
    requires ReadSize(s) == Bad || ReadSize(s) == TooLong
    ensures |s| >= 2 && Split(s + x) == Split(s[2..] + x) && Behind(s + x) == Behind(s[2..] + x)
    ensures Dropped(s) == Dropped(s[2..])
  {
    ReadSizeShape(s);
    ReadSizeStable(s, x);
    assert (s + x)[2..] == s[2..] + x;
  }

  lemma SkipSplit(s: Bytes)
    requires ReadSize(s) == Bad || ReadSize(s) == TooLong || ReadSize(s) == Negative
    ensures |s| >= 2 && Split(s) == Split(s[2..]) && Behind(s) == Behind(s[2..])
  {
    ReadSizeShape(s);
  }

  /** Dropped pairs do not show in the result. */
  lemma {:induction false} DroppedSplit(s: Bytes, x: Bytes)
    ensures Split(s + x) == Split(Dropped(s) + x) && Behind(s + x) == Behind(Dropped(s) + x)
    decreases |s|
  {
    hide ReadSize, Split, Behind;
    ReadSizeShape(s);
    if ReadSize(s) == Bad || ReadSize(s) == TooLong {
      Skip(s, x);
      DroppedSplit(s[2..], x);
    }
  }

  lemma StepAppend(g: Bytes, c: Byte, x: Bytes)
    ensures g + ([c] + x) == g + [c] + x
  {
  }

  /** The frame at the front is incomplete, or a header is. */
  predicate Unfinished(s: Bytes) {
    Short(ReadSize(s)) || (ReadSize(s).Frame? && |s| < ReadSize(s).head + ReadSize(s).size)
  }

  /** And there is room for it. */
  predicate Open(s: Bytes) {
    Unfinished(s) && (ReadSize(s) == Stuck ==> |s| <= HeaderRoom)
  }

  lemma OpenSplit(s: Bytes)
    requires Open(s)
    ensures Split(s) == Cut([], s) && Whole(s) == Fed([], Part(s)) && Exact(s)
  {
  }

  lemma {:induction false} RestUnfinished(s: Bytes)
    ensures Unfinished(Split(s).rest)
    decreases |s|
  {
    hide ReadSize, Unmask;
    ReadSizeShape(s);
    match ReadSize(s)
    case TooShort =>
    case Stuck =>
    case Bad => RestUnfinished(s[2..]);
    case TooLong => RestUnfinished(s[2..]);
    case Negative => RestUnfinished(s[2..]);
    case Frame(head, size, mask) =>
      if |s| >= head + size {
        RestUnfinished(s[head + size..]);
      }
  }

  /** What is left over of an exact stream has room. */
  lemma RestOpen(s: Bytes, future: Bytes)
    requires Exact(Split(s).rest + future)
    ensures Open(Split(s).rest)
  {
    RestUnfinished(s);
    var r := Split(s).rest;
    if ReadSize(r) == Stuck {
      ReadSizeStable(r, future);
    }
  }

  /** An empty frame with x behind its head. */
  lemma EmptyFrame(k: Bytes, x: Bytes)
    requires ReadSize(k).Frame? && ReadSize(k).size == 0 && ReadSize(k).head == |k|
    ensures Split(k + x) == Cut([[]] + Split(x).payloads, Split(x).rest)
  {
    ReadSizeStable(k, x);
    hide ReadSize, Split;
    var h := ReadSize(k);
    SplitFrame(k + x, h.head, 0, h.mask);
    assert (k + x)[h.head..] == x && (k + x)[h.head..h.head] == [];
    UnmaskAt([], h.mask, 0);
    assert Unmask([], h.mask, 0) == [];
  }

  lemma HeaderAlone(s: Bytes)
    requires ReadSize(s).Frame? && ReadSize(s).head <= |s|
    ensures ReadSize(s[..ReadSize(s).head]) == ReadSize(s)
  {
    var h := ReadSize(s).head;
    var t := s[..h];
    var end := LengthEnd(s[1] % 128);
    assert t[0] == s[0] && t[1] == s[1];
    assert end == 4 ==> t[2..4] == s[2..4];
    assert end == 10 ==> t[6..10] == s[6..10];
    assert h == end + 4 ==> t[end..end + 4] == s[end..end + 4];
  }

  // -------------------------------------------------------- lost bytes

  /** A frame g with bytes kept behind its head: they make no difference exactly in the exempted case. */
  lemma LossShows(g: Bytes)
    requires ReadSize(g).Frame? && ReadSize(g).head < |g|
    ensures var head := ReadSize(g).head;
      Split(g) == Split(g[..head]) <==> ReadSize(g).size == 0 && Split(g[head..]) == Cut([], [])
  {
    hide Split, ReadSize;
    ReadSizeShape(g);
    var h := ReadSize(g);
    var k, f := g[..h.head], g[h.head..];
    HeaderAlone(g);
    assert k + f == g && k + [] == k;
    if h.size == 0 {
      EmptyFrame(k, f);
      EmptyFrame(k, []);
      EmptySplit();
      assert [[]] + Split(f).payloads == [[]] + Split([]).payloads ==>
        Split(f).payloads == ([[]] + Split(f).payloads)[1..] == Split([]).payloads;
    } else {
      OpenSplit(k);
      if |g| < h.head + h.size {
        OpenSplit(g);
      } else {
        SplitFrame(g, h.head, h.size, h.mask);
      }
    }
  }

  /** Harmless: with whatever follows, as if they had not been there. */
  lemma Harmless(g: Bytes, x: Bytes)
    requires ReadSize(g).Frame? && ReadSize(g).head < |g|
    requires ReadSize(g).size == 0 && Split(g[ReadSize(g).head..]) == Cut([], [])
    ensures Split(g + x) == Split(g[..ReadSize(g).head] + x)
    ensures Split(g + x) == Cut([[]] + Split(x).payloads, Split(x).rest)
  {
    hide Split, ReadSize;
    ReadSizeShape(g);
    var k, f := g[..ReadSize(g).head], g[ReadSize(g).head..];
    HeaderAlone(g);
    assert g == k + f;
    Regroup(k, f, x);
    EmptyFrame(k, f + x);
    EmptyFrame(k, x);
    NothingInFront(f, x);
  }

  lemma NothingInFront(f: Bytes, x: Bytes)
    requires Split(f) == Cut([], [])
    ensures Split(f + x) == Split(x)
  {
    hide Split;
    SplitAppend(f, x);
    assert [] + x == x && [] + Split(x).payloads == Split(x).payloads;
  }

  lemma Regroup(a: Bytes, b: Bytes, c: Bytes)
    ensures a + (b + c) == a + b + c
  {
  }

  // ------------------------------------------------------------ exact: right

  /** What is left over of the first part, with the second, is exact when the whole is. */
  lemma {:induction false} ExactAppend(a: Bytes, b: Bytes)
    requires Exact(a + b)
    ensures Exact(Split(a).rest + b)
    decreases |a|, 2
  {
    hide ReadSize, Unmask;
    ReadSizeShape(a);
    if ReadSize(a) != TooShort {
      ReadSizeStable(a, b);
    }
    match ReadSize(a)
    case TooShort =>
    case Stuck =>
    case Negative =>
    case Bad =>
      assert (a + b)[2..] == a[2..] + b;
      ExactAppend(a[2..], b);
    case TooLong => ExactOver(a, b);
    case Frame(head, size, mask) =>
      var n := head + size;
      if |a| >= n {
        assert (a + b)[n..] == a[n..] + b;
        ExactAppend(a[n..], b);
      }
  }

  lemma OverSame(a: Bytes, b: Bytes)
    requires ReadSize(a) == TooLong
    ensures |a| >= 2 && 2 <= HeadEnd(a) <= |a| && ReadSize(a + b) == TooLong && HeadEnd(a + b) == HeadEnd(a)
  {
    HeadEndShape(a);
    ReadSizeStable(a, b);
    assert (a + b)[1] == a[1];
  }

  /** The header over the limit, taken apart. */
  lemma OverParts(a: Bytes, b: Bytes)
    requires ReadSize(a) == TooLong
    ensures |a| >= 2 && 2 <= HeadEnd(a) <= |a| && ReadSize(a + b) == TooLong && HeadEnd(a + b) == HeadEnd(a)
    ensures Split(a + b) == Split(Dropped(a[2..HeadEnd(a)]) + (a[HeadEnd(a)..] + b))
    ensures (a + b)[2..HeadEnd(a)] == a[2..HeadEnd(a)] && (a + b)[HeadEnd(a)..] == a[HeadEnd(a)..] + b
  {
    OverSame(a, b);
    hide ReadSize, Split, HeadEnd, Dropped, Behind;
    Skip(a, b);
    var d := HeadEnd(a);
    Parts(a, b, d);
    DroppedSplit(a[2..d], a[d..] + b);
  }

  lemma Parts(a: Bytes, b: Bytes, d: nat)
    requires 2 <= d <= |a|
    ensures (a + b)[2..d] == a[2..d] && (a + b)[d..] == a[d..] + b && a[2..] + b == a[2..d] + (a[d..] + b)
  {
  }

  lemma ExactOverIs(a: Bytes, b: Bytes)
    requires ReadSize(a) == TooLong
    ensures |a| >= 2 && 2 <= HeadEnd(a) <= |a|
    ensures Exact(a + b) <==> OverOk(Dropped(a[2..HeadEnd(a)]), a[HeadEnd(a)..] + b)
  {
    OverParts(a, b);
    hide ReadSize, Split, HeadEnd, Dropped;
  }

  lemma {:induction false} ExactOver(a: Bytes, b: Bytes)
    requires ReadSize(a) == TooLong && Exact(a + b)
    ensures Exact(Split(a).rest + b)
    decreases |a|, 0
  {
    hide ReadSize, Split, HeadEnd, Dropped, Exact, OverOk;
    ExactOverIs(a, b);
    OverAlone(a);
    ExactLeft(a, b, Dropped(a[2..HeadEnd(a)]), a[HeadEnd(a)..]);
  }

  lemma OverAlone(a: Bytes)
    requires ReadSize(a) == TooLong
    ensures |a| >= 2 && 2 <= HeadEnd(a) <= |a|
    ensures Split(a) == Split(Dropped(a[2..HeadEnd(a)]) + a[HeadEnd(a)..])
    ensures |Dropped(a[2..HeadEnd(a)])| + |a[HeadEnd(a)..]| < |a|
  {
    hide ReadSize, Split, HeadEnd, Dropped;
    OverParts(a, []);
    var x := a[HeadEnd(a)..];
    assert a + [] == a;
    assert x + [] == x;
  }

  lemma {:induction false} ExactLeft(a: Bytes, b: Bytes, g: Bytes, x: Bytes)
    requires OverOk(g, x + b) && Split(a) == Split(g + x) && |g| + |x| < |a|
    requires ReadSize(g).Frame? ==> ReadSize(g).head <= |g|
    ensures Exact(Split(a).rest + b)
    decreases |g| + |x|, 3
  {
    hide ReadSize, Split, HeadEnd, Dropped, Exact, OverOk;
    OverCase(g, x + b);
    if !ReadSize(g).Frame? || ReadSize(g).head == |g| {
      Regroup(g, x, b);
      ExactAppend(g + x, b);
    } else {
      Harmless(g, x);
      ExactAppend(x, b);
    }
  }

  lemma OverCase(g: Bytes, x: Bytes)
    requires OverOk(g, x) && (ReadSize(g).Frame? ==> ReadSize(g).head <= |g|)
    ensures !ReadSize(g).Frame? || ReadSize(g).head == |g| ==> Exact(g + x)
    ensures ReadSize(g).Frame? && ReadSize(g).head < |g| ==>
      ReadSize(g).size == 0 && Split(g[ReadSize(g).head..]) == Cut([], []) && Exact(x)
  {
    hide ReadSize, Exact, Split;
  }

  /** One chunk on an exact stream: as if the kept bytes and the chunk had come together. */
  ghost predicate StepRight(f: Fed, s: Bytes, future: Bytes) {
    Agrees(f, s) && Exact(Split(s).rest + future)
  }

  /** What came out so far is what the bytes so far hold. */
  ghost predicate Agrees(f: Fed, s: Bytes) {
    f.kept != Failed && f.payloads == Split(s).payloads && Rest(f.kept) == Split(s).rest
  }

  lemma WholeRight(s: Bytes, future: Bytes)
    requires Exact(s + future)
    ensures StepRight(Whole(s), s, future)
  {
    hide Split, Behind, Exact;
    BehindRest(s);
    ExactAppend(s, future);
    RestOpen(s, future);
  }

  /** Dropping more of a header that was dropped in part. */
  lemma {:induction false} DroppedAppend(a: Bytes, b: Bytes)
    ensures Dropped(a + b) == Dropped(Dropped(a) + b)
    decreases |a|
  {
    hide ReadSize;
    ReadSizeShape(a);
    if ReadSize(a) == Bad || ReadSize(a) == TooLong {
      ReadSizeStable(a, b);
      assert (a + b)[2..] == a[2..] + b;
      DroppedAppend(a[2..], b);
    }
  }

  /** On an exact stream filter_data_ meets no negative length. */
  lemma {:induction false} NoneNegative(s: Bytes, x: Bytes)
    requires Exact(s + x)
    ensures ReadSize(Dropped(s)) != Negative
    decreases |s|
  {
    ReadSizeShape(s);
    if ReadSize(s) != TooShort {
      ReadSizeStable(s, x);
    }
    hide ReadSize, Split, HeadEnd;
    if ReadSize(s) == Bad {
      assert (s + x)[2..] == s[2..] + x;
      NoneNegative(s[2..], x);
    } else if ReadSize(s) == TooLong {
      ExactOverIs(s, x);
      NoneBehind(s, x);
    }
  }

  lemma {:induction false} NoneBehind(s: Bytes, x: Bytes)
    requires ReadSize(s) == TooLong && |s| >= 2 && 2 <= HeadEnd(s) <= |s|
    requires OverOk(Dropped(s[2..HeadEnd(s)]), s[HeadEnd(s)..] + x)
    ensures ReadSize(Dropped(s)) != Negative
    decreases |s|, 0
  {
    hide ReadSize, Split, HeadEnd, Exact, Dropped;
    var d := HeadEnd(s);
    var g, t := Dropped(s[2..d]), s[d..];
    assert s[2..] == s[2..d] + t;
    DroppedAppend(s[2..d], t);
    Skip(s, []);
    if ReadSize(g).Frame? {
      ReadSizeStable(g, t);
      DroppedGood(g + t);
    } else {
      Regroup(g, t, x);
      NoneNegative(g + t, x);
    }
  }

  lemma TopRight(s: Bytes, future: Bytes)
    requires Exact(s + future)
    ensures StepRight(Top(s), s, future)
  {
    hide Whole, StepRight, Exact, Dropped;
    NoneNegative(s, future);
    WholeRight(s, future);
  }

  lemma NegativeWrong(s: Bytes, x: Bytes)
    requires ReadSize(s) == Negative
    ensures !Exact(s + x)
  {
    ReadSizeStable(s, x);
  }

  lemma StuckFits(s: Bytes, x: Bytes)
    requires Short(ReadSize(s)) && Exact(s + x)
    ensures |s| <= HeaderRoom && Open(s)
  {
    if ReadSize(s) == Stuck {
      ReadSizeStable(s, x);
    }
  }

  lemma {:induction false} ResumeRight(h: Bytes, chunk: Bytes, future: Bytes)
    requires Short(ReadSize(h)) && Exact(h + chunk + future)
    ensures StepRight(Resume(h, chunk), h + chunk, future)
    decreases |chunk|, 0
  {
    hide ReadSize, Split, Exact, Whole, Dropped, StepRight;
    if chunk == [] {
      assert h + chunk == h;
      NothingRight(h, future);
    } else {
      var c, t := chunk[0], chunk[1..];
      var s := h + [c];
      assert chunk == [c] + t;
      StepAppend(h, c, t);
      assert s + t + future == s + (t + future);
      if ReadSize(h) == Stuck {
        ReadSizeStable(h, [c]);
      } else {
        HeaderStep(h, c);
      }
      ResumeStepRight(s, t, future);
    }
  }

  /** The header with one byte more. */
  lemma ResumeStepRight(s: Bytes, t: Bytes, future: Bytes)
    requires Exact(s + (t + future)) && (ReadSize(s) == Bad ==> |s| == 2)
    requires ReadSize(s).Frame? ==> ReadSize(s).head == |s|
    requires ReadSize(s) == TooLong ==> |s| >= 2 && HeadEnd(s) == |s|
    ensures StepRight(GoOn(Dropped(s), t), s + t, future)
    decreases |t|, 2
  {
    hide ReadSize, Split, Exact, GoOn, Dropped, StepRight, HeadEnd;
    match ReadSize(s)
    case TooShort => ShortStep(s, t, future);
    case Stuck => ShortStep(s, t, future);
    case Negative => NegativeWrong(s, t + future);
    case Frame(_, _, _) => FrameStep(s, t, future);
    case Bad => BadStep(s, t, future);
    case TooLong => ResumeOver(s, t, future);
  }

  lemma GoOnCases(g: Bytes, later: Bytes)
    ensures ReadSize(g) == Negative || (Short(ReadSize(g)) && |g| > HeaderRoom) ==> GoOn(g, later) == Fed([], Failed)
    ensures Short(ReadSize(g)) && |g| <= HeaderRoom ==> GoOn(g, later) == Resume(g, later)
    ensures ReadSize(g).Frame? ==> GoOn(g, later) == Whole(HeadOf(g) + later)
  {
    hide ReadSize, Resume, Whole, HeadOf;
  }

  lemma ShortStep(s: Bytes, t: Bytes, future: Bytes)
    requires Short(ReadSize(s)) && Exact(s + (t + future))
    ensures StepRight(GoOn(Dropped(s), t), s + t, future)
    decreases |t|, 1
  {
    hide ReadSize, Exact, GoOn, Dropped, StepRight, Resume;
    Regroup(s, t, future);
    DroppedGood(s);
    StuckFits(s, t + future);
    GoOnCases(s, t);
    ResumeRight(s, t, future);
  }

  lemma FrameStep(s: Bytes, t: Bytes, future: Bytes)
    requires ReadSize(s).Frame? && ReadSize(s).head == |s| && Exact(s + (t + future))
    ensures StepRight(GoOn(Dropped(s), t), s + t, future)
  {
    hide ReadSize, Exact, GoOn, Dropped, StepRight, Whole;
    Regroup(s, t, future);
    DroppedGood(s);
    GoOnCases(s, t);
    assert HeadOf(s) == s;
    WholeRight(s + t, future);
  }

  lemma BadStep(s: Bytes, t: Bytes, future: Bytes)
    requires ReadSize(s) == Bad && |s| == 2 && Exact(s + (t + future))
    ensures StepRight(GoOn(Dropped(s), t), s + t, future)
    decreases |t|, 1
  {
    hide ReadSize, Exact, GoOn, Dropped, StepRight, Resume, Split;
    var none: Bytes := [];
    BadPair(s, t + future);
    BadPair(s, t);
    GoOnCases(none, t);
    Regroup(none, t, future);
    ResumeRight(none, t, future);
    StepShift(Resume(none, t), none + t, s + t, future);
  }

  lemma NothingRight(h: Bytes, future: Bytes)
    requires Short(ReadSize(h)) && Exact(h + future)
    ensures StepRight(Fed([], Part(h)), h, future)
  {
    StuckFits(h, future);
    OpenSplit(h);
  }

  lemma DroppedGood(s: Bytes)
    requires ReadSize(s) != Bad && ReadSize(s) != TooLong
    ensures Dropped(s) == s
  {
  }

  lemma BadPair(s: Bytes, x: Bytes)
    requires ReadSize(s) == Bad && |s| == 2
    ensures Dropped(s) == [] && ReadSize([]) == TooShort
    ensures Split(s + x) == Split([] + x) && (Exact(s + x) <==> Exact([] + x))
  {
    Skip(s, x);
    ReadSizeShape([]);
    ReadSizeStable(s, x);
    hide ReadSize, Split;
    assert (s + x)[2..] == x == [] + x;
    assert s[2..] == [];
  }

  lemma StepShift(f: Fed, s: Bytes, s': Bytes, future: Bytes)
    requires StepRight(f, s, future) && Split(s) == Split(s')
    ensures StepRight(f, s', future)
  {
  }

  /** The step that finds a header over the limit. */
  lemma ResumeOver(s: Bytes, t: Bytes, future: Bytes)
    requires ReadSize(s) == TooLong && |s| >= 2 && HeadEnd(s) == |s| && Exact(s + (t + future))
    ensures StepRight(GoOn(Dropped(s), t), s + t, future)
    decreases |t|, 1
  {
    hide ReadSize, Split, Whole, Dropped, StepRight, Resume, HeadEnd;
    var g := Dropped(s);
    OverEnd(s, t);
    OverEnd(s, t + future);
    ReadSizeShape(g);
    var r := ReadSize(g);
    hide Exact;
    if !r.Frame? {
      assert g + (t + future) == g + t + future;
      if r == Negative {
        NegativeWrong(g, t + future);
      } else {
        StuckFits(g, t + future);
      }
      ResumeRight(g, t, future);
      StepShift(Resume(g, t), g + t, s + t, future);
    } else if r.head == |g| {
      assert g[..r.head] == g && g + (t + future) == g + t + future;
      WholeRight(g + t, future);
      StepShift(Whole(g + t), g + t, s + t, future);
    } else {
      Harmless(g, t);
      HeaderAlone(g);
      var k := g[..r.head];
      EmptyFrameRight(k, t, future);
      StepShift(Whole(k + t), k + t, s + t, future);
    }
  }

  lemma EmptyFrameRight(k: Bytes, t: Bytes, future: Bytes)
    requires ReadSize(k).Frame? && ReadSize(k).size == 0 && ReadSize(k).head == |k| && Exact(t + future)
    ensures StepRight(Whole(k + t), k + t, future)
  {
    hide Split, Behind, Exact, ReadSize;
    BehindRest(k + t);
    EmptyFrame(k, t);
    ExactAppend(t, future);
    RestOpen(t, future);
  }

  /** A header over the limit that ends with the bytes at hand. */
  lemma OverEnd(s: Bytes, x: Bytes)
    requires ReadSize(s) == TooLong && |s| >= 2 && HeadEnd(s) == |s|
    ensures Split(s + x) == Split(Dropped(s) + x)
    ensures Exact(s + x) <==> OverOk(Dropped(s), x)
  {
    OverParts(s, x);
    Skip(s, []);
    DroppedSplit(s, x);
    hide ReadSize, Split, HeadEnd;
    var d := HeadEnd(s);
    assert s[2..d] == s[2..] && s[d..] + x == x;
  }

  lemma FeedRight(k: Kept, chunk: Bytes, future: Bytes)
    requires k != Failed && Open(Rest(k)) && Exact(Rest(k) + chunk + future)
    ensures StepRight(Feed(k, chunk), Rest(k) + chunk, future)
  {
    hide ReadSize, Split, Exact, Whole, StepRight, Resume, Top;
    var r := Rest(k);
    if k == Fresh {
      assert r + chunk == chunk;
      TopRight(chunk, future);
    } else if Short(ReadSize(r)) {
      ResumeRight(r, chunk, future);
    } else {
      WholeRight(r + chunk, future);
    }
  }

  lemma {:induction false} FeedAllRight(k: Kept, chunks: seq<Bytes>, future: Bytes)
    requires k != Failed && Open(Rest(k)) && Exact(Rest(k) + Joined(chunks) + future)
    ensures Agrees(FeedAll(k, chunks), Rest(k) + Joined(chunks))
    decreases |chunks|
  {
    hide ReadSize, Split, Exact, Open, Feed;
    var r := Rest(k);
    if chunks == [] {
      assert r + [] == r;
      OpenSplit(r);
    } else {
      var c, later := chunks[0], Joined(chunks[1..]);
      assert r + (c + later) == (r + c) + later;
      assert r + (c + later) + future == r + c + (later + future);
      FeedRight(k, c, later + future);
      var f := Feed(k, c);
      RestOpen(r + c, later + future);
      assert Rest(f.kept) + (later + future) == Rest(f.kept) + later + future;
      FeedAllRight(f.kept, chunks[1..], future);
      SplitAppend(r + c, later);
    }
  }

  // ------------------------------------------------------------ not exact: wrong

  function Singles(s: Bytes): seq<Bytes>
    decreases |s|
  {
    if s == [] then [] else [[s[0]]] + Singles(s[1..])
  }

  lemma {:induction false} SinglesJoined(s: Bytes)
    ensures Joined(Singles(s)) == s
    decreases |s|
  {
    if s != [] {
      SinglesJoined(s[1..]);
      assert Singles(s)[1..] == Singles(s[1..]);
      assert s == [s[0]] + s[1..];
    }
  }

  /** One byte at a time. */
  function Bytewise(k: Kept, s: Bytes): Fed {
    FeedAll(k, Singles(s))
  }

  lemma BytewiseStep(k: Kept, c: Byte, t: Bytes)
    ensures var f := Feed(k, [c]);
      Bytewise(k, [c] + t) == Fed(f.payloads + Bytewise(f.kept, t).payloads, Bytewise(f.kept, t).kept)
  {
    hide Feed;
    var s := [c] + t;
    assert s[1..] == t;
    assert Singles(s)[1..] == Singles(t);
  }

  lemma FrameByte(s: Bytes, t: Bytes)
    requires ReadSize(s).Frame? && |s| <= ReadSize(s).head + ReadSize(s).size
    ensures Agrees(Whole(s), s) && Open(Rest(Whole(s).kept))
    ensures Exact(Rest(Whole(s).kept) + t) <==> Exact(s + t)
  {
    hide Split, Behind, Exact;
    BehindRest(s);
    RestUnfinished(s);
    var n := ReadSize(s).head + ReadSize(s).size;
    if |s| < n {
      OpenSplit(s);
    } else {
      FrameEnds(s);
      ReadSizeShape([]);
      ExactBehind(s, t);
      assert [] + t == t;
    }
  }

  lemma FrameEnds(s: Bytes)
    requires ReadSize(s).Frame? && |s| == ReadSize(s).head + ReadSize(s).size
    ensures Split(s).rest == []
  {
    hide ReadSize, Unmask;
    var h := ReadSize(s);
    SplitFrame(s, h.head, h.size, h.mask);
    assert s[h.head + h.size..] == [];
    EmptySplit();
  }

  lemma ExactBehind(s: Bytes, t: Bytes)
    requires ReadSize(s).Frame? && |s| == ReadSize(s).head + ReadSize(s).size
    ensures Exact(s + t) <==> Exact(t)
  {
    ReadSizeStable(s, t);
    hide ReadSize;
    ReadSizeShape(s + t);
    assert (s + t)[|s|..] == t;
  }

  /** The step from f: right, and on the way to the same verdict; or wrong at once. */
  ghost predicate Leads(f: Fed, s: Bytes, t: Bytes) {
    Agrees(f, s) && Open(Rest(f.kept)) && (Exact(Rest(f.kept) + t) ==> Exact(s + t))
  }

  /** Resuming with one byte. */
  lemma ResumeByte(h: Bytes, c: Byte, t: Bytes)
    requires Short(ReadSize(h))
    ensures Leads(Feed(Part(h), [c]), h + [c], t) || !Agrees(Feed(Part(h), [c]), h + [c])
  {
    hide ReadSize, Dropped, Leads, HeadEnd, Feed, Agrees, Now;
    ResumeOne(h, c);
    if ReadSize(h) == Stuck {
      ReadSizeStable(h, [c]);
    } else {
      HeaderStep(h, c);
    }
    ByteCase(h + [c], t);
  }

  lemma ByteCase(s: Bytes, t: Bytes)
    requires (ReadSize(s) == Bad ==> |s| == 2) && (ReadSize(s).Frame? ==> ReadSize(s).head == |s|)
    requires ReadSize(s) == TooLong ==> |s| >= 2 && HeadEnd(s) == |s|
    ensures Leads(Now(Dropped(s)), s, t) || !Agrees(Now(Dropped(s)), s)
  {
    hide ReadSize, Dropped, Leads, HeadEnd, Agrees, Now;
    match ReadSize(s)
    case TooShort => GoodCase(s, t);
    case Stuck => GoodCase(s, t);
    case Negative => GoodCase(s, t);
    case Frame(_, _, _) => GoodCase(s, t);
    case Bad => BadByte(s, t);
    case TooLong => OverByte(s, t);
  }

  /** Nothing is dropped. */
  lemma GoodCase(s: Bytes, t: Bytes)
    requires ReadSize(s) != Bad && ReadSize(s) != TooLong && (ReadSize(s).Frame? ==> ReadSize(s).head == |s|)
    ensures Leads(Now(Dropped(s)), s, t) || !Agrees(Now(Dropped(s)), s)
  {
    hide ReadSize, Dropped, Leads, Agrees, Now;
    DroppedGood(s);
    GoodNow(s, t);
  }

  lemma GoodNow(s: Bytes, t: Bytes)
    requires ReadSize(s) != Bad && ReadSize(s) != TooLong && (ReadSize(s).Frame? ==> ReadSize(s).head == |s|)
    ensures Leads(Now(s), s, t) || !Agrees(Now(s), s)
  {
    hide ReadSize, Split, Exact, Whole, Open;
    if ReadSize(s).Frame? {
      assert HeadOf(s) == s;
      FrameByte(s, t);
    } else if Short(ReadSize(s)) {
      ShortByte(s);
    }
  }

  lemma BadByte(s: Bytes, t: Bytes)
    requires ReadSize(s) == Bad && |s| == 2
    ensures Leads(Now(Dropped(s)), s, t)
  {
    hide ReadSize, Split, Exact, Dropped, Open;
    BadPair(s, t);
    BadPair(s, []);
    var none: Bytes := [];
    assert s + none == s && none + none == none;
    ShortByte(none);
  }

  /** What one byte makes of a header. */
  function Now(g: Bytes): Fed {
    if ReadSize(g).Frame? then Whole(HeadOf(g))
    else if Short(ReadSize(g)) && |g| <= HeaderRoom then Fed([], Part(g))
    else Fed([], Failed)
  }

  lemma ResumeOne(h: Bytes, c: Byte)
    requires Short(ReadSize(h))
    ensures Feed(Part(h), [c]) == Now(Dropped(h + [c]))
  {
    hide ReadSize, Whole, Dropped;
    assert [c][1..] == [];
    var g := Dropped(h + [c]);
    assert Resume(g, []) == Fed([], Part(g));
    assert Resume(h, [c]) == GoOn(g, []);
    assert HeadOf(g) + [] == HeadOf(g);
  }

  lemma ShortByte(s: Bytes)
    requires Short(ReadSize(s))
    ensures |s| <= HeaderRoom ==> Agrees(Fed([], Part(s)), s) && Open(s)
    ensures |s| > HeaderRoom ==> !Agrees(Fed([], Failed), s)
  {
    if |s| <= HeaderRoom {
      OpenSplit(s);
    }
  }

  /** The byte that puts a header over the limit: wrong at once exactly when bytes are lost that show. */
  lemma OverByte(s: Bytes, t: Bytes)
    requires ReadSize(s) == TooLong && |s| >= 2 && HeadEnd(s) == |s|
    ensures Leads(Now(Dropped(s)), s, t) || !Agrees(Now(Dropped(s)), s)
  {
    hide ReadSize, Split, Exact, Dropped, HeadEnd, Now, OverOk, Leads, Agrees;
    var g := Dropped(s);
    OverEnd(s, t);
    OverEnd(s, []);
    assert s + [] == s && g + [] == g;
    if !ReadSize(g).Frame? || ReadSize(g).head == |g| {
      OverCaseIs(g, t);
      GoodNow(g, t);
      LeadsShift(Now(g), g, s, t);
    } else {
      LossByte(g, s, t);
    }
  }

  lemma OverCaseIs(g: Bytes, x: Bytes)
    requires !ReadSize(g).Frame? || ReadSize(g).head == |g|
    ensures OverOk(g, x) <==> Exact(g + x)
  {
    hide ReadSize, Exact, Split;
  }

  /** The same bytes, as far as the reference goes. */
  lemma LeadsShift(f: Fed, g: Bytes, s: Bytes, t: Bytes)
    requires Split(s) == Split(g) && (Exact(g + t) ==> Exact(s + t)) && (Leads(f, g, t) || !Agrees(f, g))
    ensures Leads(f, s, t) || !Agrees(f, s)
  {
    hide Split, Exact, Open;
  }

  /** Bytes are lost behind the head of a frame. */
  lemma LossByte(g: Bytes, s: Bytes, t: Bytes)
    requires ReadSize(g).Frame? && ReadSize(g).head < |g| && Split(s) == Split(g) && (OverOk(g, t) ==> Exact(s + t))
    ensures Leads(Now(g), s, t) || !Agrees(Now(g), s)
  {
    hide ReadSize, Split, Exact, Whole, Open;
    LossShows(g);
    HeaderAlone(g);
    var k := g[..ReadSize(g).head];
    FrameByte(k, t);
    if ReadSize(g).size == 0 && Split(g[ReadSize(g).head..]) == Cut([], []) {
      FrameEnds(k);
      assert [] + t == t;
    }
  }

  lemma ByteLeads(k: Kept, c: Byte, t: Bytes)
    requires k != Failed && Open(Rest(k))
    ensures Leads(Feed(k, [c]), Rest(k) + [c], t) || !Agrees(Feed(k, [c]), Rest(k) + [c])
  {
    var r := Rest(k);
    if k == Fresh {
      ReadSizeShape([]);
      assert ReadSize([c]) == TooShort;
      OpenSplit([c]);
      FreshChunk([c]);
      assert [] + [c] == [c];
    } else if Short(ReadSize(r)) {
      hide *;
      ResumeByte(r, c, t);
    } else {
      hide Split, Behind, Exact;
      ReadSizeStable(r, [c]);
      FrameByte(r + [c], t);
    }
  }

  /** On a stream that is not exact, one byte at a time goes wrong at some moment. */
  lemma {:induction false} BytewiseWrong(k: Kept, t: Bytes) returns (m: nat)
    requires k != Failed && Open(Rest(k)) && !Exact(Rest(k) + t)
    ensures m <= |t| && !Agrees(Bytewise(k, t[..m]), Rest(k) + t[..m])
    decreases |t|
  {
    hide ReadSize, Split, Exact, Open, Feed, Bytewise, Agrees;
    var r := Rest(k);
    if t == [] {
      assert r + t == r;
      OpenSplit(r);
      assert false;
    } else {
      var c, later := t[0], t[1..];
      ByteLeads(k, c, later);
      var f := Feed(k, [c]);
      if Agrees(f, r + [c]) {
        assert r + [c] + later == r + t;
        AgreesNotFailed(f, r + [c]);
        m := BytewiseWrong(f.kept, later);
        WrongLater(k, c, later[..m]);
        assert t[..m + 1] == [c] + later[..m];
        assert r + [c] + later[..m] == r + ([c] + later[..m]);
        m := m + 1;
      } else {
        m := 1;
        assert t[..1] == [c];
        WrongNow(k, c);
      }
    }
  }

  lemma AgreesNotFailed(f: Fed, s: Bytes)
    requires Agrees(f, s)
    ensures f.kept != Failed
  {
  }

  lemma WrongNow(k: Kept, c: Byte)
    requires !Agrees(Feed(k, [c]), Rest(k) + [c])
    ensures !Agrees(Bytewise(k, [c]), Rest(k) + [c])
  {
    hide Feed, Split;
    BytewiseStep(k, c, []);
    assert [c] + [] == [c];
  }

  lemma WrongLater(k: Kept, c: Byte, x: Bytes)
    requires Agrees(Feed(k, [c]), Rest(k) + [c])
    requires !Agrees(Bytewise(Feed(k, [c]).kept, x), Rest(Feed(k, [c]).kept) + x)
    ensures !Agrees(Bytewise(k, [c] + x), Rest(k) + [c] + x)
  {
    hide Feed, Split, Bytewise;
    BytewiseStep(k, c, x);
    SplitAppend(Rest(k) + [c], x);
    var f := Feed(k, [c]);
    var p, q := Bytewise(f.kept, x).payloads, Split(Rest(f.kept) + x).payloads;
    if f.payloads + p == f.payloads + q {
      assert p == (f.payloads + p)[|f.payloads|..] == q;
    }
  }

  // ------------------------------------------------------------------ main result

  ghost predicate CuttingsAgree(s: Bytes) {
    forall chunks: seq<Bytes> :: Joined(chunks) <= s ==> Agrees(FeedAll(Fresh, chunks), Joined(chunks))
  }

  ghost predicate BytesAgree(s: Bytes) {
    forall m: nat :: m <= |s| ==> Agrees(Bytewise(Fresh, s[..m]), s[..m])
  }

  /**
   * Every cutting of the stream gives at every moment the payloads and the rest
   * of the bytes so far, if and only if the stream is exact; and if and only
   * if this holds for one byte at a time.
   */
  lemma CuttingExact(s: Bytes)
    ensures CuttingsAgree(s) <==> Exact(s)
    ensures BytesAgree(s) <==> Exact(s)
  {
    hide Split, Exact, Feed, Agrees, FeedAll;
    FreshOpen();
    assert Rest(Fresh) + s == s;
    if Exact(s) {
      forall chunks: seq<Bytes> | Joined(chunks) <= s
        ensures Agrees(FeedAll(Fresh, chunks), Joined(chunks))
      {
        var future := s[|Joined(chunks)|..];
        assert Rest(Fresh) + Joined(chunks) + future == s;
        FeedAllRight(Fresh, chunks, future);
        assert Rest(Fresh) + Joined(chunks) == Joined(chunks);
      }
      forall m: nat | m <= |s|
        ensures Agrees(Bytewise(Fresh, s[..m]), s[..m])
      {
        SinglesJoined(s[..m]);
      }
    } else {
      var m := BytewiseWrong(Fresh, s);
      SinglesJoined(s[..m]);
      assert Rest(Fresh) + s[..m] == s[..m];
      assert Joined(Singles(s[..m])) <= s;
    }
  }

  lemma FreshOpen()
    ensures Open(Rest(Fresh))
  {
    ReadSizeShape([]);
  }

  /** A stream of sendable messages is exact. */
  lemma {:induction false} EncodedExact(ms: seq<Message>)
    requires forall i :: 0 <= i < |ms| ==> Sendable(ms[i])
    ensures Exact(EncodeAll(ms))
  {
    hide ReadSize, Encode;
    if ms == [] {
      ReadSizeShape([]);
    } else {
      var m, tail := ms[0], EncodeAll(ms[1..]);
      var s := Encode(m) + tail;
      EncodeHeader(m, tail);
      ReadSizeShape(s);
      assert s[ReadSize(s).head + ReadSize(s).size..] == tail;
      EncodedExact(ms[1..]);
    }
  }

  /** So it comes apart into the payloads however it is cut. */
  lemma EncodedDelivered(ms: seq<Message>, chunks: seq<Bytes>)
    requires (forall i :: 0 <= i < |ms| ==> Sendable(ms[i])) && Joined(chunks) == EncodeAll(ms)
    ensures FeedAll(Fresh, chunks).payloads == Payloads(ms)
    ensures FeedAll(Fresh, chunks).kept != Failed && Rest(FeedAll(Fresh, chunks).kept) == []
  {
    hide Split, Exact, FeedAll;
    EncodedExact(ms);
    SplitEncoded(ms);
    CuttingExact(Joined(chunks));
    assert Agrees(FeedAll(Fresh, chunks), Joined(chunks));
  }

  lemma FreshChunk(s: Bytes)
    requires Open(s)
    ensures Feed(Fresh, s) == Fed([], Part(s))
  {
    OpenSplit(s);
    DroppedGood(s);
  }

  lemma LastChunk(k: Kept, s: Bytes)
    ensures FeedAll(k, [s]) == Feed(k, s)
  {
    hide Feed;
    assert [s][1..] == [];
  }
}
