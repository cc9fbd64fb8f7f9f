/**
 * Lengths that lualib-src/lua-websocketnetpack.c reads as negative or finds over
 * its limit: a condition on a stream under which no cutting fails, and streams
 * at which the cutting matters or does not.
 */
module WebSocketLengths {
  import opened Basics
  import opened WebSocketFrames
  import opened WebSocketChunks

  // ------------------------------------------------------------- never failing

  /** No ten bytes of the stream could be read as a header whose 64-bit length has its bit 31 set. */
  predicate Plain(s: Bytes) {
    forall i :: 0 <= i < |s| ==> !SignBit(s, i)
  }

  predicate SignBit(s: Bytes, i: nat) {
    i + 10 <= |s| && s[i + 1] % 128 == 127 && s[i + 6] >= 128
  }

  lemma PlainTail(s: Bytes, k: nat)
    requires Plain(s) && k <= |s|
    ensures Plain(s[k..])
  {
    forall i | 0 <= i < |s[k..]|
      ensures !SignBit(s[k..], i)
    {
      assert !SignBit(s, k + i);
    }
  }

  lemma PlainFront(s: Bytes, x: Bytes)
    requires Plain(s + x)
    ensures Plain(s)
  {
    forall i | 0 <= i < |s|
      ensures !SignBit(s, i)
    {
      assert !SignBit(s + x, i);
    }
  }

  lemma PlainRead(s: Bytes)
    requires Plain(s)
    ensures ReadSize(s) != Stuck && ReadSize(s) != Negative
  {
    if |s| >= 10 && s[1] % 128 == 127 {
      assert !SignBit(s, 0);
      FourBytes(s[6], s[7], s[8], s[9]);
      assert s[6..10] == [s[6], s[7], s[8], s[9]];
    }
  }

  lemma PlainDropped(s: Bytes)
    requires Plain(s)
    ensures Plain(Dropped(s)) && ReadSize(Dropped(s)) != Stuck && ReadSize(Dropped(s)) != Negative
  {
    hide ReadSize, Plain;
    PlainTail(s, |s| - |Dropped(s)|);
    PlainRead(Dropped(s));
  }

  /** What the rest of the stream meets: a record for a short header, or for a payload, and nothing to fail on. */
  ghost predicate Safe(k: Kept, future: Bytes) {
    k != Failed && Plain(future) &&
    (k.Part? ==>
      if ReadSize(k.rest).Frame? then Unfinished(k.rest) else ReadSize(k.rest) == TooShort && Plain(k.rest + future))
  }

  lemma {:induction false} BehindSafe(s: Bytes, future: Bytes)
    requires Plain(s + future)
    ensures Safe(Behind(s), future)
    decreases |s|
  {
    hide ReadSize, Plain;
    PlainFront(s, future);
    PlainRead(s);
    ReadSizeShape(s);
    PlainTail(s + future, |s|);
    assert (s + future)[|s|..] == future;
    match ReadSize(s)
    case TooShort => ShortFits(s);
    case Bad => BehindTail(s, 2, future);
    case TooLong => BehindTail(s, 2, future);
    case Frame(head, size, _) =>
      if |s| > head + size {
        BehindTail(s, head + size, future);
      }
  }

  lemma {:induction false} BehindTail(s: Bytes, n: nat, future: Bytes)
    requires Plain(s + future) && 0 < n <= |s|
    ensures Safe(Behind(s[n..]), future)
    decreases |s|, 0
  {
    hide ReadSize, Plain, Behind, Safe;
    PlainTail(s + future, n);
    assert (s + future)[n..] == s[n..] + future;
    BehindSafe(s[n..], future);
  }

  /** A frame that was begun, and more bytes. */
  lemma FrameSafe(k: Bytes, z: Bytes, future: Bytes)
    requires ReadSize(k).Frame? && |k| <= ReadSize(k).head + ReadSize(k).size && Plain(z + future)
    ensures Safe(Behind(k + z), future)
  {
    hide ReadSize, Plain, Behind, Safe;
    ReadSizeStable(k, z);
    var s, n := k + z, ReadSize(k).head + ReadSize(k).size;
    PlainTail(z + future, |z|);
    assert (z + future)[|z|..] == future;
    BehindFrame(s);
    if |s| > n {
      BehindPart(k, z, n - |k|, future);
    } else {
      SafeFrame(s, future);
    }
  }

  lemma SafeFrame(s: Bytes, future: Bytes)
    requires ReadSize(s).Frame? && Plain(future)
    ensures Safe(Fresh, future)
    ensures |s| < ReadSize(s).head + ReadSize(s).size ==> Safe(Part(s), future)
  {
    hide ReadSize, Plain;
  }

  lemma BehindFrame(s: Bytes)
    requires ReadSize(s).Frame?
    ensures var n := ReadSize(s).head + ReadSize(s).size;
      Behind(s) == if |s| < n then Part(s) else if |s| == n then Fresh else Behind(s[n..])
  {
    hide ReadSize;
  }

  lemma BehindPart(k: Bytes, z: Bytes, m: nat, future: Bytes)
    requires Plain(z + future) && m <= |z|
    ensures Safe(Behind((k + z)[|k| + m..]), future)
  {
    hide Plain, Behind, Safe;
    PlainTail(z + future, m);
    assert (z + future)[m..] == z[m..] + future && (k + z)[|k| + m..] == z[m..];
    BehindSafe(z[m..], future);
  }

  lemma {:induction false} ResumeSafe(h: Bytes, chunk: Bytes, future: Bytes)
    requires ReadSize(h) == TooShort && Plain(h + chunk + future)
    ensures Safe(Resume(h, chunk).kept, future)
    decreases |chunk|, 0
  {
    hide ReadSize, Plain, Behind, Dropped;
    PlainTail(h + chunk + future, |h + chunk|);
    assert (h + chunk + future)[|h + chunk|..] == future;
    if chunk == [] {
      assert h + chunk == h;
    } else {
      var c, t := chunk[0], chunk[1..];
      var g := Dropped(h + [c]);
      TailPlain(h, c, t, chunk, future, |g|);
      GoOnSafe(g, t, future);
    }
  }

  lemma TailPlain(h: Bytes, c: Byte, t: Bytes, chunk: Bytes, future: Bytes, n: nat)
    requires Plain(h + chunk + future) && chunk == [c] + t && n <= |h| + 1
    ensures Plain((h + [c])[|h| + 1 - n..] + t + future) && Plain(t + future)
  {
    hide Plain;
    var s, k := h + chunk + future, |h| + 1 - n;
    PlainTail(s, k);
    PlainTail(s, |h| + 1);
    assert s[k..] == (h + [c])[k..] + t + future;
    assert s[|h| + 1..] == t + future;
  }

  lemma {:induction false} GoOnSafe(g: Bytes, t: Bytes, future: Bytes)
    requires Plain(g + t + future) && Plain(t + future) && (ReadSize(g).Frame? ==> ReadSize(g).head <= |g|)
    requires Short(ReadSize(g)) || ReadSize(g) == Negative || ReadSize(g).Frame?
    ensures Safe(GoOn(g, t).kept, future)
    decreases |t|, 1
  {
    hide ReadSize, Plain, Behind, Safe, Resume;
    assert g + t + future == g + (t + future);
    PlainFront(g, t + future);
    PlainRead(g);
    if ReadSize(g).Frame? {
      HeaderAlone(g);
      FrameSafe(g[..ReadSize(g).head], t, future);
    } else {
      ShortFits(g);
      ResumeSafe(g, t, future);
    }
  }

  lemma FeedSafe(k: Kept, chunk: Bytes, future: Bytes)
    requires Safe(k, chunk + future)
    ensures Safe(Feed(k, chunk).kept, future)
  {
    hide ReadSize, Plain, Behind, Resume, Dropped;
    match k
    case Fresh =>
      PlainFront(chunk, future);
      PlainDropped(chunk);
      BehindSafe(chunk, future);
    case Part(rest) =>
      if ReadSize(rest).Frame? {
        FrameSafe(rest, chunk, future);
      } else {
        assert rest + (chunk + future) == rest + chunk + future;
        ResumeSafe(rest, chunk, future);
      }
  }

  /** On a plain stream no cutting fails, whatever else it gives. */
  lemma {:induction false} NeverFails(k: Kept, chunks: seq<Bytes>, future: Bytes)
    requires Safe(k, Joined(chunks) + future)
    ensures Safe(FeedAll(k, chunks).kept, future)
    decreases |chunks|
  {
    hide Safe, Feed;
    if chunks == [] {
      assert [] + future == future;
    } else {
      var c, later := chunks[0], Joined(chunks[1..]);
      assert c + later + future == c + (later + future);
      FeedSafe(k, c, later + future);
      NeverFails(Feed(k, c).kept, chunks[1..], future);
    }
  }

  lemma PlainNeverFails(chunks: seq<Bytes>)
    requires Plain(Joined(chunks))
    ensures FeedAll(Fresh, chunks).kept != Failed
  {
    hide FeedAll, Plain, Joined;
    assert Joined(chunks) + [] == Joined(chunks);
    NeverFails(Fresh, chunks, []);
  }

  // -------------------------------------------------------------------- examples

  /** A length of 2^31: read as INT_MIN, it is not skipped, and the source asks for that many bytes. */
  lemma NegativeLengthFails(s: Bytes)
    requires s == [130, 127, 0, 0, 0, 0, 128, 0, 0, 0]
    ensures ReadSize(s) == Negative && FeedAll(Fresh, [s]) == Fed([], Failed) && !Exact(s)
  {
    assert s[6..10] == [128, 0, 0, 0];
    FourBytes(128, 0, 0, 0);
    assert PackSize(s, 127) == -0x8000_0000;
    hide ReadSize;
    DroppedGood(s);
    LastChunk(Fresh, s);
    NegativeWrong(s, []);
    assert s + [] == s;
  }

  /** A length of 2^32 - 1: read as -1, the mark for a short header, it is kept and never gets any further. */
  lemma MinusOneStuck(s: Bytes, x: Bytes)
    requires s == [130, 127, 0, 0, 0, 0, 255, 255, 255, 255]
    ensures ReadSize(s + x) == Stuck && (Exact(s + x) <==> |s + x| <= 1024)
  {
    assert s[6..10] == [255, 255, 255, 255];
    FourBytes(255, 255, 255, 255);
    assert PackSize(s, 127) == -1;
    assert ReadSize(s) == Stuck;
    hide ReadSize;
    ReadSizeStable(s, x);
  }

  lemma FourBytes(a: Byte, b: Byte, c: Byte, d: Byte)
    ensures BigEndianValue([a, b, c, d]) == ((a * 256 + b) * 256 + c) * 256 + d
  {
    assert [a, b, c, d][..3] == [a, b, c] && [a, b, c][..2] == [a, b] && [a, b][..1] == [a];
    assert BigEndianValue([a]) == BigEndianValue([a][..0]) * 256 + a;
    assert BigEndianValue([a, b]) == BigEndianValue([a]) * 256 + b;
    assert BigEndianValue([a, b, c]) == BigEndianValue([a, b]) * 256 + c;
  }

  /** Ten bytes that announce 2^24 bytes; n stands where a second header has its length. */
  function LongHeader(n: Byte, x: Byte): Bytes {
    [130, 127, 130, n, x, 0, 1, 0, 0, 0]
  }

  lemma LongHeaderRead(n: Byte, x: Byte)
    requires n < 126
    ensures var s := LongHeader(n, x);
      ReadSize(s[..9]) == TooShort && ReadSize(s) == TooLong && HeadEnd(s) == 10 &&
      ReadSize(s[2..]) == Frame(2, n, []) && Dropped(s) == s[2..]
  {
    var s := LongHeader(n, x);
    assert s[6..10] == [1, 0, 0, 0];
    FourBytes(1, 0, 0, 0);
    assert PackSize(s, 127) == 16777216;
    assert s[2..][0] == 130 && s[2..][1] == n;
    DroppedGood(s[2..]);
    Skip(s, []);
  }

  /**
   * A header over the limit whose own bytes hold a small frame: read at once it
   * yields that frame's payload, in two chunks it forgets six bytes and yields nothing.
   */
  lemma OverLimitLosesBytes()
    ensures var s := LongHeader(1, 7);
      |FeedAll(Fresh, [s]).payloads| >= 1 && FeedAll(Fresh, [s]).payloads[0] == [7] &&
      FeedAll(Fresh, [s[..9], s[9..]]) == Fed([], Part([130, 1])) && !Exact(s)
  {
    ReadAtOnce();
    ReadInTwo();
  }

  lemma ReadAtOnce()
    ensures var s := LongHeader(1, 7);
      |FeedAll(Fresh, [s]).payloads| >= 1 && FeedAll(Fresh, [s]).payloads[0] == [7]
  {
    var s := LongHeader(1, 7);
    LongHeaderRead(1, 7);
    hide ReadSize, Split, HeadEnd, Dropped, Unmask, FeedAll;
    var t := s[2..];
    SkipSplit(s);
    SplitFrame(t, 2, 1, []);
    assert t[2..3] == [7];
    OnePayload([7]);
    LastChunk(Fresh, s);
  }

  lemma ReadInTwo()
    ensures var s := LongHeader(1, 7);
      FeedAll(Fresh, [s[..9], s[9..]]) == Fed([], Part([130, 1])) && !Exact(s)
  {
    var s := LongHeader(1, 7);
    LongHeaderRead(1, 7);
    hide ReadSize, Split, HeadEnd, Dropped, Exact, Feed;
    var t, a := s[2..], s[..9];
    OverEnd(s, []);
    assert s + [] == s;
    HeaderAlone(t);
    assert t[..2] == [130, 1];
    OpenSplit(t[..2]);
    assert [a, s[9..]][1..] == [s[9..]] && s[9..] == [0] && a + [0] == s;
    ResumeOne(a, 0);
    FreshChunk(a);
    LastChunk(Part(a), [0]);
  }

  lemma OnePayload(p: Bytes)
    ensures Unmask(p, [], 0) == p
  {
  }

  /** Bytes forgotten without harm: the small frame is empty and the six bytes behind it would be dropped. */
  lemma ForgottenHarmlessly()
    ensures var s := LongHeader(0, 0);
      ReadSize(s) == TooLong && ReadSize(Dropped(s)).Frame? && ReadSize(Dropped(s)).head < |Dropped(s)| && Exact(s)
  {
    var s := LongHeader(0, 0);
    LongHeaderRead(0, 0);
    hide ReadSize, Split, HeadEnd, Dropped;
    var t := s[2..];
    assert t[2..] == [0, 0, 1, 0, 0, 0];
    ThreePairs(t[2..]);
    OverEnd(s, []);
    assert s + [] == s;
    OpenSplit([]) by {
      ReadSizeShape([]);
    }
  }

  lemma ThreePairs(s: Bytes)
    requires s == [0, 0, 1, 0, 0, 0]
    ensures Split(s) == Cut([], [])
  {
    var t, u := s[2..], s[2..][2..];
    assert t == [1, 0, 0, 0] && u == [0, 0] && u[2..] == [];
    assert ReadSize(s) == Bad && ReadSize(t) == Bad && ReadSize(u) == Bad;
    hide ReadSize, Split;
    SkipSplit(s);
    SkipSplit(t);
    SkipSplit(u);
    EmptySplit();
  }

  /** Over the limit and nothing forgotten. */
  lemma OverLimitKept(s: Bytes)
    requires s == [130, 126, 255, 255]
    ensures ReadSize(s) == TooLong && Exact(s)
  {
    var pair := s[2..];
    hide Dropped, Split, Exact;
    PairRead(s, pair);
    hide ReadSize, HeadEnd;
    assert pair[2..] == [] && s + [] == s && pair + [] == pair;
    PairDrops(s, pair);
    OverEnd(s, []);
    EmptyOpen();
  }

  lemma PairRead(s: Bytes, pair: Bytes)
    requires s == [130, 126] + pair && pair == [255, 255]
    ensures ReadSize(s) == TooLong && HeadEnd(s) == 4 && ReadSize(pair) == Bad
  {
    hide BigEndianValue;
    assert s[2..4] == pair;
    WordPair(pair);
  }

  lemma WordPair(pair: Bytes)
    requires |pair| == 2
    ensures BigEndianValue(pair) == 256 * BigEndianValue(pair[..1]) + pair[1] && BigEndianValue(pair[..1]) == pair[0]
  {
    assert BigEndianValue(pair) == BigEndianValue(pair[..1]) * 256 + pair[1];
    assert pair[..1][..0] == [];
    assert BigEndianValue(pair[..1]) == BigEndianValue([]) * 256 + pair[0];
  }

  lemma PairDrops(s: Bytes, pair: Bytes)
    requires ReadSize(s) == TooLong && |s| >= 2 && s[2..] == pair && ReadSize(pair) == Bad && |pair| == 2
    ensures Dropped(s) == []
  {
    hide ReadSize;
    EmptyOpen();
    assert pair[2..] == [];
  }

  lemma EmptyOpen()
    ensures Open([]) && ReadSize([]) == TooShort && Exact([] + [])
  {
  }
}
