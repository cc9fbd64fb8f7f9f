/**
 * Messages between harbors as skynet/service-src/service_harbor.c frames them: a
 * big-endian length, the data, and a trailer of three words. What a stream of
 * bytes stands for, however it is cut.
 */
module HarborFrames {
  import opened Basics

  type Word32 = x: int | 0 <= x < 0x1_0000_0000

  /** A remote message with its header. */
  datatype Msg = Msg(data: Bytes, source: Word32, destination: Word32, session: Word32)

  const CookieLength: int := 12

  // -------------------------------------------------------------------- sending

  /** header_to_message */
  function Cookie(m: Msg): Bytes {
    BigEndian(m.source, 4) + BigEndian(m.destination, 4) + BigEndian(m.session, 4)
  }

  /** send_remote, for a message that it does not refuse. */
  function Framed(m: Msg): Bytes {
    BigEndian(|m.data| + CookieLength, 4) + (m.data + Cookie(m))
  }

  /** Octet i of a 32-bit word, the most significant first. */
  function WordOctet(w: Word32, i: nat): int
    requires i < 4
  {
    if i == 0 then w / 0x100_0000 else if i == 1 then w / 0x1_0000 % 256 else if i == 2 then w / 256 % 256 else w % 256
  }

  lemma WordOctets(w: Word32, i: nat)
    requires i < 4
    ensures |BigEndian(w, 4)| == 4 && BigEndian(w, 4)[i] == WordOctet(w, i)
  {
    var a, b, c := w / 256, w / 256 / 256, w / 256 / 256 / 256;
    assert BigEndian(c, 1) == [c % 256];
    assert BigEndian(b, 2) == [c % 256, b % 256];
    assert BigEndian(a, 3) == [c % 256, b % 256, a % 256];
    assert b == w / 0x1_0000 && c == w / 0x100_0000;
  }

  /** Where everything is in a frame: the length of what follows, the data, then source, destination and session, all
      words with their most significant octet first. */
  lemma FrameLayout(m: Msg, i: nat)
    requires Fits(m) && i < 4
    ensures var f, n := Framed(m), |m.data|;
      && |f| == 4 + n + 12 && f[4..4 + n] == m.data && f[i] == WordOctet(n + 12, i)
      && f[4 + n + i] == WordOctet(m.source, i) && f[4 + n + 4 + i] == WordOctet(m.destination, i)
      && f[4 + n + 8 + i] == WordOctet(m.session, i)
  {
    hide BigEndian, WordOctet;
    WordOctets(|m.data| + 12, i);
    WordOctets(m.source, i);
    WordOctets(m.destination, i);
    WordOctets(m.session, i);
    assert Framed(m)[4..4 + |m.data|] == m.data;
  }

  /** send_remote refuses what does not fit a 32-bit length. */
  predicate Fits(m: Msg) {
    |m.data| + CookieLength < 0x1_0000_0000
  }

  function Frames(ms: seq<Msg>): Bytes {
    if ms == [] then []
    else Frames(ms[..|ms| - 1]) + if Fits(ms[|ms| - 1]) then Framed(ms[|ms| - 1]) else []
  }

  lemma FramesNext(ms: seq<Msg>, m: Msg)
    ensures Frames(ms + [m]) == Frames(ms) + if Fits(m) then Framed(m) else []
  {
    assert (ms + [m])[..|ms|] == ms;
  }

  // ------------------------------------------------------------------ receiving

  /** How the stream of a link goes on: more may come, it was closed, or a content is too short for its trailer. */
  datatype End = Going | Closed | Broken

  datatype Parsed = Parsed(msgs: seq<Msg>, rest: Bytes, end: End)

  /** The low three bytes of the length. */
  function LengthOf(s: Bytes): nat
    requires |s| >= 4
  {
    BigEndianValue(s[1..4])
  }

  lemma {:induction false} ValueBound(b: Bytes)
    ensures BigEndianValue(b) < Power256(|b|)
  {
    if b != [] {
      ValueBound(b[..|b| - 1]);
    }
  }

  lemma FourWords(b: Bytes)
    requires |b| == 4
    ensures BigEndianValue(b) < 0x1_0000_0000
  {
    ValueBound(b);
    assert Power256(4) == 256 * (256 * (256 * (256 * Power256(0))));
  }

  /** forward_local_messsage: the trailer gives the header. */
  function MsgOf(c: Bytes): Msg
    requires |c| >= CookieLength
  {
    var n := |c| - CookieLength;
    FourWords(c[n..n + 4]);
    FourWords(c[n + 4..n + 8]);
    FourWords(c[n + 8..]);
    Msg(c[..n], BigEndianValue(c[n..n + 4]), BigEndianValue(c[n + 4..n + 8]), BigEndianValue(c[n + 8..]))
  }

  /** The stream has a whole header but not yet what makes the receiver act on it. */
  predicate Unfinished(s: Bytes) {
    |s| < 4 || (s[0] == 0 && (|s| < 4 + LengthOf(s) || |s| == 4))
  }

  /** What a stream holds, from a header on. */
  function Unpack(s: Bytes): Parsed
    decreases |s|
  {
    if Unfinished(s) then Parsed([], s, Going)
    else if s[0] != 0 then Parsed([], [], Closed)
    else
      var n := LengthOf(s);
      if n < CookieLength then Parsed([], [], Broken)
      else
        var t := Unpack(s[4 + n..]);
        Parsed([MsgOf(s[4..4 + n])] + t.msgs, t.rest, t.end)
  }

  lemma UnpackFirst(s: Bytes)
    requires !Unfinished(s) && s[0] == 0 && LengthOf(s) >= CookieLength
    ensures var n, t := LengthOf(s), Unpack(s[4 + LengthOf(s)..]);
      Unpack(s) == Parsed([MsgOf(s[4..4 + n])] + t.msgs, t.rest, t.end)
  {
    hide LengthOf, MsgOf;
  }

  /** Going on from a first part with a second. */
  function Then(a: Parsed, b: Bytes): Parsed {
    if a.end != Going then a
    else
      var t := Unpack(a.rest + b);
      Parsed(a.msgs + t.msgs, t.rest, t.end)
  }

  lemma HeaderStays(a: Bytes, b: Bytes)
    requires |a| >= 4
    ensures (a + b)[0] == a[0] && LengthOf(a + b) == LengthOf(a)
  {
    assert (a + b)[1..4] == a[1..4];
  }

  /** Cutting a stream in two does not change what comes out. */
  lemma {:induction false} UnpackAppend(a: Bytes, b: Bytes)
    ensures Unpack(a + b) == Then(Unpack(a), b)
    decreases |a|
  {
    hide LengthOf, MsgOf;
    if !Unfinished(a) {
      HeaderStays(a, b);
      var n := LengthOf(a);
      if a[0] == 0 && n >= CookieLength {
        var t := a[4 + n..];
        assert (a + b)[4 + n..] == t + b && (a + b)[4..4 + n] == a[4..4 + n];
        UnpackAppend(t, b);
        UnpackFirst(a);
        UnpackFirst(a + b);
        ThenFirst(MsgOf(a[4..4 + n]), Unpack(t), b);
      }
    }
  }

  lemma ThenFirst(m: Msg, p: Parsed, b: Bytes)
    ensures var q := Then(p, b);
      Then(Parsed([m] + p.msgs, p.rest, p.end), b) == Parsed([m] + q.msgs, q.rest, q.end)
  {
    hide Unpack;
    assert [m] + (p.msgs + Unpack(p.rest + b).msgs) == [m] + p.msgs + Unpack(p.rest + b).msgs;
  }

  // ----------------------------------------------------------------- round trip

  /** The receiver takes lengths of 24 bits only. */
  predicate Small(m: Msg) {
    |m.data| + CookieLength < 0x100_0000
  }

  lemma {:induction false} TopByte(b: Bytes)
    requires |b| >= 1
    ensures BigEndianValue(b) == b[0] * Power256(|b| - 1) + BigEndianValue(b[1..])
  {
    if |b| == 1 {
      assert b[..0] == [] && b[1..] == [];
    } else {
      var f, t := b[..|b| - 1], b[1..];
      TopByte(f);
      assert f[1..] == t[..|t| - 1] && t[|t| - 1] == b[|b| - 1];
      assert BigEndianValue(b) == BigEndianValue(f) * 256 + b[|b| - 1];
      assert BigEndianValue(t) == BigEndianValue(t[..|t| - 1]) * 256 + b[|b| - 1];
      Shift256(b[0], Power256(|b| - 2), BigEndianValue(f[1..]));
    }
  }

  lemma Shift256(x: int, w: int, v: int)
    ensures (x * w + v) * 256 == x * (256 * w) + v * 256
  {
  }

  /** The length of a frame, as the receiver reads it. */
  lemma LengthBack(n: nat, tail: Bytes)
    requires n < 0x1_0000_0000
    ensures |BigEndian(n, 4)| == 4
    ensures (BigEndian(n, 4) + tail)[0] == 0 <==> n < 0x100_0000
    ensures n < 0x100_0000 ==> LengthOf(BigEndian(n, 4) + tail) == n
  {
    assert Power256(4) == 256 * (256 * (256 * (256 * Power256(0)))) && Power256(3) == 256 * (256 * (256 * Power256(0)));
    BigEndianWord(n, 4);
    var b := BigEndian(n, 4);
    TopByte(b);
    ValueBound(b[1..]);
    assert (b + tail)[1..4] == b[1..];
  }

  lemma CookieBack(m: Msg)
    ensures |Cookie(m)| == CookieLength && MsgOf(m.data + Cookie(m)) == m
  {
    assert Power256(4) == 256 * (256 * (256 * (256 * Power256(0))));
    BigEndianWord(m.source, 4);
    BigEndianWord(m.destination, 4);
    BigEndianWord(m.session, 4);
    var a, b, c := BigEndian(m.source, 4), BigEndian(m.destination, 4), BigEndian(m.session, 4);
    var d, n := m.data + (a + b + c), |m.data|;
    assert d[..n] == m.data && d[n..n + 4] == a && d[n + 4..n + 8] == b && d[n + 8..] == c;
  }

  /** One frame in front of a stream: read back if and only if its length has 24 bits, and otherwise the link closes. */
  lemma FrameBack(m: Msg, tail: Bytes)
    requires Fits(m)
    ensures var t := Unpack(tail);
      Small(m) ==> Unpack(Framed(m) + tail) == Parsed([m] + t.msgs, t.rest, t.end)
    ensures !Small(m) ==> Unpack(Framed(m) + tail) == Parsed([], [], Closed)
  {
    hide LengthOf, MsgOf, BigEndian, Cookie;
    var n, body := |m.data| + CookieLength, m.data + Cookie(m);
    CookieBack(m);
    var s := Framed(m) + tail;
    LengthBack(n, body + tail);
    assert s == BigEndian(n, 4) + (body + tail);
    if Small(m) {
      assert s[4..4 + n] == body && s[4 + n..] == tail;
      UnpackFirst(s);
    }
  }

  /** A stream of frames that are small enough comes apart into the messages that went in. */
  lemma {:induction false} FramesBack(ms: seq<Msg>)
    requires forall i :: 0 <= i < |ms| ==> Small(ms[i])
    ensures Unpack(Frames(ms)) == Parsed(ms, [], Going)
  {
    hide Framed, Unpack;
    if ms == [] {
      NothingIn();
    } else {
      var front, m := ms[..|ms| - 1], ms[|ms| - 1];
      FramesBack(front);
      UnpackAppend(Frames(front), Framed(m));
      FrameBack(m, []);
      NothingIn();
      assert [] + Framed(m) == Framed(m) && Framed(m) + [] == Framed(m);
      assert front + [m] == ms;
    }
  }

  lemma NothingIn()
    ensures Unpack([]) == Parsed([], [], Going)
  {
  }

  /** The stream in chunks. */
  function UnpackAll(rest: Bytes, chunks: seq<Bytes>): Parsed
    decreases |chunks|
  {
    if chunks == [] then Parsed([], rest, Going)
    else
      var p := Unpack(rest + chunks[0]);
      if p.end != Going then p
      else
        var t := UnpackAll(p.rest, chunks[1..]);
        Parsed(p.msgs + t.msgs, t.rest, t.end)
  }

  function Joined(chunks: seq<Bytes>): Bytes {
    if chunks == [] then [] else chunks[0] + Joined(chunks[1..])
  }

  /** However a stream is cut, the same comes out. */
  lemma {:induction false} AnyCutting(rest: Bytes, chunks: seq<Bytes>)
    requires Unpack(rest) == Parsed([], rest, Going)
    ensures UnpackAll(rest, chunks) == Unpack(rest + Joined(chunks))
    decreases |chunks|
  {
    hide Unpack;
    if chunks == [] {
      assert rest + [] == rest;
    } else {
      var c, later := chunks[0], Joined(chunks[1..]);
      assert rest + (c + later) == rest + c + later;
      UnpackAppend(rest + c, later);
      var p := Unpack(rest + c);
      if p.end == Going {
        RestUnfinished(rest + c);
        AnyCutting(p.rest, chunks[1..]);
      }
    }
  }

  lemma {:induction false} RestUnfinished(s: Bytes)
    ensures Unpack(s).end == Going ==> Unpack(Unpack(s).rest) == Parsed([], Unpack(s).rest, Going)
    decreases |s|
  {
    hide LengthOf, MsgOf;
    if !Unfinished(s) && s[0] == 0 && LengthOf(s) >= CookieLength {
      RestUnfinished(s[4 + LengthOf(s)..]);
    }
  }
}
