/** The hierarchical timer wheel of skynet_timer.c.

    Five levels of slot lists hold the pending timers; a uint32 clock selects the slots and wraps.  The model keeps
    the slots as arrays of node lists, updated in place as the source does, and proves that the wheel refines a plain
    map from absolute deadlines to event lists. */
module TimerWheel {

  const WRAP := 0x1_0000_0000  // the uint32 clock wraps here
  const HORIZON := 0x8000_0000 // delays are positive `int`s, so strictly below this

  type Word = x: int | 0 <= x < 0x1_0000_0000

  datatype Event = Event(handle: Word, session: int)

  datatype Node = Node(expire: Word, event: Event)

  /** A slot list: near[idx], or t[level][idx]. */
  datatype Slot = Near(idx: nat) | Level(level: nat, idx: nat)

  ghost predicate IsSlot(s: Slot) {
    match s
    case Near(i) => i < 256
    case Level(l, i) => l < 4 && i < 64
  }

  // ------------------------------------------------------------------------------------------------
  // Where add_node puts a node
  // ------------------------------------------------------------------------------------------------

  /** The bits of x above a power of two m, with all lower bits set: x | (m - 1). */
  function OrLow(x: Word, m: nat): int
    requires m > 0
  {
    x / m * m + (m - 1)
  }

  /** Ticks per slot at a level: 1 << (TIME_NEAR_SHIFT + level * TIME_LEVEL_SHIFT). */
  function Unit(level: nat): (u: nat)
    requires level < 4
    ensures u > 0
  {
    match level
    case 0 => 0x100
    case 1 => 0x4000
    case 2 => 0x100000
    case 3 => 0x4000000
  }

  /** The slot for a node expiring at e when the clock shows t. */
  ghost function SlotOf(e: Word, t: Word): (s: Slot)
    ensures IsSlot(s)
  {
    if e / 0x100 == t / 0x100 then Near(e % 0x100)
    else if e / 0x4000 == t / 0x4000 then Level(0, e / 0x100 % 64)
    else if e / 0x100000 == t / 0x100000 then Level(1, e / 0x4000 % 64)
    else if e / 0x4000000 == t / 0x4000000 then Level(2, e / 0x100000 % 64)
    else Level(3, e / 0x4000000 % 64)
  }

  /** Masking with | (m - 1) compares exactly the bits above m. */
  lemma OrLowCompares(x: Word, y: Word, m: nat)
    requires m == 0x100 || m == 0x4000 || m == 0x100000 || m == 0x4000000
    ensures OrLow(x, m) == OrLow(y, m) <==> x / m == y / m
  {
  }

  /** The list that timer_shift cascades when the clock reaches c, if any. */
  ghost function CascadeOf(c: Word): (s: Slot)
    requires c % 0x100 == 0
    ensures IsSlot(s) && s.Level?
  {
    if c / 0x100 % 64 != 0 then Level(0, c / 0x100 % 64)
    else if c / 0x4000 % 64 != 0 then Level(1, c / 0x4000 % 64)
    else if c / 0x100000 % 64 != 0 then Level(2, c / 0x100000 % 64)
    else Level(3, c / 0x4000000 % 64)
  }

  /** Slots numbered: the 256 near slots, then 64 for each level. */
  ghost function Index(s: Slot): (i: nat)
    requires IsSlot(s)
    ensures i < 512
  {
    match s
    case Near(i) => i
    case Level(l, i) => 256 + 64 * l + i
  }

  ghost function IndexOf(e: Word, t: Word): (i: nat)
    ensures i < 512
  {
    Index(SlotOf(e, t))
  }

  /** timer_shift's loop over the digits of a non-zero reading: it stops at the lowest digit that did not wrap to 0,
      and never runs past the highest level. */
  method FindCascade(ct: Word) returns (found: bool, i: nat, idx: nat)
    requires ct != 0
    ensures found <==> ct % 0x100 == 0
    ensures found ==> CascadeOf(ct) == Level(i, idx)
  {
    var mask: nat, rest: nat := 0x100, ct / 0x100;
    i, idx := 0, 0;
    while ct % mask == 0
      invariant i < 4 && mask == Unit(i) && rest == ct / mask
      invariant ct % mask == 0 ==> ct % 0x100 == 0
      invariant i > 0 ==> ct % 0x100 == 0 && ct / 0x100 % 64 == 0 && ct % mask == 0
      invariant i > 1 ==> ct / 0x4000 % 64 == 0
      invariant i > 2 ==> ct / 0x100000 % 64 == 0
      decreases 4 - i
    {
      idx := rest % 64;
      if idx != 0 {
        return true, i, idx;
      }
      NextUnit(ct, i);
      mask, rest, i := mask * 64, rest / 64, i + 1;
    }
    found := false;
  }

  /** Moving up one level in timer_shift's loop. */
  lemma NextUnit(x: Word, i: nat)
    requires i < 4 && x != 0 && x % Unit(i) == 0 && x / Unit(i) % 64 == 0
    ensures i < 3 && Unit(i + 1) == Unit(i) * 64
    ensures x / Unit(i + 1) == x / Unit(i) / 64 && x % Unit(i + 1) == 0
  {
  }

  /** Only the present reading itself belongs in the near slot that timer_execute empties. */
  lemma NearHome(e: Word, t: Word)
    ensures IndexOf(e, t) == t % 0x100 <==> e == t
  {
  }

  /** The number of ticks from clock reading t to the next clock reading e. */
  ghost function Ahead(e: Word, t: Word): (d: nat)
    ensures d < WRAP
  {
    if e >= t then e - t else e - t + WRAP
  }

  ghost function NextTime(t: Word): Word {
    if t + 1 == WRAP then 0 else t + 1
  }

  /** Digit k of a clock reading above the low byte, base 64. */
  ghost function Digit(x: Word, k: nat): nat
    requires k < 4
  {
    match k
    case 0 => x / 0x100 % 64
    case 1 => x / 0x4000 % 64
    case 2 => x / 0x100000 % 64
    case 3 => x / 0x4000000 % 64
  }

  lemma DigitsSum(x: Word)
    ensures x / 0x100 == x / 0x4000 * 64 + Digit(x, 0)
    ensures x / 0x4000 == x / 0x100000 * 64 + Digit(x, 1)
    ensures x / 0x100000 == x / 0x4000000 * 64 + Digit(x, 2)
    ensures x / 0x4000000 == Digit(x, 3)
  {
  }

  /** Readings that agree above a coarser unit agree at no finer unit unless they agree there too. */
  lemma OrLowNested(x: Word, y: Word)
    ensures x / 0x100 == y / 0x100 ==> x / 0x4000 == y / 0x4000
    ensures x / 0x4000 == y / 0x4000 ==> x / 0x100000 == y / 0x100000
    ensures x / 0x100000 == y / 0x100000 ==> x / 0x4000000 == y / 0x4000000
  {
    DigitsSum(x);
    DigitsSum(y);
  }

  /** add_node's choice: compare clock and expiry above ever coarser masks. */
  method ChooseSlot(e: Word, now: Word) returns (s: Slot)
    ensures s == SlotOf(e, now)
  {
    OrLowCompares(e, now, 0x100);
    if OrLow(e, 0x100) == OrLow(now, 0x100) {
      return Near(e % 0x100);
    }
    var i: nat, unit: nat, mask: nat := 0, 0x100, 0x4000;
    while i < 3
      invariant 0 <= i <= 3
      invariant unit == Unit(i) && mask == unit * 64
      invariant e / unit != now / unit
    {
      OrLowCompares(e, now, mask);
      if OrLow(e, mask) == OrLow(now, mask) {
        break;
      }
      i, unit, mask := i + 1, mask, mask * 64;
    }
    OrLowNested(e, now);
    s := Level(i, e / unit % 64);
  }

  /** A tick off a 256 boundary re-slots no pending node. */
  lemma StableOffBoundary(e: Word, t: Word)
    requires NextTime(t) % 0x100 != 0
    ensures SlotOf(e, NextTime(t)) == SlotOf(e, t)
  {
    var c := NextTime(t);
    assert c == t + 1 && c / 0x100 == t / 0x100;
    OrLowNested(c, t);
  }

  /** add_node's loop finds the highest digit in which the expiry differs from the clock. */
  lemma SlotByDigits(e: Word, t: Word)
    ensures SlotOf(e, t) ==
            if Digit(e, 3) != Digit(t, 3) then Level(3, Digit(e, 3))
            else if Digit(e, 2) != Digit(t, 2) then Level(2, Digit(e, 2))
            else if Digit(e, 1) != Digit(t, 1) then Level(1, Digit(e, 1))
            else if Digit(e, 0) != Digit(t, 0) then Level(0, Digit(e, 0))
            else Near(e % 0x100)
  {
    DigitsSum(e);
    DigitsSum(t);
  }

  /** Subtracting one in base 64. */
  lemma Borrow(u: nat, uHigh: nat, uLow: nat, vHigh: nat, vLow: nat)
    requires u == uHigh * 64 + uLow && uLow < 64
    requires u - 1 == vHigh * 64 + vLow && vLow < 64
    ensures if uLow == 0 then vLow == 63 && vHigh == uHigh - 1 else vLow == uLow - 1 && vHigh == uHigh
  {
  }

  /** The digits of the clock before a tick onto a 256 boundary. */
  lemma CarryDigits(t: Word, k: nat)
    requires k < 4
    requires NextTime(t) % 0x100 == 0
    requires forall j :: 0 <= j < k ==> Digit(NextTime(t), j) == 0
    requires Digit(NextTime(t), k) != 0
    ensures forall j :: 0 <= j < k ==> Digit(t, j) == 63
    ensures forall j :: k < j < 4 ==> Digit(t, j) == Digit(NextTime(t), j)
    ensures Digit(NextTime(t), k) == Digit(t, k) + 1
    ensures t % 0x100 == 255
  {
    var c := NextTime(t);
    DigitsSum(c);
    DigitsSum(t);
    assert c == t + 1 && t / 0x100 == c / 0x100 - 1;
    Borrow(c / 0x100, c / 0x4000, Digit(c, 0), t / 0x4000, Digit(t, 0));
    if k > 0 {
      assert Digit(c, 0) == 0;
      Borrow(c / 0x4000, c / 0x100000, Digit(c, 1), t / 0x100000, Digit(t, 1));
      if k > 1 {
        assert Digit(c, 1) == 0;
        Borrow(c / 0x100000, c / 0x4000000, Digit(c, 2), t / 0x4000000, Digit(t, 2));
      }
    }
  }

  /** When the clock's digits below k are full, no pending node agrees with it on every digit from k up. */
  lemma NoLowerNodes(e: Word, t: Word, k: nat)
    requires k < 4
    requires forall j :: 0 <= j < k ==> Digit(t, j) == 63
    requires t % 0x100 == 255
    requires 1 <= Ahead(e, t) < HORIZON
    ensures exists j :: k <= j < 4 && Digit(e, j) != Digit(t, j)
  {
    DigitsSum(e);
    DigitsSum(t);
    assert Digit(t, 0) == 63 || k == 0;
    assert Digit(t, 1) == 63 || k <= 1;
    assert Digit(t, 2) == 63 || k <= 2;
  }

  /** A tick onto a 256 boundary re-slots exactly the nodes of the list that timer_shift cascades. */
  lemma StableOffCascade(e: Word, t: Word)
    requires NextTime(t) % 0x100 == 0
    requires 1 <= Ahead(e, t) < HORIZON
    requires SlotOf(e, t) != CascadeOf(NextTime(t))
    ensures SlotOf(e, NextTime(t)) == SlotOf(e, t)
  {
    var c := NextTime(t);
    SlotByDigits(e, t);
    SlotByDigits(e, c);
    if c == 0 {
      assert Digit(t, 0) == Digit(t, 1) == Digit(t, 2) == Digit(t, 3) == 63;
      NoLowerNodes(e, t, 3);
    } else {
      DigitsSum(c);
      var k: nat := if Digit(c, 0) != 0 then 0 else if Digit(c, 1) != 0 then 1 else if Digit(c, 2) != 0 then 2 else 3;
      CarryDigits(t, k);
      NoLowerNodes(e, t, k);
    }
  }

  // ------------------------------------------------------------------------------------------------
  // Lists and deadlines
  // ------------------------------------------------------------------------------------------------

  /** The events of the nodes expiring at e, in list order. */
  ghost function Pick(list: seq<Node>, e: Word): seq<Event> {
    if list == [] then []
    else if list[0].expire == e then [list[0].event] + Pick(list[1..], e)
    else Pick(list[1..], e)
  }

  lemma {:induction false} PickAppend(list: seq<Node>, n: Node, e: Word)
    ensures Pick(list + [n], e) == Pick(list, e) + if n.expire == e then [n.event] else []
  {
    if list == [] {
      assert list + [n] == [n];
    } else {
      assert (list + [n])[1..] == list[1..] + [n];
      PickAppend(list[1..], n, e);
    }
  }

  /** The events of a list, as dispatch_list pushes them. */
  function Events(list: seq<Node>): seq<Event> {
    seq(|list|, i requires 0 <= i < |list| => list[i].event)
  }

  lemma {:induction false} PickAbsent(list: seq<Node>, i: nat)
    requires i < |list|
    ensures list[i].event in Pick(list, list[i].expire)
  {
    if i > 0 {
      PickAbsent(list[1..], i - 1);
    }
  }

  lemma {:induction false} PickAll(list: seq<Node>, e: Word)
    requires forall i :: 0 <= i < |list| ==> list[i].expire == e
    ensures Pick(list, e) == Events(list)
  {
    if list != [] {
      PickAll(list[1..], e);
      assert Events(list) == [list[0].event] + Events(list[1..]);
    }
  }

  type Agenda = map<nat, seq<Event>>

  /** The events due at absolute tick d. */
  ghost function Due(due: Agenda, d: nat): seq<Event> {
    if d in due then due[d] else []
  }

  /** The plain map after one more timer. */
  ghost function Enter(due: Agenda, d: nat, ev: Event): Agenda {
    due[d := Due(due, d) + [ev]]
  }

  ghost predicate Within(due: Agenda, lo: nat, hi: nat) {
    forall d :: d in due ==> lo <= d < hi
  }

  /** A tick leaves each reading's pending events as they are, and pending readings lie ahead of the clock. */
  lemma DueAdvance(due: Agenda, clock: nat, t: Word, e: Word)
    requires t == clock % WRAP
    requires Within(due, clock + 1, clock + HORIZON)
    ensures Due(due, clock + Ahead(e, t)) == Due(due, clock + 1 + Ahead(e, NextTime(t)))
    ensures Due(due, clock + Ahead(e, t)) != [] ==> 1 <= Ahead(e, t) < HORIZON
  {
  }

  type Delay = x: int | -0x8000_0000 <= x < 0x8000_0000 // the source's `int`

  datatype Request = Request(delay: Delay, event: Event)

  /** The plain map after a list of requests made at absolute tick `clock`. */
  ghost function EnterAll(due: Agenda, clock: nat, rs: seq<Request>): Agenda {
    if rs == [] then due
    else
      var r := rs[|rs| - 1];
      var due' := EnterAll(due, clock, rs[..|rs| - 1]);
      if r.delay <= 0 then due' else Enter(due', clock + r.delay, r.event)
  }

  /** The events of the requests that bypass the wheel. */
  ghost function AtOnce(rs: seq<Request>): seq<Event> {
    if rs == [] then []
    else AtOnce(rs[..|rs| - 1]) + if rs[|rs| - 1].delay <= 0 then [rs[|rs| - 1].event] else []
  }

  // ------------------------------------------------------------------------------------------------
  // The layout invariant
  // ------------------------------------------------------------------------------------------------

  /** The 512 slot lists. */
  type Lists = ls: seq<seq<Node>> | |ls| == 512 witness seq(512, _ => [])

  /** What is pending: the clock in ticks since creation, and the plain map. */
  datatype Book = Book(clock: nat, due: Agenda) {

    /** The clock reading. */
    ghost function Time(): Word { clock % WRAP }

    /** The events waiting for reading e. */
    ghost function Queue(e: Word): seq<Event> { Due(due, clock + Ahead(e, Time())) }

    ghost predicate Timed(lo: nat) { Within(due, lo, clock + HORIZON) }
  }

  /** What is pending once the timers due now are gone and `rs` are booked. */
  ghost function Drained(b: Book, rs: seq<Request>): Book {
    Book(b.clock, EnterAll(b.due - {b.clock}, b.clock, rs))
  }

  /** Every timer for reading e lies, in order, in the slot that add_node would choose at reading `at`. */
  ghost predicate Laid(ls: Lists, b: Book, at: Word) {
    forall i: nat, e: Word :: i < 512 ==> Pick(ls[i], e) == if i == IndexOf(e, at) then b.Queue(e) else []
  }

  ghost predicate LackingAt(ls: Lists, b: Book, rest: seq<Node>, i: nat, e: Word)
    requires i < 512
  {
    if i == IndexOf(e, b.Time()) then Pick(ls[i], e) + Pick(rest, e) == b.Queue(e) else Pick(ls[i], e) == []
  }

  /** As Laid for the present reading, but the nodes of `rest` are still to be added. */
  ghost predicate Lacking(ls: Lists, b: Book, rest: seq<Node>) {
    forall i: nat, e: Word :: i < 512 ==> LackingAt(ls, b, rest, i, e)
  }

  /** The lists after add_node. */
  ghost function Linked(ls: Lists, n: Node, t: Word): Lists {
    var i := IndexOf(n.expire, t);
    ls[i := ls[i] + [n]]
  }

  /** move_list, step by step: adding the next node again. */
  lemma LackingStep(ls: Lists, b: Book, rest: seq<Node>)
    requires rest != [] && Lacking(ls, b, rest)
    ensures Lacking(Linked(ls, rest[0], b.Time()), b, rest[1..])
  {
    hide SlotOf;
    forall i: nat, e: Word | i < 512
      ensures LackingAt(Linked(ls, rest[0], b.Time()), b, rest[1..], i, e)
    {
      PickAppend(ls[i], rest[0], e);
      assert LackingAt(ls, b, rest, i, e);
    }
  }

  /** move_list, at the start: the emptied slot's nodes are what is lacking, when only they change slot. */
  lemma LackingStart(ls: Lists, b: Book, prev: Word, c: nat)
    requires c < 512 && Laid(ls, b, prev)
    requires forall e: Word :: b.Queue(e) != [] && IndexOf(e, prev) != c ==> IndexOf(e, b.Time()) == IndexOf(e, prev)
    ensures Lacking(ls[c := []], b, ls[c])
  {
    hide SlotOf;
    var ls', rest := ls[c := []], ls[c];
    forall i: nat, e: Word | i < 512
      ensures LackingAt(ls', b, rest, i, e)
    {
      assert Pick(ls[i], e) == if i == IndexOf(e, prev) then b.Queue(e) else [];
      assert Pick(ls[c], e) == if c == IndexOf(e, prev) then b.Queue(e) else [];
    }
  }

  lemma LackingNone(ls: Lists, b: Book)
    requires Lacking(ls, b, [])
    ensures Laid(ls, b, b.Time())
  {
    hide SlotOf;
    forall i: nat, e: Word | i < 512
      ensures Pick(ls[i], e) == if i == IndexOf(e, b.Time()) then b.Queue(e) else []
    {
      assert LackingAt(ls, b, [], i, e);
    }
  }

  /** The clock moves on: the layout for the old reading holds of the same events. */
  lemma LaidAdvance(ls: Lists, b: Book, b': Book)
    requires b.Timed(b.clock + 1) && Laid(ls, b, b.Time())
    requires b' == b.(clock := b.clock + 1)
    ensures Laid(ls, b', b.Time())
    ensures forall e: Word :: b'.Queue(e) != [] ==> 1 <= Ahead(e, b.Time()) < HORIZON
    ensures b'.Time() == NextTime(b.Time())
  {
    hide SlotOf;
    forall e: Word
      ensures b'.Queue(e) == b.Queue(e) && (b'.Queue(e) != [] ==> 1 <= Ahead(e, b.Time()) < HORIZON)
    {
      DueAdvance(b.due, b.clock, b.Time(), e);
    }
    forall i: nat, e: Word | i < 512
      ensures Pick(ls[i], e) == if i == IndexOf(e, b.Time()) then b'.Queue(e) else []
    {
    }
  }

  /** Off a 256 boundary there is nothing to move. */
  lemma LaidOffBoundary(ls: Lists, b: Book, prev: Word)
    requires Laid(ls, b, prev) && b.Time() == NextTime(prev) && b.Time() % 0x100 != 0
    ensures Laid(ls, b, b.Time())
  {
    hide SlotOf;
    forall i: nat, e: Word | i < 512
      ensures Pick(ls[i], e) == if i == IndexOf(e, b.Time()) then b.Queue(e) else []
    {
      StableOffBoundary(e, prev);
      assert Pick(ls[i], e) == if i == IndexOf(e, prev) then b.Queue(e) else [];
    }
  }

  /** On a 256 boundary only the cascaded slot's timers move. */
  lemma MovesOnlyCascade(b: Book, prev: Word)
    requires b.Time() == NextTime(prev) && b.Time() % 0x100 == 0
    requires forall e: Word :: b.Queue(e) != [] ==> 1 <= Ahead(e, prev) < HORIZON
    ensures forall e: Word :: b.Queue(e) != [] && IndexOf(e, prev) != Index(CascadeOf(b.Time())) ==>
                                IndexOf(e, b.Time()) == IndexOf(e, prev)
  {
    forall e: Word | b.Queue(e) != [] && IndexOf(e, prev) != Index(CascadeOf(b.Time()))
      ensures IndexOf(e, b.Time()) == IndexOf(e, prev)
    {
      StableOffCascade(e, prev);
    }
  }

  /** The near slot of the present reading holds exactly the timers due now, in order. */
  lemma DrainList(ls: Lists, b: Book)
    requires Laid(ls, b, b.Time())
    ensures Events(ls[b.Time() % 0x100]) == Due(b.due, b.clock)
  {
    hide SlotOf;
    var now := b.Time();
    NearHome(now, now);
    var list := ls[now % 0x100];
    assert Pick(list, now) == b.Queue(now);
    forall i | 0 <= i < |list|
      ensures list[i].expire == now
    {
      PickAbsent(list, i);
      NearHome(list[i].expire, now);
    }
    PickAll(list, now);
  }

  /** Emptying that slot removes exactly the timers due now. */
  lemma DrainLaid(ls: Lists, b: Book)
    requires Laid(ls, b, b.Time()) && b.Timed(b.clock)
    ensures var b' := b.(due := b.due - {b.clock});
            b'.Timed(b.clock + 1) && Laid(ls[b.Time() % 0x100 := []], b', b.Time())
  {
    hide SlotOf;
    var now := b.Time();
    var b' := b.(due := b.due - {b.clock});
    var ls' := ls[now % 0x100 := []];
    forall i: nat, e: Word | i < 512
      ensures Pick(ls'[i], e) == if i == IndexOf(e, now) then b'.Queue(e) else []
    {
      NearHome(e, now);
      assert Pick(ls[i], e) == if i == IndexOf(e, now) then b.Queue(e) else [];
      assert e != now ==> b'.Queue(e) == b.Queue(e);
    }
  }

  /** Linking a node for reading b.Time() + d books its event d ticks ahead. */
  lemma AddLaid(ls: Lists, b: Book, d: nat, ev: Event)
    requires b.Timed(b.clock + 1) && Laid(ls, b, b.Time()) && 1 <= d < HORIZON
    ensures var b' := b.(due := Enter(b.due, b.clock + d, ev));
            b'.Timed(b.clock + 1) && Laid(Linked(ls, Node((d + b.Time()) % WRAP, ev), b.Time()), b', b.Time())
  {
    hide SlotOf;
    var now := b.Time();
    var n := Node((d + now) % WRAP, ev);
    assert Ahead(n.expire, now) == d;
    var b' := b.(due := Enter(b.due, b.clock + d, ev));
    var ls' := Linked(ls, n, now);
    forall i: nat, e: Word | i < 512
      ensures Pick(ls'[i], e) == if i == IndexOf(e, now) then b'.Queue(e) else []
    {
      PickAppend(ls[i], n, e);
      assert Pick(ls[i], e) == if i == IndexOf(e, now) then b.Queue(e) else [];
      assert e == n.expire <==> Ahead(e, now) == d;
    }
  }

  // ------------------------------------------------------------------------------------------------
  // The wheel
  // ------------------------------------------------------------------------------------------------

  class Timer {
    const near: array<seq<Node>>
    const t: array2<seq<Node>>
    var time: Word
    ghost var book: Book // the plain map that the wheel refines

    ghost predicate Shape() {
      near.Length == 256 && t.Length0 == 4 && t.Length1 == 64
    }

    ghost function Content(): (ls: Lists)
      requires Shape()
      reads near, t
    {
      seq(512, (i: int) requires 0 <= i < 512 reads near, t =>
        if i < 256 then near[i] else t[(i - 256) / 64, (i - 256) % 64])
    }

    ghost predicate Valid()
      reads this, near, t
    {
      && Shape() && time == book.Time()
      && book.Timed(book.clock + 1)
      && Laid(Content(), book, time)
    }

    constructor ()
      ensures Valid() && time == 0 && book == Book(0, map[])
      ensures fresh(near) && fresh(t)
    {
      near := new seq<Node>[256](_ => []);
      t := new seq<Node>[4, 64]((_, _) => []);
      time := 0;
      book := Book(0, map[]);
    }

    /** add_node: append to the slot picked by the highest differing clock digit. */
    method AddNode(node: Node)
      requires Shape()
      modifies near, t
      ensures Content() == Linked(old(Content()), node, time)
    {
      var slot := ChooseSlot(node.expire, time);
      hide SlotOf;
      match slot {
        case Near(idx) => near[idx] := near[idx] + [node];
        case Level(i, idx) => t[i, idx] := t[i, idx] + [node];
      }
    }

    /** move_list: empty one slot and add its nodes again, in order, for the present reading. */
    method MoveList(level: nat, idx: nat, ghost prev: Word)
      requires Shape() && level < 4 && idx < 64 && time == book.Time() && Laid(Content(), book, prev)
      requires forall e: Word :: book.Queue(e) != [] && IndexOf(e, prev) != Index(Level(level, idx)) ==>
                                   IndexOf(e, time) == IndexOf(e, prev)
      modifies near, t
      ensures Laid(Content(), book, time)
    {
      hide SlotOf, Laid, Lacking, Linked;
      LackingStart(Content(), book, prev, Index(Level(level, idx)));
      var list := t[level, idx];
      t[level, idx] := [];
      assert Content() == old(Content())[Index(Level(level, idx)) := []];
      var k := 0;
      assert list[0..] == list;
      while k < |list|
        invariant 0 <= k <= |list|
        invariant Lacking(Content(), book, list[k..])
      {
        LackingStep(Content(), book, list[k..]);
        AddNode(list[k]);
        assert list[k..][1..] == list[k + 1..];
        k := k + 1;
      }
      assert list[k..] == [];
      LackingNone(Content(), book);
    }

    /** timer_shift: advance the clock and cascade the one list whose nodes change slot. */
    method Shift()
      requires Valid()
      modifies this, near, t
      ensures Shape() && time == book.Time() && Laid(Content(), book, time)
      ensures book == old(book).(clock := old(book.clock) + 1)
    {
      hide SlotOf, Laid;
      ghost var prev := time;
      var ct := if time + 1 == WRAP then 0 else time + 1;
      LaidAdvance(Content(), book, book.(clock := book.clock + 1));
      time := ct;
      book := book.(clock := book.clock + 1);
      if ct % 0x100 == 0 {
        MovesOnlyCascade(book, prev);
      } else {
        LaidOffBoundary(Content(), book, prev);
      }
      if ct == 0 {
        MoveList(3, 0, prev);
      } else {
        var found, i, idx := FindCascade(ct);
        if found {
          MoveList(i, idx, prev);
        }
      }
    }

    /** timer_add, for a positive delay. */
    method TimerAdd(ev: Event, delay: int)
      requires Valid() && 1 <= delay < HORIZON
      modifies this, near, t
      ensures Valid()
      ensures book == old(book).(due := Enter(old(book.due), old(book.clock) + delay, ev))
    {
      hide Laid, Linked;
      AddLaid(Content(), book, delay, ev);
      AddNode(Node((delay + time) % WRAP, ev));
      book := book.(due := Enter(book.due, book.clock + delay, ev));
    }

    /** skynet_timeout: a delay <= 0 bypasses the wheel and is pushed at once. */
    method Timeout(r: Request) returns (now: seq<Event>)
      requires Valid()
      modifies this, near, t
      ensures Valid()
      ensures now == if r.delay <= 0 then [r.event] else []
      ensures book == old(book).(due := EnterAll(old(book.due), old(book.clock), [r]))
    {
      if r.delay <= 0 {
        now := [r.event];
      } else {
        TimerAdd(r.event, r.delay);
        now := [];
      }
    }

    /** The requests admitted while the lock is free. */
    method Serve(window: seq<Request>) returns (now: seq<Event>)
      requires Valid()
      modifies this, near, t
      ensures Valid()
      ensures now == AtOnce(window)
      ensures book == old(book).(due := EnterAll(old(book.due), old(book.clock), window))
    {
      hide Laid, Within;
      now := [];
      var k := 0;
      while k < |window|
        invariant 0 <= k <= |window| && Valid()
        invariant now == AtOnce(window[..k])
        invariant book == old(book).(due := EnterAll(old(book.due), old(book.clock), window[..k]))
      {
        var p := Timeout(window[k]);
        now := now + p;
        assert window[..k + 1][..k] == window[..k];
        k := k + 1;
      }
      assert window[..k] == window;
    }

    /** link_clear on the near slot of the present reading. */
    method ClearNear() returns (list: seq<Node>)
      requires Shape() && time == book.Time() && book.Timed(book.clock) && Laid(Content(), book, time)
      modifies this, near
      ensures Valid() && Events(list) == Due(old(book.due), book.clock)
      ensures list == old(near[time % 0x100])
      ensures book == Drained(old(book), [])
    {
      hide Laid, SlotOf;
      ghost var ls: Lists := Content()[time % 0x100 := []];
      DrainList(Content(), book);
      DrainLaid(Content(), book);
      list := near[time % 0x100];
      near[time % 0x100] := [];
      book := book.(due := book.due - {book.clock});
      assert Laid(ls, book, time);
      assert Content() == ls;
    }

    /** timer_execute: empty the near slot of the present reading, releasing the lock while its events are pushed.
        The requests of `window` arrive in that time; the slot stays empty, so the loop runs at most once. */
    method Execute(window: seq<Request>) returns (fired: seq<Event>, now: seq<Event>, released: bool)
      requires Shape() && time == book.Time() && book.Timed(book.clock) && Laid(Content(), book, time)
      modifies this, near, t
      ensures Valid()
      ensures fired == Due(old(book.due), old(book.clock))
      ensures released <==> fired != []
      ensures now == if released then AtOnce(window) else []
      ensures book == Drained(old(book), if released then window else [])
    {
      hide Laid, SlotOf;
      var idx := time % 0x100;
      fired, now, released := [], [], false;
      DrainList(Content(), book);
      while near[idx] != []
        invariant idx == time % 0x100
        invariant Shape() && time == book.Time() && book.Timed(book.clock) && Laid(Content(), book, time)
        invariant released ==> near[idx] == [] && Valid() && fired == Due(old(book.due), old(book.clock)) != []
        invariant released ==> now == AtOnce(window) && book == Drained(old(book), window)
        invariant !released ==> unchanged(this, near, t) && fired == [] && now == []
        invariant Events(near[idx]) == Due(book.due, book.clock)
        decreases if released then 0 else 1
      {
        var list := ClearNear();
        fired, released := fired + Events(list), true;
        now := Serve(window);
        DrainList(Content(), book);
      }
      if !released {
        DrainLaid(Content(), book);
        assert Content()[idx := []] == Content();
        book := book.(due := book.due - {book.clock});
      }
    }

    /** timer_update: one tick.  `window` are requests that wait for the lock while the update runs; they are admitted
        when timer_execute releases it, or else once the update is over. */
    method Update(window: seq<Request>) returns (fired: seq<Event>, now: seq<Event>)
      requires Valid()
      modifies this, near, t
      ensures Valid()
      ensures fired == Due(old(book.due), book.clock)
      ensures now == AtOnce(window)
      ensures book.clock == old(book.clock) + 1
      ensures book.due == EnterAll(old(book.due) - {book.clock}, book.clock, window)
    {
      hide Laid, EnterAll;
      var rare, first, released := Execute(window);
      NothingOverdue(old(book));
      assert rare == [] && book == Drained(old(book), []);
      Shift();
      EnterNone(book.due - {book.clock}, book.clock);
      fired, first, released := Execute(window);
      if released {
        now := first;
      } else {
        now := Serve(window);
      }
    }
  }

  /** At rest no timer is due for the present tick, so the first timer_execute of an update finds nothing. */
  lemma NothingOverdue(b: Book)
    requires b.Timed(b.clock + 1)
    ensures Due(b.due, b.clock) == []
    ensures Drained(b, []) == b
  {
    assert b.due - {b.clock} == b.due;
  }

  lemma EnterNone(due: Agenda, clock: nat)
    ensures EnterAll(due, clock, []) == due
  {
  }

  // ------------------------------------------------------------------------------------------------
  // Whole runs
  // ------------------------------------------------------------------------------------------------

  /** One call on the timer: skynet_timeout, or timer_update with the requests that arrive while it runs. */
  datatype Op = Ask(r: Request) | Tick(window: seq<Request>)

  function Requests(op: Op): seq<Request> {
    match op
    case Ask(r) => [r]
    case Tick(window) => window
  }

  ghost function Ticks(ops: seq<Op>): nat {
    if ops == [] then 0
    else Ticks(ops[..|ops| - 1]) + if ops[|ops| - 1].Tick? then 1 else 0
  }

  /** The timers set in a run, in order, each with the tick it was set for. */
  ghost function Booked(ops: seq<Op>): seq<(nat, Event)> {
    if ops == [] then [] else Booked(ops[..|ops| - 1]) + Entries(Requests(ops[|ops| - 1]), Ticks(ops))
  }

  ghost function Entries(rs: seq<Request>, clock: nat): seq<(nat, Event)> {
    if rs == [] then []
    else
      var r := rs[|rs| - 1];
      var es := Entries(rs[..|rs| - 1], clock);
      if r.delay <= 0 then es else es + [(clock + r.delay, r.event)]
  }

  /** The events set for tick d, in the order they were set. */
  ghost function SetFor(booked: seq<(nat, Event)>, d: nat): seq<Event> {
    if booked == [] then []
    else SetFor(booked[..|booked| - 1], d) + if booked[|booked| - 1].0 == d then [booked[|booked| - 1].1] else []
  }

  lemma {:induction false} SetForConcat(a: seq<(nat, Event)>, b: seq<(nat, Event)>, d: nat)
    ensures SetFor(a + b, d) == SetFor(a, d) + SetFor(b, d)
  {
    if b == [] {
      assert a + b == a;
    } else {
      SetForConcat(a, b[..|b| - 1], d);
      assert (a + b)[..|a + b| - 1] == a + b[..|b| - 1];
    }
  }

  lemma EnterDue(due: Agenda, es: seq<(nat, Event)>, k: nat, ev: Event, d: nat)
    ensures Due(Enter(due, k, ev), d) == Due(due, d) + if d == k then [ev] else []
    ensures SetFor(es + [(k, ev)], d) == SetFor(es, d) + if d == k then [ev] else []
  {
    assert (es + [(k, ev)])[..|es|] == es;
  }

  /** The plain map after a list of requests, read off at one deadline. */
  lemma {:induction false} EnterAllDue(due: Agenda, clock: nat, rs: seq<Request>, d: nat)
    ensures Due(EnterAll(due, clock, rs), d) == Due(due, d) + SetFor(Entries(rs, clock), d)
    ensures d <= clock ==> SetFor(Entries(rs, clock), d) == []
  {
    if rs != [] {
      var rs', r := rs[..|rs| - 1], rs[|rs| - 1];
      EnterAllDue(due, clock, rs', d);
      if r.delay > 0 {
        var es, k := Entries(rs', clock), clock + r.delay;
        assert Entries(rs, clock) == es + [(k, r.event)];
        EnterDue(EnterAll(due, clock, rs'), es, k, r.event, d);
      }
    }
  }

  /** Each timer set for tick d is among the events of tick d exactly as often as it was set. */
  lemma {:induction false} SetForCounts(booked: seq<(nat, Event)>, d: nat, ev: Event)
    ensures multiset(SetFor(booked, d))[ev] == multiset(booked)[(d, ev)]
  {
    if booked != [] {
      var rest, last := booked[..|booked| - 1], booked[|booked| - 1];
      SetForCounts(rest, d, ev);
      assert booked == rest + [last];
      assert multiset(booked)[(d, ev)] == multiset(rest)[(d, ev)] + if last == (d, ev) then 1 else 0;
      if last.0 == d {
        assert multiset(SetFor(rest, d) + [last.1])[ev] ==
          multiset(SetFor(rest, d))[ev] + if last.1 == ev then 1 else 0;
      } else {
        assert SetFor(booked, d) == SetFor(rest, d);
      }
    }
  }

  /** What a run has fired so far, and what is still pending, is determined by the timers set. */
  ghost predicate Tracks(b: Book, fired: seq<seq<Event>>, ops: seq<Op>) {
    && b.clock == |fired| == Ticks(ops)
    && (forall k :: 0 <= k < |fired| ==> fired[k] == SetFor(Booked(ops), k + 1))
    && (forall d: nat :: d > b.clock ==> Due(b.due, d) == SetFor(Booked(ops), d))
  }

  lemma SetForNext(ops: seq<Op>, op: Op, d: nat)
    ensures Ticks(ops + [op]) == Ticks(ops) + if op.Tick? then 1 else 0
    ensures SetFor(Booked(ops + [op]), d) ==
            SetFor(Booked(ops), d) + SetFor(Entries(Requests(op), Ticks(ops + [op])), d)
  {
    assert (ops + [op])[..|ops|] == ops;
    SetForConcat(Booked(ops), Entries(Requests(op), Ticks(ops + [op])), d);
  }

  lemma TracksAsk(b: Book, fired: seq<seq<Event>>, ops: seq<Op>, r: Request)
    requires Tracks(b, fired, ops)
    ensures Tracks(b.(due := EnterAll(b.due, b.clock, [r])), fired, ops + [Ask(r)])
  {
    hide SetFor, Booked, Entries, EnterAll, Ticks;
    SetForNext(ops, Ask(r), 0);
    forall d: nat
      ensures SetFor(Booked(ops + [Ask(r)]), d) ==
              if d > b.clock then Due(EnterAll(b.due, b.clock, [r]), d) else SetFor(Booked(ops), d)
    {
      SetForNext(ops, Ask(r), d);
      EnterAllDue(b.due, b.clock, [r], d);
    }
  }

  lemma TracksTick(b: Book, fired: seq<seq<Event>>, ops: seq<Op>, rs: seq<Request>, b': Book)
    requires Tracks(b, fired, ops)
    requires b' == Book(b.clock + 1, EnterAll(b.due - {b.clock + 1}, b.clock + 1, rs))
    ensures Tracks(b', fired + [Due(b.due, b'.clock)], ops + [Tick(rs)])
  {
    hide SetFor, Booked, Entries, EnterAll, Ticks;
    var ops' := ops + [Tick(rs)];
    SetForNext(ops, Tick(rs), 0);
    forall d: nat
      ensures SetFor(Booked(ops'), d) == if d > b'.clock then Due(b'.due, d) else SetFor(Booked(ops), d)
    {
      SetForNext(ops, Tick(rs), d);
      EnterAllDue(b.due - {b'.clock}, b'.clock, rs, d);
    }
  }

  /** Every interleaving of skynet_timeout and timer_update: tick k fires exactly the timers set for it, in the order
      they were set, across every wrap of the clock; requests with delay <= 0 are pushed at once. */
  method Drive(ops: seq<Op>) returns (fired: seq<seq<Event>>, atOnce: seq<seq<Event>>)
    ensures |fired| == Ticks(ops)
    ensures forall k :: 0 <= k < |fired| ==> fired[k] == SetFor(Booked(ops), k + 1)
    ensures |atOnce| == |ops|
    ensures forall k :: 0 <= k < |ops| ==> atOnce[k] == AtOnce(Requests(ops[k]))
  {
    hide Laid, SetFor, Booked, EnterAll, AtOnce, Ticks, Due;
    var timer := new Timer();
    TracksNone();
    fired, atOnce := [], [];
    var k := 0;
    while k < |ops|
      invariant 0 <= k <= |ops| == |ops|
      invariant timer.Valid() && fresh(timer) && fresh(timer.near) && fresh(timer.t)
      invariant Tracks(timer.book, fired, ops[..k])
      invariant |atOnce| == k && forall i :: 0 <= i < k ==> atOnce[i] == AtOnce(Requests(ops[i]))
    {
      ghost var b := timer.book;
      match ops[k] {
        case Ask(r) =>
          TracksAsk(b, fired, ops[..k], r);
          var now := timer.Timeout(r);
          AtOnceSingle(r);
          atOnce := atOnce + [now];
        case Tick(window) =>
          var list, now := timer.Update(window);
          TracksTick(b, fired, ops[..k], window, timer.book);
          fired, atOnce := fired + [list], atOnce + [now];
      }
      assert ops[..k + 1] == ops[..k] + [ops[k]];
      k := k + 1;
    }
    assert ops[..k] == ops;
  }

  lemma TracksNone()
    ensures Tracks(Book(0, map[]), [], [])
  {
  }

  lemma AtOnceSingle(r: Request)
    ensures AtOnce([r]) == if r.delay <= 0 then [r.event] else []
  {
    assert [r][..0] == [];
  }
}
