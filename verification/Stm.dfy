/**
 * The spin reader/writer lock of skynet/skynet-src/rwlock.h and, on top of
 * it, the copy-on-update objects of skynet/lualib-src/lua-stm.c, as one
 * transition system. Every step is one load, store or atomic operation on
 * shared memory; any number of threads, readers and writers, interleave.
 */
module Stm {

  /** A copy, numbered in order of allocation; -1 is the null pointer. */
  type Ptr = int

  /** Where a thread is in lread or ldeletereader (R, `bye` for the latter), stm_update (W) or stm_release (D). */
  datatype Pc =
    | Idle
    | RSpin(bye: bool)        // while (lock->write)
    | RAdd(bye: bool)
    | RCheck(bye: bool)       // if (lock->write)
    | RBack(bye: bool)
    | RIn(bye: bool)          // lock held, about to load obj->copy
    | RLoaded(c: Ptr)         // about to increment copy->reference
    | RHave(c: Ptr)           // about to unlock
    | ROut                    // ldeletereader: about to unlock
    | Compare(c: Ptr)         // lread: copy == box->lastcopy ?
    | DropLast                // ldeletereader: about to release box->lastcopy
    | Freeing(c: Ptr)         // the count reached 0
    | WSpin(n: Ptr)           // has a new copy, about to test-and-set lock->write
    | WWait(n: Ptr)           // while (lock->read)
    | WIn(n: Ptr)             // lock held, about to load obj->copy
    | WGot(n: Ptr, o: Ptr)    // about to store obj->copy
    | WUnlock(o: Ptr)
    | WRel(o: Ptr)            // about to release the old copy
    | DSpin
    | DWait
    | DIn
    | DGot(c: Ptr)            // about to decrement the count of obj->copy
    | DFree(c: Ptr)
    | DNull(c: Ptr)           // about to clear obj->copy
    | DUnlock

  datatype Thread = Thread(pc: Pc, last: Ptr)

  /** `frees` counts how often each copy has been returned to the allocator. */
  datatype State = State(write: bool, read: int, copy: Ptr, refs: seq<int>, frees: seq<nat>, ts: seq<Thread>)

  datatype Choice = Read | Bye | Update | Delete

  // ------------------------------------------------------------------- steps

  function Goto(s: State, i: nat, pc: Pc): State
    requires i < |s.ts|
  {
    s.(ts := s.ts[i := s.ts[i].(pc := pc)])
  }

  predicate Known(s: State, c: Ptr) {
    -1 <= c < |s.refs| && |s.frees| == |s.refs|
  }

  /** stm_releasecopy up to the decrement: go on to `free` when it reaches 0, else to `done`. */
  function Release(s: State, i: nat, c: Ptr, free: Pc, done: Pc): State
    requires i < |s.ts| && Known(s, c)
  {
    if c < 0 then Goto(s, i, done)
    else Goto(s.(refs := s.refs[c := s.refs[c] - 1]), i, if s.refs[c] - 1 == 0 then free else done)
  }

  function SetLast(s: State, i: nat, c: Ptr): State
    requires i < |s.ts|
  {
    s.(ts := s.ts[i := s.ts[i].(last := c)])
  }

  /** Copies that a thread still names exist. */
  predicate Sane(s: State, t: Thread) {
    Known(s, s.copy) && Known(s, t.last) &&
    match t.pc
    case RLoaded(c) => Known(s, c)
    case RHave(c) => Known(s, c)
    case Compare(c) => Known(s, c)
    case Freeing(c) => Known(s, c) && c >= 0
    case WSpin(n) => Known(s, n) && n >= 0
    case WWait(n) => Known(s, n) && n >= 0
    case WIn(n) => Known(s, n) && n >= 0
    case WGot(n, o) => Known(s, n) && n >= 0 && Known(s, o)
    case WUnlock(o) => Known(s, o)
    case WRel(o) => Known(s, o)
    case DGot(c) => Known(s, c)
    case DFree(c) => Known(s, c) && c >= 0
    case DNull(c) => Known(s, c)
    case _ => true
  }

  function Begin(s: State, i: nat, ch: Choice): State
    requires i < |s.ts|
  {
    match ch
    case Read => Goto(s, i, RSpin(false))
    case Bye => Goto(s, i, RSpin(true))
    case Update => Goto(s.(refs := s.refs + [1], frees := s.frees + [0]), i, WSpin(|s.refs|))
    case Delete => Goto(s, i, DSpin)
  }

  function Reader(s: State, i: nat): State
    requires i < |s.ts| && Sane(s, s.ts[i])
  {
    var t := s.ts[i];
    match t.pc
    case RSpin(bye) => if s.write then s else Goto(s, i, RAdd(bye))
    case RAdd(bye) => Goto(s.(read := s.read + 1), i, RCheck(bye))
    case RCheck(bye) => Goto(s, i, if s.write then RBack(bye) else RIn(bye))
    case RBack(bye) => Goto(s.(read := s.read - 1), i, RSpin(bye))
    case RIn(bye) => Goto(s, i, if bye then ROut else RLoaded(s.copy))
    case RLoaded(c) => Goto(if c < 0 then s else s.(refs := s.refs[c := s.refs[c] + 1]), i, RHave(c))
    case RHave(c) => Goto(s.(read := s.read - 1), i, Compare(c))
    case ROut => Goto(s.(read := s.read - 1), i, DropLast)
    case Compare(c) =>
      if c == t.last then Release(s, i, c, Freeing(c), Idle)
      else SetLast(Release(s, i, t.last, Freeing(t.last), Idle), i, c)
    case DropLast => SetLast(Release(s, i, t.last, Freeing(t.last), Idle), i, -1)
    case Freeing(c) => Goto(s.(frees := s.frees[c := s.frees[c] + 1]), i, Idle)
    case _ => s
  }

  function Writer(s: State, i: nat): State
    requires i < |s.ts| && Sane(s, s.ts[i])
  {
    match s.ts[i].pc
    case WSpin(n) => if s.write then s else Goto(s.(write := true), i, WWait(n))
    case WWait(n) => if s.read != 0 then s else Goto(s, i, WIn(n))
    case WIn(n) => Goto(s, i, WGot(n, s.copy))
    case WGot(n, o) => Goto(s.(copy := n), i, WUnlock(o))
    case WUnlock(o) => Goto(s.(write := false), i, WRel(o))
    case WRel(o) => Release(s, i, o, Freeing(o), Idle)
    case DSpin => if s.write then s else Goto(s.(write := true), i, DWait)
    case DWait => if s.read != 0 then s else Goto(s, i, DIn)
    case DIn => Goto(s, i, DGot(s.copy))
    case DGot(c) => Release(s, i, c, DFree(c), DNull(c))
    case DFree(c) => Goto(s.(frees := s.frees[c := s.frees[c] + 1]), i, DNull(c))
    case DNull(c) => Goto(s.(copy := -1), i, DUnlock)
    case DUnlock => Goto(s.(write := false), i, Idle)
    case _ => s
  }

  function Next(s: State, i: nat, ch: Choice): State
    requires i < |s.ts| && Sane(s, s.ts[i])
  {
    if s.ts[i].pc.Idle? then Begin(s, i, ch)
    else if Reads(s.ts[i].pc) then Reader(s, i)
    else Writer(s, i)
  }

  predicate Reads(pc: Pc) {
    pc.RSpin? || pc.RAdd? || pc.RCheck? || pc.RBack? || pc.RIn? || pc.RLoaded? || pc.RHave? || pc.ROut? ||
    pc.Compare? || pc.DropLast? || pc.Freeing?
  }

  // ---------------------------------------------------------- who holds what

  /** Threads that have added themselves to lock->read and not yet taken themselves off. */
  predicate Counted(pc: Pc) {
    pc.RCheck? || pc.RBack? || Inside(pc)
  }

  /** Threads between a successful rlock and its runlock. */
  predicate Inside(pc: Pc) {
    pc.RIn? || pc.RLoaded? || pc.RHave? || pc.ROut?
  }

  /** Threads that have set lock->write and not yet cleared it. */
  predicate Claims(pc: Pc) {
    pc.WWait? || pc.DWait? || Owns(pc)
  }

  /** Threads between wlock and wunlock. */
  predicate Owns(pc: Pc) {
    pc.WIn? || pc.WGot? || pc.WUnlock? || pc.DIn? || pc.DGot? || pc.DFree? || pc.DNull? || pc.DUnlock?
  }

  function One(b: bool): int {
    if b then 1 else 0
  }

  /** References that a program point holds on copy `c`. */
  function PcHolds(pc: Pc, c: Ptr): int {
    match pc
    case RHave(x) => One(x == c)
    case Compare(x) => One(x == c)
    case WSpin(n) => One(n == c)
    case WWait(n) => One(n == c)
    case WIn(n) => One(n == c)
    case WGot(n, _) => One(n == c)
    case WUnlock(o) => One(o == c)
    case WRel(o) => One(o == c)
    case _ => 0
  }

  /** The object's own reference has been given up but obj->copy not yet cleared. */
  predicate GivenUp(pc: Pc, c: Ptr) {
    (pc.DFree? || pc.DNull?) && pc.c == c
  }

  predicate WillFree(pc: Pc, c: Ptr) {
    (pc.Freeing? || pc.DFree?) && pc.c == c
  }

  datatype Weight = Reading | Writing | Holding(c: Ptr) | Giving(c: Ptr) | Releasing(c: Ptr)

  function Of(w: Weight, t: Thread): int {
    match w
    case Reading => One(Counted(t.pc))
    case Writing => One(Claims(t.pc))
    case Holding(c) => PcHolds(t.pc, c) + One(t.last == c)
    case Giving(c) => One(GivenUp(t.pc, c))
    case Releasing(c) => One(WillFree(t.pc, c))
  }

  function Sum(ts: seq<Thread>, w: Weight): int {
    if ts == [] then 0 else Sum(ts[..|ts| - 1], w) + Of(w, ts[|ts| - 1])
  }

  lemma {:induction false} SumUpdate(ts: seq<Thread>, i: nat, t: Thread, w: Weight)
    requires i < |ts|
    ensures Sum(ts[i := t], w) == Sum(ts, w) - Of(w, ts[i]) + Of(w, t)
  {
    hide Of;
    var n := |ts| - 1;
    if i < n {
      SumUpdate(ts[..n], i, t, w);
      assert ts[i := t][..n] == ts[..n][i := t];
    } else {
      assert ts[i := t][..n] == ts[..n];
    }
  }

  lemma OfBounds(w: Weight, t: Thread)
    ensures 0 <= Of(w, t)
  {
  }

  lemma {:induction false} SumBounds(ts: seq<Thread>, w: Weight)
    ensures 0 <= Sum(ts, w)
    ensures forall i :: 0 <= i < |ts| ==> Of(w, ts[i]) <= Sum(ts, w)
  {
    hide Of;
    if ts != [] {
      var n := |ts| - 1;
      SumBounds(ts[..n], w);
      OfBounds(w, ts[n]);
      forall i | 0 <= i < |ts|
        ensures Of(w, ts[i]) <= Sum(ts, w)
      {
        if i < n {
          assert ts[..n][i] == ts[i];
        }
      }
    }
  }

  /** Two threads that both weigh something weigh at least their sum. */
  lemma SumTwo(ts: seq<Thread>, w: Weight, i: nat, j: nat)
    requires i < |ts| && j < |ts| && i != j && w != Holding(-2)
    ensures Of(w, ts[i]) + Of(w, ts[j]) <= Sum(ts, w)
  {
    hide Of, Sum;
    var none := Thread(Idle, -2);
    SumUpdate(ts, i, none, w);
    OfNone(w);
    SumBounds(ts[i := none], w);
    assert ts[i := none][j] == ts[j];
  }

  lemma OfNone(w: Weight)
    ensures w != Holding(-2) ==> Of(w, Thread(Idle, -2)) == 0
    ensures w == Holding(-2) ==> Of(w, Thread(Idle, -2)) == 1
  {
  }

  lemma {:induction false} SumZero(ts: seq<Thread>, w: Weight)
    requires forall i :: 0 <= i < |ts| ==> Of(w, ts[i]) == 0
    ensures Sum(ts, w) == 0
  {
    hide Of;
    if ts != [] {
      SumZero(ts[..|ts| - 1], w);
    }
  }

  /** One weight bounded by another, thread by thread. */
  lemma {:induction false} SumLess(ts: seq<Thread>, v: Weight, w: Weight)
    requires forall i :: 0 <= i < |ts| ==> Of(v, ts[i]) <= Of(w, ts[i])
    ensures Sum(ts, v) <= Sum(ts, w)
  {
    hide Of;
    if ts != [] {
      var n := |ts| - 1;
      forall i | 0 <= i < n
        ensures Of(v, ts[..n][i]) <= Of(w, ts[..n][i])
      {
        assert ts[..n][i] == ts[i];
      }
      SumLess(ts[..n], v, w);
    }
  }

  // ------------------------------------------------------------ the invariant

  /** What a thread inside the lock has loaded from obj->copy is still there. */
  predicate Local(s: State, pc: Pc) {
    match pc
    case RLoaded(c) => c == s.copy
    case WGot(_, o) => o == s.copy
    case DGot(c) => c == s.copy
    case DFree(c) => c == s.copy
    case DNull(c) => c == s.copy
    case _ => true
  }

  /** The count of a copy is the number of references to it; it is freed once the count is 0, and once only. */
  ghost predicate Counts(s: State, c: Ptr)
    requires 0 <= c < |s.refs| == |s.frees|
  {
    s.refs[c] == One(s.copy == c) - Sum(s.ts, Giving(c)) + Sum(s.ts, Holding(c)) &&
    s.frees[c] + Sum(s.ts, Releasing(c)) == One(s.refs[c] == 0)
  }

  ghost predicate Threads(s: State) {
    forall i :: 0 <= i < |s.ts| ==> Sane(s, s.ts[i]) && Local(s, s.ts[i].pc)
  }

  ghost predicate Exclusion(ts: seq<Thread>) {
    forall i, j :: 0 <= i < |ts| && 0 <= j < |ts| ==> !(Inside(ts[i].pc) && Owns(ts[j].pc))
  }

  ghost predicate Good(s: State) {
    Known(s, s.copy) && Threads(s) && Exclusion(s.ts) &&
    s.read == Sum(s.ts, Reading) && One(s.write) == Sum(s.ts, Writing) &&
    forall c :: 0 <= c < |s.refs| ==> Counts(s, c)
  }

  /** How one thread's step from `t` to `u` may change the numbers of copy `c`. */
  predicate Balanced(s: State, s': State, t: Thread, u: Thread, c: Ptr)
    requires 0 <= c < |s.refs| == |s.frees| == |s'.refs| == |s'.frees|
  {
    s'.refs[c] - One(s'.copy == c) + Of(Giving(c), u) - Of(Holding(c), u)
    == s.refs[c] - One(s.copy == c) + Of(Giving(c), t) - Of(Holding(c), t) &&
    s'.frees[c] + Of(Releasing(c), u) - One(s'.refs[c] == 0)
    == s.frees[c] + Of(Releasing(c), t) - One(s.refs[c] == 0)
  }

  /** A step that keeps the invariant, seen from the thread that takes it. */
  ghost predicate Allowed(s: State, s': State, i: nat) {
    i < |s.ts| == |s'.ts| && s'.ts == s.ts[i := s'.ts[i]] && Known(s, s.copy) &&
    var t, u := s.ts[i], s'.ts[i];
    s'.read - Of(Reading, u) == s.read - Of(Reading, t) &&
    One(s'.write) - Of(Writing, u) == One(s.write) - Of(Writing, t) &&
    |s'.refs| == |s.refs| && |s'.frees| == |s.refs| &&
    (forall c :: 0 <= c < |s.refs| ==> Balanced(s, s', t, u, c)) &&
    Sane(s', u) && Local(s', u.pc) &&
    (s'.copy == s.copy || Owns(t.pc)) &&
    (Inside(u.pc) ==> Inside(t.pc) || !s.write) &&
    (Owns(u.pc) ==> Owns(t.pc) || s.read == 0)
  }

  lemma CountsKept(s: State, s': State, i: nat, c: Ptr)
    requires Good(s) && Allowed(s, s', i) && 0 <= c < |s.refs|
    ensures Counts(s', c)
  {
    hide Of, Sum, Sane, Local, Exclusion, Threads, Inside, Owns;
    assert Counts(s, c) && Balanced(s, s', s.ts[i], s'.ts[i], c);
    SumUpdate(s.ts, i, s'.ts[i], Giving(c));
    SumUpdate(s.ts, i, s'.ts[i], Holding(c));
    SumUpdate(s.ts, i, s'.ts[i], Releasing(c));
  }

  /** Nobody else depends on obj->copy while a writer owns the lock. */
  lemma OnlyOwner(s: State, i: nat, j: nat)
    requires Good(s) && i < |s.ts| && j < |s.ts| && i != j && Owns(s.ts[i].pc)
    ensures !Claims(s.ts[j].pc) && !Inside(s.ts[j].pc)
  {
    hide Sum, Sane, Local, Threads, Counts;
    SumTwo(s.ts, Writing, i, j);
  }

  lemma ThreadsKept(s: State, s': State, i: nat)
    requires Good(s) && Allowed(s, s', i)
    ensures Threads(s')
  {
    hide Of, Sum, Exclusion, Counts, Balanced, Owns, Claims, Inside;
    forall j | 0 <= j < |s.ts|
      ensures Sane(s', s'.ts[j]) && Local(s', s'.ts[j].pc)
    {
      assert Sane(s, s.ts[j]) && Local(s, s.ts[j].pc);
      if j != i {
        OtherThread(s, s', i, j);
      }
    }
  }

  lemma OtherThread(s: State, s': State, i: nat, j: nat)
    requires Good(s) && i < |s.ts| && j < |s.ts| && i != j
    requires |s'.refs| == |s.refs| == |s'.frees| && Known(s', s'.copy) && (s'.copy == s.copy || Owns(s.ts[i].pc))
    ensures Sane(s', s.ts[j]) && Local(s', s.ts[j].pc)
  {
    hide Of, Sum, Exclusion, Counts;
    assert Sane(s, s.ts[j]) && Local(s, s.ts[j].pc);
    if s'.copy != s.copy {
      OnlyOwner(s, i, j);
    }
  }

  lemma ExclusionKept(s: State, s': State, i: nat)
    requires Good(s) && Allowed(s, s', i)
    ensures Exclusion(s'.ts)
  {
    hide Sum, Counts, Sane, Local, Threads, Balanced;
    SumBounds(s.ts, Reading);
    SumBounds(s.ts, Writing);
    forall a, b | 0 <= a < |s.ts| && 0 <= b < |s.ts|
      ensures !(Inside(s'.ts[a].pc) && Owns(s'.ts[b].pc))
    {
      assert Of(Reading, s.ts[a]) <= s.read && Of(Writing, s.ts[b]) <= One(s.write);
    }
  }

  lemma Keep(s: State, s': State, i: nat)
    requires Good(s) && Allowed(s, s', i)
    ensures Good(s')
  {
    forall c | 0 <= c < |s'.refs|
      ensures Counts(s', c)
    {
      CountsKept(s, s', i, c);
    }
    ThreadsKept(s, s', i);
    ExclusionKept(s, s', i);
    SumUpdate(s.ts, i, s'.ts[i], Reading);
    SumUpdate(s.ts, i, s'.ts[i], Writing);
    hide Of, Sum, Exclusion, Counts, Threads, Balanced, Sane, Local;
    assert Known(s', s'.copy) by { CopyKnown(s', s'.ts[i]); }
  }

  lemma CopyKnown(s: State, t: Thread)
    requires Sane(s, t)
    ensures Known(s, s.copy)
  {
  }

  // -------------------------------------------------------- counts are enough

  /** Every reference is counted, so what is held is not at 0. */
  lemma RefsCover(s: State, c: Ptr)
    requires Good(s) && 0 <= c < |s.refs|
    ensures Sum(s.ts, Giving(c)) <= One(s.copy == c)
    ensures s.refs[c] >= Sum(s.ts, Holding(c)) >= 0
    ensures forall j :: 0 <= j < |s.ts| ==> Of(Holding(c), s.ts[j]) <= s.refs[c]
  {
    hide Sum, Sane, Exclusion;
    assert Counts(s, c);
    if s.copy == c {
      SumLess(s.ts, Giving(c), Writing);
    } else {
      forall j | 0 <= j < |s.ts|
        ensures Of(Giving(c), s.ts[j]) == 0
      {
        assert Local(s, s.ts[j].pc);
      }
      SumZero(s.ts, Giving(c));
    }
    SumBounds(s.ts, Holding(c));
  }

  /** While no writer owns the lock the object's reference is counted too. */
  lemma ObjectCovers(s: State, i: nat, c: Ptr)
    requires Good(s) && i < |s.ts| && 0 <= c < |s.refs| && s.copy == c
    requires Inside(s.ts[i].pc) || (Owns(s.ts[i].pc) && !GivenUp(s.ts[i].pc, c))
    ensures s.refs[c] >= 1
  {
    hide Sum, Sane, Local;
    assert Counts(s, c);
    forall j | 0 <= j < |s.ts|
      ensures Of(Giving(c), s.ts[j]) == 0
    {
      if Owns(s.ts[i].pc) && j != i {
        OnlyOwner(s, i, j);
      }
    }
    SumZero(s.ts, Giving(c));
    SumBounds(s.ts, Holding(c));
  }

  // ------------------------------------------------------------- every step

  lemma HereSane(s: State, i: nat)
    requires Good(s) && i < |s.ts|
    ensures Sane(s, s.ts[i]) && Local(s, s.ts[i].pc)
  {
  }

  // Steps of the lock protocol itself change no count.

  lemma EntryAllowed(s: State, i: nat)
    requires Good(s) && i < |s.ts| && Sane(s, s.ts[i]) && Local(s, s.ts[i].pc)
    requires var pc := s.ts[i].pc; pc.RSpin? || pc.RAdd?
    ensures Allowed(s, Reader(s, i), i)
  {
    hide Sum, Exclusion, Counts, Threads, Good;
    HereSane(s, i);
  }

  lemma CheckAllowed(s: State, i: nat)
    requires Good(s) && i < |s.ts| && Sane(s, s.ts[i]) && Local(s, s.ts[i].pc)
    requires var pc := s.ts[i].pc; pc.RCheck? || pc.RBack?
    ensures Allowed(s, Reader(s, i), i)
  {
    hide Sum, Exclusion, Counts, Threads, Good;
    HereSane(s, i);
  }

  lemma EnterAllowed(s: State, i: nat)
    requires Good(s) && i < |s.ts| && Sane(s, s.ts[i]) && Local(s, s.ts[i].pc)
    requires var pc := s.ts[i].pc; pc.RIn?
    ensures Allowed(s, Reader(s, i), i)
  {
    hide Sum, Exclusion, Counts, Threads, Good;
    HereSane(s, i);
  }

  lemma LeaveAllowed(s: State, i: nat)
    requires Good(s) && i < |s.ts| && Sane(s, s.ts[i]) && Local(s, s.ts[i].pc)
    requires var pc := s.ts[i].pc; pc.RHave? || pc.ROut?
    ensures Allowed(s, Reader(s, i), i)
  {
    if s.ts[i].pc.RHave? {
      HaveAllowed(s, i);
    } else {
      OutAllowed(s, i);
    }
  }

  lemma HaveAllowed(s: State, i: nat)
    requires Good(s) && i < |s.ts| && Sane(s, s.ts[i]) && Local(s, s.ts[i].pc) && s.ts[i].pc.RHave?
    ensures Allowed(s, Reader(s, i), i)
  {
    hide Sum, Exclusion, Counts, Threads, Good;
    HereSane(s, i);
  }

  lemma OutAllowed(s: State, i: nat)
    requires Good(s) && i < |s.ts| && Sane(s, s.ts[i]) && Local(s, s.ts[i].pc) && s.ts[i].pc.ROut?
    ensures Allowed(s, Reader(s, i), i)
  {
    hide Sum, Exclusion, Counts, Threads, Good;
    HereSane(s, i);
  }

  lemma LoadedAllowed(s: State, i: nat)
    requires Good(s) && i < |s.ts| && Sane(s, s.ts[i]) && Local(s, s.ts[i].pc) && s.ts[i].pc.RLoaded?
    ensures Allowed(s, Reader(s, i), i)
  {
    hide Sum, Exclusion, Counts, Threads;
    var c := s.ts[i].pc.c;
    if c >= 0 {
      ObjectCovers(s, i, c);
    }
  }

  /** Giving back a reference that this thread holds. */
  lemma DropAllowed(s: State, i: nat, c: Ptr, last: Ptr)
    requires Good(s) && i < |s.ts| && Sane(s, s.ts[i])
    requires Known(s, c) && Known(s, last) && (c >= 0 ==> s.refs[c] >= 1)
    requires var pc := s.ts[i].pc; pc.Compare? || pc.DropLast? || pc.WRel?
    requires forall x :: 0 <= x < |s.refs| ==>
      Of(Holding(x), s.ts[i]) == One(x == c) + One(x == last)
    ensures Allowed(s, SetLast(Release(s, i, c, Freeing(c), Idle), i, last), i)
  {
    DropBalanced(s, i, c, last);
    hide Sum, Exclusion, Counts, Threads, Balanced;
  }

  lemma DropBalanced(s: State, i: nat, c: Ptr, last: Ptr)
    requires Good(s) && i < |s.ts| && Sane(s, s.ts[i])
    requires Known(s, c) && Known(s, last) && (c >= 0 ==> s.refs[c] >= 1)
    requires var pc := s.ts[i].pc; pc.Compare? || pc.DropLast? || pc.WRel?
    requires forall x :: 0 <= x < |s.refs| ==>
      Of(Holding(x), s.ts[i]) == One(x == c) + One(x == last)
    ensures var s' := SetLast(Release(s, i, c, Freeing(c), Idle), i, last);
      |s'.ts| == |s.ts| && |s'.refs| == |s.refs| && |s'.frees| == |s.refs| &&
      forall x :: 0 <= x < |s.refs| ==> Balanced(s, s', s.ts[i], s'.ts[i], x)
  {
    hide Sum, Exclusion, Counts, Threads;
    var s' := SetLast(Release(s, i, c, Freeing(c), Idle), i, last);
    forall x | 0 <= x < |s.refs|
      ensures Balanced(s, s', s.ts[i], s'.ts[i], x)
    {
      assert Of(Holding(x), s.ts[i]) == One(x == c) + One(x == last);
    }
  }

  lemma SameLast(s: State, i: nat, c: Ptr)
    requires i < |s.ts| && Known(s, c)
    ensures SetLast(Release(s, i, c, Freeing(c), Idle), i, s.ts[i].last) == Release(s, i, c, Freeing(c), Idle)
  {
    var s' := Release(s, i, c, Freeing(c), Idle);
    assert s'.ts[i := s'.ts[i].(last := s.ts[i].last)] == s'.ts;
  }

  lemma HeldCounted(s: State, i: nat, c: Ptr)
    requires Good(s) && i < |s.ts| && Known(s, c) && (c >= 0 ==> Of(Holding(c), s.ts[i]) >= 1)
    ensures c >= 0 ==> s.refs[c] >= 1
  {
    hide Of, Sum, Good;
    if c >= 0 {
      RefsCover(s, c);
    }
  }

  lemma CompareAllowed(s: State, i: nat)
    requires Good(s) && i < |s.ts| && Sane(s, s.ts[i]) && s.ts[i].pc.Compare?
    ensures Allowed(s, Reader(s, i), i)
  {
    hide Good, Allowed, Sum;
    var c, last := s.ts[i].pc.c, s.ts[i].last;
    HeldCounted(s, i, last);
    if c == last {
      DropAllowed(s, i, c, last);
      SameLast(s, i, c);
    } else {
      DropAllowed(s, i, last, c);
    }
  }

  lemma DropLastAllowed(s: State, i: nat)
    requires Good(s) && i < |s.ts| && Sane(s, s.ts[i]) && s.ts[i].pc.DropLast?
    ensures Allowed(s, Reader(s, i), i)
  {
    hide Good, Allowed, Sum;
    HeldCounted(s, i, s.ts[i].last);
    DropAllowed(s, i, s.ts[i].last, -1);
  }

  lemma WRelAllowed(s: State, i: nat)
    requires Good(s) && i < |s.ts| && Sane(s, s.ts[i]) && s.ts[i].pc.WRel?
    ensures Allowed(s, Writer(s, i), i)
  {
    hide Good, Allowed, Sum;
    var c := s.ts[i].pc.o;
    HeldCounted(s, i, c);
    DropAllowed(s, i, c, s.ts[i].last);
    SameLast(s, i, c);
  }

  lemma FreeingAllowed(s: State, i: nat)
    requires Good(s) && i < |s.ts| && Sane(s, s.ts[i]) && Local(s, s.ts[i].pc)
    requires var pc := s.ts[i].pc; pc.Freeing?
    ensures Allowed(s, Reader(s, i), i)
  {
    hide Sum, Exclusion, Counts, Threads, Good;
    HereSane(s, i);
  }

  lemma DFreeAllowed(s: State, i: nat)
    requires Good(s) && i < |s.ts| && Sane(s, s.ts[i]) && Local(s, s.ts[i].pc)
    requires var pc := s.ts[i].pc; pc.DFree?
    ensures Allowed(s, Writer(s, i), i)
  {
    hide Sum, Exclusion, Counts, Threads, Good;
    HereSane(s, i);
  }

  lemma WSpinAllowed(s: State, i: nat)
    requires Good(s) && i < |s.ts| && Sane(s, s.ts[i]) && Local(s, s.ts[i].pc)
    requires var pc := s.ts[i].pc; pc.WSpin?
    ensures Allowed(s, Writer(s, i), i)
  {
    hide Sum, Exclusion, Counts, Threads, Good;
    HereSane(s, i);
  }

  lemma DSpinAllowed(s: State, i: nat)
    requires Good(s) && i < |s.ts| && Sane(s, s.ts[i]) && Local(s, s.ts[i].pc)
    requires var pc := s.ts[i].pc; pc.DSpin?
    ensures Allowed(s, Writer(s, i), i)
  {
    hide Sum, Exclusion, Counts, Threads, Good;
    HereSane(s, i);
  }

  lemma WWaitAllowed(s: State, i: nat)
    requires Good(s) && i < |s.ts| && Sane(s, s.ts[i]) && Local(s, s.ts[i].pc)
    requires var pc := s.ts[i].pc; pc.WWait?
    ensures Allowed(s, Writer(s, i), i)
  {
    hide Sum, Exclusion, Counts, Threads, Good;
    HereSane(s, i);
  }

  lemma DWaitAllowed(s: State, i: nat)
    requires Good(s) && i < |s.ts| && Sane(s, s.ts[i]) && Local(s, s.ts[i].pc)
    requires var pc := s.ts[i].pc; pc.DWait?
    ensures Allowed(s, Writer(s, i), i)
  {
    hide Sum, Exclusion, Counts, Threads, Good;
    HereSane(s, i);
  }

  lemma OwnAllowed(s: State, i: nat)
    requires Good(s) && i < |s.ts| && Sane(s, s.ts[i]) && Local(s, s.ts[i].pc)
    requires var pc := s.ts[i].pc; pc.WIn? || pc.DIn?
    ensures Allowed(s, Writer(s, i), i)
  {
    if s.ts[i].pc.WIn? {
      OwnForUpdate(s, i);
    } else {
      OwnForDelete(s, i);
    }
  }

  lemma OwnForUpdate(s: State, i: nat)
    requires Good(s) && i < |s.ts| && Sane(s, s.ts[i]) && Local(s, s.ts[i].pc) && s.ts[i].pc.WIn?
    ensures Allowed(s, Writer(s, i), i)
  {
    hide Sum, Exclusion, Counts, Threads, Good;
    HereSane(s, i);
  }

  lemma OwnForDelete(s: State, i: nat)
    requires Good(s) && i < |s.ts| && Sane(s, s.ts[i]) && Local(s, s.ts[i].pc) && s.ts[i].pc.DIn?
    ensures Allowed(s, Writer(s, i), i)
  {
    hide Sum, Exclusion, Counts, Threads, Good;
    HereSane(s, i);
  }

  lemma WUnlockAllowed(s: State, i: nat)
    requires Good(s) && i < |s.ts| && Sane(s, s.ts[i]) && Local(s, s.ts[i].pc)
    requires var pc := s.ts[i].pc; pc.WUnlock?
    ensures Allowed(s, Writer(s, i), i)
  {
    hide Sum, Exclusion, Counts, Threads, Good;
    WriteIsSet(s, i);
  }

  lemma DUnlockAllowed(s: State, i: nat)
    requires Good(s) && i < |s.ts| && Sane(s, s.ts[i]) && Local(s, s.ts[i].pc)
    requires var pc := s.ts[i].pc; pc.DUnlock?
    ensures Allowed(s, Writer(s, i), i)
  {
    hide Sum, Exclusion, Counts, Threads, Good;
    WriteIsSet(s, i);
  }

  lemma WriteIsSet(s: State, i: nat)
    requires Good(s) && i < |s.ts| && Claims(s.ts[i].pc)
    ensures s.write
  {
    hide Sum;
    SumBounds(s.ts, Writing);
    assert Of(Writing, s.ts[i]) == 1;
  }

  lemma SwapAllowed(s: State, i: nat)
    requires Good(s) && i < |s.ts| && Sane(s, s.ts[i]) && Local(s, s.ts[i].pc)
    requires s.ts[i].pc.WGot? || s.ts[i].pc.DNull?
    ensures Allowed(s, Writer(s, i), i)
  {
    hide Sum, Exclusion, Counts, Threads;
  }

  lemma GiveUpAllowed(s: State, i: nat)
    requires Good(s) && i < |s.ts| && Sane(s, s.ts[i]) && Local(s, s.ts[i].pc) && s.ts[i].pc.DGot?
    ensures Allowed(s, Writer(s, i), i)
  {
    GiveUpBalanced(s, i);
    GiveUpCovered(s, i);
    hide Sum, Exclusion, Counts, Threads, Balanced, Good;
  }

  lemma GiveUpCovered(s: State, i: nat)
    requires Good(s) && i < |s.ts| && s.ts[i].pc.DGot? && Local(s, s.ts[i].pc)
    ensures Known(s, s.copy) && (s.ts[i].pc.c >= 0 ==> s.ts[i].pc.c < |s.refs| && s.refs[s.ts[i].pc.c] >= 1)
  {
    hide Sum, Exclusion, Counts, Threads;
    var c := s.ts[i].pc.c;
    if c >= 0 {
      ObjectCovers(s, i, c);
    }
  }

  lemma GiveUpBalanced(s: State, i: nat)
    requires Good(s) && i < |s.ts| && Sane(s, s.ts[i]) && Local(s, s.ts[i].pc) && s.ts[i].pc.DGot?
    ensures var s' := Writer(s, i);
      |s'.ts| == |s.ts| && |s'.refs| == |s.refs| && |s'.frees| == |s.refs| &&
      forall x :: 0 <= x < |s.refs| ==> Balanced(s, s', s.ts[i], s'.ts[i], x)
  {
    GiveUpCovered(s, i);
    hide Sum, Exclusion, Counts, Threads;
  }

  lemma StepKeeps(s: State, i: nat, ch: Choice)
    requires Good(s) && i < |s.ts| && Sane(s, s.ts[i])
    ensures Good(Next(s, i, ch))
  {
    HereSane(s, i);
    hide Good, Allowed, Sane, Local, Sum, Begin, Reader, Writer;
    var pc := s.ts[i].pc;
    if pc.Idle? {
      BeginKeeps(s, i, ch);
    } else {
      if Reads(pc) {
        if pc.RLoaded? { LoadedAllowed(s, i); }
        else if pc.Compare? { CompareAllowed(s, i); }
        else if pc.DropLast? { DropLastAllowed(s, i); }
        else if pc.Freeing? { FreeingAllowed(s, i); }
        else if pc.RSpin? || pc.RAdd? { EntryAllowed(s, i); }
        else if pc.RCheck? || pc.RBack? { CheckAllowed(s, i); }
        else if pc.RIn? { EnterAllowed(s, i); }
        else { LeaveAllowed(s, i); }
      } else {
        if pc.WRel? { WRelAllowed(s, i); }
        else if pc.DFree? { DFreeAllowed(s, i); }
        else if pc.WGot? || pc.DNull? { SwapAllowed(s, i); }
        else if pc.DGot? { GiveUpAllowed(s, i); }
        else if pc.WSpin? { WSpinAllowed(s, i); }
        else if pc.DSpin? { DSpinAllowed(s, i); }
        else if pc.WWait? { WWaitAllowed(s, i); }
        else if pc.DWait? { DWaitAllowed(s, i); }
        else if pc.WIn? || pc.DIn? { OwnAllowed(s, i); }
        else if pc.WUnlock? { WUnlockAllowed(s, i); }
        else { DUnlockAllowed(s, i); }
      }
      Keep(s, Next(s, i, ch), i);
    }
  }

  lemma BeginKeeps(s: State, i: nat, ch: Choice)
    requires Good(s) && i < |s.ts| && Sane(s, s.ts[i]) && s.ts[i].pc.Idle?
    ensures Good(Begin(s, i, ch))
  {
    if ch.Update? {
      AllocKeeps(s, i);
    } else {
      BeginAllowed(s, i, ch);
      Keep(s, Begin(s, i, ch), i);
    }
  }

  lemma BeginAllowed(s: State, i: nat, ch: Choice)
    requires Good(s) && i < |s.ts| && Sane(s, s.ts[i]) && s.ts[i].pc.Idle? && !ch.Update?
    ensures Allowed(s, Begin(s, i, ch), i)
  {
    hide Sum, Exclusion, Counts, Threads;
  }

  /** A fresh copy is known to nobody but the thread that made it. */
  lemma AllocKeeps(s: State, i: nat)
    requires Good(s) && i < |s.ts| && Sane(s, s.ts[i]) && s.ts[i].pc.Idle?
    ensures Good(Begin(s, i, Update))
  {
    var s' := Begin(s, i, Update);
    var n := |s.refs|;
    forall c | 0 <= c < |s'.refs|
      ensures Counts(s', c)
    {
      AllocCounts(s, i, c);
    }
    AllocThreads(s, i);
    hide Sane, Local, Counts, Threads, Sum, Exclusion;
    SumUpdate(s.ts, i, s'.ts[i], Reading);
    SumUpdate(s.ts, i, s'.ts[i], Writing);
  }

  lemma AllocThreads(s: State, i: nat)
    requires Good(s) && i < |s.ts| && Sane(s, s.ts[i]) && s.ts[i].pc.Idle?
    ensures Threads(Begin(s, i, Update)) && Exclusion(Begin(s, i, Update).ts)
  {
    hide Counts, Sum;
    var s' := Begin(s, i, Update);
    forall j | 0 <= j < |s'.ts|
      ensures Sane(s', s'.ts[j]) && Local(s', s'.ts[j].pc)
    {
      assert Sane(s, s.ts[j]) && Local(s, s.ts[j].pc);
    }
  }

  lemma AllocCounts(s: State, i: nat, c: Ptr)
    requires Good(s) && i < |s.ts| && Sane(s, s.ts[i]) && s.ts[i].pc.Idle? && 0 <= c <= |s.refs|
    ensures Counts(Begin(s, i, Update), c)
  {
    hide Sum, Exclusion;
    var s' := Begin(s, i, Update);
    SumUpdate(s.ts, i, s'.ts[i], Giving(c));
    SumUpdate(s.ts, i, s'.ts[i], Holding(c));
    SumUpdate(s.ts, i, s'.ts[i], Releasing(c));
    if c < |s.refs| {
      assert Counts(s, c);
    } else {
      forall j | 0 <= j < |s.ts|
        ensures Of(Giving(c), s.ts[j]) == 0 && Of(Holding(c), s.ts[j]) == 0 && Of(Releasing(c), s.ts[j]) == 0
      {
        assert Sane(s, s.ts[j]);
      }
      SumZero(s.ts, Giving(c));
      SumZero(s.ts, Holding(c));
      SumZero(s.ts, Releasing(c));
    }
  }

  // ----------------------------------------------------------------- all runs

  /** stm_new has made copy 0; no thread has begun. */
  function Start(n: nat): State {
    State(false, 0, 0, [1], [0], seq(n, _ => Thread(Idle, -1)))
  }

  datatype Move = Move(i: nat, ch: Choice)

  ghost predicate IsRun(states: seq<State>, moves: seq<Move>, n: nat) {
    |states| == |moves| + 1 && states[0] == Start(n) &&
    forall k :: 0 <= k < |moves| ==> Follows(states[k], moves[k], states[k + 1])
  }

  predicate Follows(s: State, m: Move, s': State) {
    m.i < |s.ts| && Sane(s, s.ts[m.i]) && s' == Next(s, m.i, m.ch)
  }

  lemma StartGood(n: nat)
    ensures Good(Start(n))
  {
    hide Sum;
    var s := Start(n);
    SumZero(s.ts, Reading);
    SumZero(s.ts, Writing);
    SumZero(s.ts, Giving(0));
    SumZero(s.ts, Holding(0));
    SumZero(s.ts, Releasing(0));
  }

  lemma {:induction false} RunKeeps(states: seq<State>, moves: seq<Move>, n: nat, k: nat)
    requires IsRun(states, moves, n) && k < |states|
    ensures Good(states[k])
  {
    hide Good, Next, Sane;
    if k == 0 {
      StartGood(n);
    } else {
      RunKeeps(states, moves, n, k - 1);
      assert Follows(states[k - 1], moves[k - 1], states[k]);
      StepKeeps(states[k - 1], moves[k - 1].i, moves[k - 1].ch);
    }
  }

  /** In every run every thread can always take its step: no stale pointer is ever used. */
  lemma NeverStuck(states: seq<State>, moves: seq<Move>, n: nat, k: nat, i: nat)
    requires IsRun(states, moves, n) && k < |states| && i < |states[k].ts|
    ensures Sane(states[k], states[k].ts[i])
  {
    RunKeeps(states, moves, n, k);
  }

  /** In every run a writer never shares the lock, with a reader or with another writer. */
  lemma MutualExclusion(states: seq<State>, moves: seq<Move>, n: nat, k: nat, i: nat, j: nat)
    requires IsRun(states, moves, n) && k < |states| && i < |states[k].ts| && j < |states[k].ts| && i != j
    requires Owns(states[k].ts[i].pc)
    ensures !Inside(states[k].ts[j].pc) && !Owns(states[k].ts[j].pc)
  {
    RunKeeps(states, moves, n, k);
    OnlyOwner(states[k], i, j);
  }

  /** A thread that can use the memory of `c`: it holds a reference, or is about to take one under the lock. */
  predicate Uses(t: Thread, c: Ptr) {
    t.last == c || PcHolds(t.pc, c) > 0 || t.pc == RLoaded(c) || t.pc == DGot(c)
  }

  /** In every run a copy in use has a positive count and has not been freed, nor is anyone about to free it. */
  lemma NeverFreedInUse(states: seq<State>, moves: seq<Move>, n: nat, k: nat, i: nat, c: Ptr)
    requires IsRun(states, moves, n) && k < |states| && i < |states[k].ts|
    requires 0 <= c < |states[k].refs| == |states[k].frees| && Uses(states[k].ts[i], c)
    ensures states[k].refs[c] > 0 && states[k].frees[c] == 0
    ensures forall j :: 0 <= j < |states[k].ts| ==> !WillFree(states[k].ts[j].pc, c)
  {
    var s := states[k];
    RunKeeps(states, moves, n, k);
    HereSane(s, i);
    if s.ts[i].pc == RLoaded(c) || s.ts[i].pc == DGot(c) {
      ObjectCovers(s, i, c);
    } else {
      HeldCounted(s, i, c);
    }
    NotFreed(s, c);
  }

  lemma NotFreed(s: State, c: Ptr)
    requires Good(s) && 0 <= c < |s.refs| && s.refs[c] > 0
    ensures s.frees[c] == 0 && forall j :: 0 <= j < |s.ts| ==> !WillFree(s.ts[j].pc, c)
  {
    hide Sum, Threads, Exclusion;
    assert Counts(s, c);
    SumBounds(s.ts, Releasing(c));
    assert forall j :: 0 <= j < |s.ts| ==> Of(Releasing(c), s.ts[j]) <= 0;
  }

  /** In every run no copy is freed twice. */
  lemma FreedAtMostOnce(states: seq<State>, moves: seq<Move>, n: nat, k: nat, c: Ptr)
    requires IsRun(states, moves, n) && k < |states| && 0 <= c < |states[k].refs| == |states[k].frees|
    ensures states[k].frees[c] <= 1
  {
    RunKeeps(states, moves, n, k);
    assert Counts(states[k], c);
    SumBounds(states[k].ts, Releasing(c));
  }

  /** When every thread rests, the count is the number of holders, and what nobody holds has been freed. */
  lemma NothingLeaks(states: seq<State>, moves: seq<Move>, n: nat, k: nat, c: Ptr)
    requires IsRun(states, moves, n) && k < |states| && 0 <= c < |states[k].refs| == |states[k].frees|
    requires forall j :: 0 <= j < |states[k].ts| ==> states[k].ts[j].pc.Idle?
    ensures states[k].refs[c] == One(states[k].copy == c) + Sum(states[k].ts, Holding(c))
    ensures states[k].frees[c] == 1 <==>
      states[k].copy != c && forall j :: 0 <= j < |states[k].ts| ==> states[k].ts[j].last != c
  {
    hide Sum, Exclusion, Threads;
    var s := states[k];
    RunKeeps(states, moves, n, k);
    assert Counts(s, c);
    SumZero(s.ts, Giving(c));
    SumZero(s.ts, Releasing(c));
    SumBounds(s.ts, Holding(c));
    if forall j :: 0 <= j < |s.ts| ==> s.ts[j].last != c {
      SumZero(s.ts, Holding(c));
    } else {
      var j :| 0 <= j < |s.ts| && s.ts[j].last == c;
      assert Of(Holding(c), s.ts[j]) == 1;
    }
  }
}
