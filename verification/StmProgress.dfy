/** The lock of rwlock.h never deadlocks: from every state of every run all threads can finish what they have begun. */
module StmProgress {
  import opened Stm

  // ------------------------------------------------------- what is left to do

  /** How far a writer is from its end... */
  function WriterLeft(pc: Pc): nat {
    match pc
    case WSpin(_) => 7
    case WWait(_) => 6
    case WIn(_) => 5
    case WGot(_, _) => 4
    case WUnlock(_) => 3
    case WRel(_) => 2
    case DSpin => 7
    case DWait => 6
    case DIn => 5
    case DGot(_) => 4
    case DFree(_) => 3
    case DNull(_) => 2
    case DUnlock => 1
    case _ => 0
  }

  /** ...a reader that is counted from leaving the lock or drawing back, while a writer waits... */
  function CountedLeft(pc: Pc): nat {
    match pc
    case RIn(_) => 4
    case RLoaded(_) => 3
    case RHave(_) => 2
    case ROut => 2
    case RCheck(_) => 2
    case RBack(_) => 1
    case _ => 0
  }

  /** ...and a reader from its end, while no writer has the lock. */
  function ReaderLeft(pc: Pc): nat {
    match pc
    case RBack(_) => 10
    case RSpin(_) => 9
    case RAdd(_) => 8
    case RCheck(_) => 7
    case RIn(_) => 6
    case RLoaded(_) => 5
    case ROut => 5
    case RHave(_) => 4
    case Compare(_) => 3
    case DropLast => 3
    case Freeing(_) => 1
    case _ => 0
  }

  ghost function Total(ts: seq<Thread>, f: Pc -> nat): nat {
    if ts == [] then 0 else Total(ts[..|ts| - 1], f) + f(ts[|ts| - 1].pc)
  }

  lemma {:induction false} TotalUpdate(ts: seq<Thread>, i: nat, t: Thread, f: Pc -> nat)
    requires i < |ts|
    ensures Total(ts[i := t], f) + f(ts[i].pc) == Total(ts, f) + f(t.pc)
  {
    var n := |ts| - 1;
    if i < n {
      TotalUpdate(ts[..n], i, t, f);
      assert ts[i := t][..n] == ts[..n][i := t];
    } else {
      assert ts[i := t][..n] == ts[..n];
    }
  }

  // ---------------------------------------------------- somebody can go on

  /** A step of thread i takes a writer on, or else a reader, towards leaving the lock if a writer has set its flag. */
  predicate Advances(s: State, i: nat)
    requires i < |s.ts| && Sane(s, s.ts[i])
  {
    var s', pc := Next(s, i, Read), s.ts[i].pc;
    && !pc.Idle? && i < |s'.ts| && s'.ts == s.ts[i := s'.ts[i]]
    && var pc' := s'.ts[i].pc;
       || WriterLeft(pc') < WriterLeft(pc)
       || (WriterLeft(pc') == WriterLeft(pc) && s'.write == s.write
           && if s.write then CountedLeft(pc') < CountedLeft(pc) else ReaderLeft(pc') < ReaderLeft(pc))
  }

  lemma WriterAdvances(s: State, i: nat)
    requires i < |s.ts| && Sane(s, s.ts[i]) && WriterLeft(s.ts[i].pc) > 0
    requires s.ts[i].pc.WSpin? || s.ts[i].pc.DSpin? ==> !s.write
    requires s.ts[i].pc.WWait? || s.ts[i].pc.DWait? ==> s.read == 0
    ensures Advances(s, i)
  {
  }

  lemma ReaderAdvances(s: State, i: nat)
    requires i < |s.ts| && Sane(s, s.ts[i])
    requires if s.write then Counted(s.ts[i].pc) else Reads(s.ts[i].pc)
    ensures Advances(s, i)
  {
  }

  lemma {:induction false} NoneOf(ts: seq<Thread>, w: Weight)
    requires Sum(ts, w) != 0
    ensures exists i :: 0 <= i < |ts| && Of(w, ts[i]) != 0
  {
    if forall i :: 0 <= i < |ts| ==> Of(w, ts[i]) == 0 {
      SumZero(ts, w);
    }
  }

  /** In a state of a run in which some thread is busy, some thread can go on. */
  lemma SomebodyAdvances(s: State, b: nat) returns (i: nat)
    requires Good(s) && b < |s.ts| && !s.ts[b].pc.Idle?
    ensures i < |s.ts| && Sane(s, s.ts[i]) && Advances(s, i)
  {
    hide Advances, Sum, Counts, Sane, Exclusion;
    if s.write {
      NoneOf(s.ts, Writing);
      var w :| 0 <= w < |s.ts| && Of(Writing, s.ts[w]) != 0;
      assert Claims(s.ts[w].pc);
      if (s.ts[w].pc.WWait? || s.ts[w].pc.DWait?) && s.read != 0 {
        NoneOf(s.ts, Reading);
        i :| 0 <= i < |s.ts| && Of(Reading, s.ts[i]) != 0;
        ReaderAdvances(s, i);
      } else {
        i := w;
        WriterAdvances(s, i);
      }
    } else if r :| 0 <= r < |s.ts| && Reads(s.ts[r].pc) {
      i := r;
      ReaderAdvances(s, i);
    } else {
      i := b;
      var t := s.ts[b];
      assert t.pc.WWait? || t.pc.DWait? ==> Of(Writing, t) == 1;
      SumBounds(s.ts, Writing);
      WriterAdvances(s, i);
    }
  }

  // --------------------------------------------------------- all can finish

  ghost function Pressing(s: State): nat {
    if s.write then Total(s.ts, CountedLeft) else Total(s.ts, ReaderLeft)
  }

  lemma Less(s: State, i: nat)
    requires i < |s.ts| && Sane(s, s.ts[i]) && Advances(s, i)
    ensures var s' := Next(s, i, Read);
      || Total(s'.ts, WriterLeft) < Total(s.ts, WriterLeft)
      || (Total(s'.ts, WriterLeft) == Total(s.ts, WriterLeft) && Pressing(s') < Pressing(s))
  {
    hide Next, Sane, WriterLeft, CountedLeft, ReaderLeft, Total;
    var s' := Next(s, i, Read);
    TotalUpdate(s.ts, i, s'.ts[i], WriterLeft);
    TotalUpdate(s.ts, i, s'.ts[i], CountedLeft);
    TotalUpdate(s.ts, i, s'.ts[i], ReaderLeft);
  }

  lemma RunOn(states: seq<State>, moves: seq<Move>, n: nat, m: Move)
    requires IsRun(states, moves, n) && m.i < |states[|moves|].ts| && Sane(states[|moves|], states[|moves|].ts[m.i])
    ensures IsRun(states + [Next(states[|moves|], m.i, m.ch)], moves + [m], n)
  {
    hide Next, Sane;
    var ss, ms := states + [Next(states[|moves|], m.i, m.ch)], moves + [m];
    forall k | 0 <= k < |ms|
      ensures Follows(ss[k], ms[k], ss[k + 1])
    {
      if k < |moves| {
        assert Follows(states[k], moves[k], states[k + 1]);
      }
    }
  }

  ghost predicate AllIdle(s: State) {
    forall i :: 0 <= i < |s.ts| ==> s.ts[i].pc.Idle?
  }

  /** Only threads that are busy move. */
  ghost predicate NoneBegins(states: seq<State>, moves: seq<Move>, from: nat) {
    && |states| == |moves| + 1
    && forall k :: from <= k < |moves| ==> moves[k].i < |states[k].ts| && !states[k].ts[moves[k].i].pc.Idle?
  }

  /** From every state of every run the threads can finish what they have begun, without anything new being begun. */
  lemma {:induction false} Completes(states: seq<State>, moves: seq<Move>, n: nat)
      returns (states': seq<State>, moves': seq<Move>)
    requires IsRun(states, moves, n)
    ensures IsRun(states', moves', n) && states <= states' && moves <= moves'
    ensures NoneBegins(states', moves', |moves|) && AllIdle(states'[|moves'|])
    decreases Total(states[|moves|].ts, WriterLeft), Pressing(states[|moves|])
  {
    hide Follows, Good, Next, Sane, Total, Pressing;
    var s := states[|moves|];
    if AllIdle(s) {
      states', moves' := states, moves;
    } else {
      var b :| 0 <= b < |s.ts| && !s.ts[b].pc.Idle?;
      RunKeeps(states, moves, n, |moves|);
      var i := SomebodyAdvances(s, b);
      Less(s, i);
      assert !s.ts[i].pc.Idle?;
      hide Advances;
      RunOn(states, moves, n, Move(i, Read));
      var ss, ms := states + [Next(s, i, Read)], moves + [Move(i, Read)];
      assert ss[|ms|] == Next(s, i, Read);
      states', moves' := Completes(ss, ms, n);
      assert states'[|moves|] == ss[|moves|] == s && moves'[|moves|] == ms[|moves|];
      FromOneEarlier(states', moves', |moves|);
    }
  }

  lemma FromOneEarlier(states: seq<State>, moves: seq<Move>, k: nat)
    requires k < |moves| && NoneBegins(states, moves, k + 1)
    requires moves[k].i < |states[k].ts| && !states[k].ts[moves[k].i].pc.Idle?
    ensures NoneBegins(states, moves, k)
  {
  }
}
