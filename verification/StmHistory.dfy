/**
 * What updates and reads of lua-stm.c amount to: over every run, each
 * operation takes effect in one step between its beginning and its end, a
 * read gets what was stored last at such a step, and the stores are those of
 * the updates and deletions.
 */
module StmHistory {
  import opened Stm

  // ------------------------------------------------------------ the stores

  /** What a move stores to obj->copy, by where its thread is. */
  function StoreAt(pc: Pc): seq<Ptr> {
    match pc
    case WGot(n, _) => [n]
    case DNull(_) => [-1]
    case _ => []
  }

  /** All that has been stored to obj->copy by the first k moves, in order; the object starts with copy 0. */
  ghost function Stores(states: seq<State>, moves: seq<Move>, n: nat, k: nat): (r: seq<Ptr>)
    requires IsRun(states, moves, n) && k <= |moves|
    ensures r != []
  {
    if k == 0 then [0]
    else
      assert Follows(states[k - 1], moves[k - 1], states[k]);
      Stores(states, moves, n, k - 1) + StoreAt(states[k - 1].ts[moves[k - 1].i].pc)
  }

  lemma StepStores(s: State, m: Move, s': State)
    requires Follows(s, m, s')
    ensures var w := StoreAt(s.ts[m.i].pc); s'.copy == if w == [] then s.copy else w[0]
    ensures Only(s, m.i, s')
  {
    hide Reader, Writer, Sane;
    var pc := s.ts[m.i].pc;
    if !pc.Idle? && Reads(pc) {
      ReaderStores(s, m.i);
    } else if !pc.Idle? {
      WriterStores(s, m.i);
    }
  }

  lemma ReaderStores(s: State, i: nat)
    requires i < |s.ts| && Sane(s, s.ts[i]) && Reads(s.ts[i].pc)
    ensures var s' := Reader(s, i); s'.copy == s.copy && StoreAt(s.ts[i].pc) == [] && Only(s, i, s')
  {
  }

  lemma WriterStores(s: State, i: nat)
    requires i < |s.ts| && Sane(s, s.ts[i]) && !Reads(s.ts[i].pc)
    ensures var s', w := Writer(s, i), StoreAt(s.ts[i].pc);
      s'.copy == (if w == [] then s.copy else w[0]) && Only(s, i, s')
  {
  }

  /** Only thread i has moved. */
  ghost predicate Only(s: State, i: nat, s': State) {
    |s'.ts| == |s.ts| && forall j :: 0 <= j < |s.ts| && j != i ==> s'.ts[j] == s.ts[j]
  }

  /** In every run obj->copy is what was stored last. */
  lemma {:induction false} CopyIsLastStored(states: seq<State>, moves: seq<Move>, n: nat, k: nat)
    requires IsRun(states, moves, n) && k < |states|
    ensures var w := Stores(states, moves, n, k); states[k].copy == w[|w| - 1]
  {
    if k > 0 {
      hide Follows;
      CopyIsLastStored(states, moves, n, k - 1);
      assert Follows(states[k - 1], moves[k - 1], states[k]);
      StepStores(states[k - 1], moves[k - 1], states[k]);
    }
  }

  lemma {:induction false} StoresGrow(states: seq<State>, moves: seq<Move>, n: nat, j: nat, k: nat)
    requires IsRun(states, moves, n) && j <= k < |states|
    ensures Stores(states, moves, n, j) <= Stores(states, moves, n, k)
  {
    hide Follows, StoreAt;
    if j < k {
      StoresGrow(states, moves, n, j, k - 1);
    }
  }

  lemma {:induction false} SameThreads(states: seq<State>, moves: seq<Move>, n: nat, k: nat)
    requires IsRun(states, moves, n) && k < |states|
    ensures |states[k].ts| == n
  {
    if k > 0 {
      SameThreads(states, moves, n, k - 1);
      assert Follows(states[k - 1], moves[k - 1], states[k]);
      StepStores(states[k - 1], moves[k - 1], states[k]);
    }
  }

  // -------------------------------------------------------- whole operations

  /** Thread i has been busy since it began an operation at move b. */
  ghost predicate Under(states: seq<State>, moves: seq<Move>, n: nat, i: nat, ch: Choice, b: nat, k: nat) {
    && IsRun(states, moves, n) && i < n && b < k <= |moves| && moves[b] == Move(i, ch)
    && Pcs(states, i, b).Idle? && forall m :: b < m < k ==> !Pcs(states, i, m).Idle?
  }

  ghost function Pcs(states: seq<State>, i: nat, k: nat): Pc {
    if k < |states| && i < |states[k].ts| then states[k].ts[i].pc else Idle
  }

  /** Thread i performs an operation from move b up to state e. */
  ghost predicate Operation(states: seq<State>, moves: seq<Move>, n: nat, i: nat, ch: Choice, b: nat, e: nat) {
    Under(states, moves, n, i, ch, b, e) && Pcs(states, i, e).Idle?
  }

  // ------------------------------------------------- updates and deletions

  /** What an update or deletion is about to store. */
  function Fresh(s: State, ch: Choice): Ptr {
    if ch.Update? then |s.refs| else -1
  }

  /** An update or deletion before its store of c... */
  predicate Storing(pc: Pc, c: Ptr) {
    match pc
    case WSpin(x) => x == c
    case WWait(x) => x == c
    case WIn(x) => x == c
    case WGot(x, _) => x == c
    case _ => c == -1 && (pc.DSpin? || pc.DWait? || pc.DIn? || pc.DGot? || pc.DFree? || pc.DNull?)
  }

  /** ...and after it. */
  predicate Stored(pc: Pc) {
    pc.WUnlock? || pc.WRel? || pc.DUnlock? || pc.Freeing? || pc.Idle?
  }

  lemma StoringStep(s: State, i: nat, ch: Choice, c: Ptr)
    requires i < |s.ts| && Sane(s, s.ts[i]) && Storing(s.ts[i].pc, c)
    ensures var pc, s' := s.ts[i].pc, Next(s, i, ch);
      && i < |s'.ts| && (StoreAt(pc) == [c] || StoreAt(pc) == [])
      && (StoreAt(pc) == [c] ==> Stored(s'.ts[i].pc)) && (StoreAt(pc) == [] ==> Storing(s'.ts[i].pc, c))
  {
  }

  lemma StoredStep(s: State, i: nat, ch: Choice)
    requires i < |s.ts| && Sane(s, s.ts[i]) && Stored(s.ts[i].pc) && !s.ts[i].pc.Idle?
    ensures var s' := Next(s, i, ch); i < |s'.ts| && Stored(s'.ts[i].pc)
  {
  }

  lemma StoringBegins(s: State, i: nat, ch: Choice)
    requires i < |s.ts| && Sane(s, s.ts[i]) && s.ts[i].pc.Idle? && (ch.Update? || ch.Delete?)
    ensures var s' := Next(s, i, ch); i < |s'.ts| && Storing(s'.ts[i].pc, Fresh(s, ch))
  {
  }

  /** The operation has taken effect at move j of its own thread: c is stored, and obj->copy. */
  ghost predicate Effective(states: seq<State>, moves: seq<Move>, n: nat, i: nat, c: Ptr, b: nat, j: nat, k: nat) {
    && IsRun(states, moves, n) && b < j < k <= |moves| && moves[j].i == i && states[j + 1].copy == c
    && Stores(states, moves, n, j + 1) == Stores(states, moves, n, j) + [c]
  }

  lemma EffectiveNow(states: seq<State>, moves: seq<Move>, n: nat, i: nat, c: Ptr, b: nat, k: nat)
    requires IsRun(states, moves, n) && b < k <= |moves| && moves[k - 1].i == i && i < |states[k - 1].ts| && b < k - 1
    requires StoreAt(states[k - 1].ts[i].pc) == [c]
    ensures Effective(states, moves, n, i, c, b, k - 1, k)
  {
    assert Follows(states[k - 1], moves[k - 1], states[k]);
    StepStores(states[k - 1], moves[k - 1], states[k]);
  }

  lemma {:induction false} StoreRun(states: seq<State>, moves: seq<Move>, n: nat, i: nat, ch: Choice, b: nat, k: nat)
      returns (j: nat)
    requires Under(states, moves, n, i, ch, b, k) && (ch.Update? || ch.Delete?)
    ensures var c, pc := Fresh(states[b], ch), Pcs(states, i, k);
      Storing(pc, c) || (Stored(pc) && Effective(states, moves, n, i, c, b, j, k))
  {
    hide Next, Sane, Storing, Stored, StoreAt, Stores;
    SameThreads(states, moves, n, k);
    SameThreads(states, moves, n, k - 1);
    var s, m := states[k - 1], moves[k - 1];
    assert Follows(s, m, states[k]);
    j := 0;
    if k == b + 1 {
      StoringBegins(s, i, ch);
    } else {
      StepStores(s, m, states[k]);
      j := StoreRun(states, moves, n, i, ch, b, k - 1);
      var c, pc := Fresh(states[b], ch), Pcs(states, i, k - 1);
      if m.i == i {
        assert !pc.Idle?;
        if Storing(pc, c) {
          StoringStep(s, i, m.ch, c);
          if StoreAt(pc) == [c] {
            EffectiveNow(states, moves, n, i, c, b, k);
            j := k - 1;
          }
        } else {
          StoredStep(s, i, m.ch);
        }
      }
    }
  }

  lemma StillStoring(pc: Pc, c: Ptr)
    ensures Storing(pc, c) ==> !pc.Idle?
  {
  }

  /** In every run a finished update has stored the copy it allocated, and a finished deletion the null pointer, in one
      of its own moves. */
  lemma TakesEffect(states: seq<State>, moves: seq<Move>, n: nat, i: nat, ch: Choice, b: nat, e: nat) returns (j: nat)
    requires Operation(states, moves, n, i, ch, b, e) && (ch.Update? || ch.Delete?)
    ensures Effective(states, moves, n, i, Fresh(states[b], ch), b, j, e)
  {
    hide Follows, Effective, Storing;
    j := StoreRun(states, moves, n, i, ch, b, e);
    StillStoring(Pcs(states, i, e), Fresh(states[b], ch));
  }

  // ------------------------------------------------------------------ reads

  /** A read before its load, between the load of c and the comparison, and after it. */
  predicate Loading(pc: Pc) {
    (pc.RSpin? || pc.RAdd? || pc.RCheck? || pc.RBack? || pc.RIn?) && !pc.bye
  }

  predicate Loaded(pc: Pc, c: Ptr) {
    (pc.RLoaded? || pc.RHave? || pc.Compare?) && pc.c == c
  }

  lemma LoadingStep(s: State, i: nat, ch: Choice)
    requires i < |s.ts| && Sane(s, s.ts[i]) && Loading(s.ts[i].pc)
    ensures var t, s' := s.ts[i], Next(s, i, ch);
      && i < |s'.ts| && s'.ts[i].last == t.last
      && if t.pc.RIn? then Loaded(s'.ts[i].pc, s.copy) else Loading(s'.ts[i].pc)
  {
  }

  lemma LoadedStep(s: State, i: nat, ch: Choice, c: Ptr)
    requires i < |s.ts| && Sane(s, s.ts[i]) && Loaded(s.ts[i].pc, c)
    ensures var t, s' := s.ts[i], Next(s, i, ch);
      && i < |s'.ts|
      && if t.pc.Compare? then (s'.ts[i].pc.Freeing? || s'.ts[i].pc.Idle?) && s'.ts[i].last == c
         else Loaded(s'.ts[i].pc, c) && s'.ts[i].last == t.last
  {
  }

  lemma FreeingStep(s: State, i: nat, ch: Choice)
    requires i < |s.ts| && Sane(s, s.ts[i]) && s.ts[i].pc.Freeing?
    ensures var s' := Next(s, i, ch); i < |s'.ts| && s'.ts[i] == s.ts[i].(pc := Idle)
  {
  }

  lemma ReadBegins(s: State, i: nat)
    requires i < |s.ts| && Sane(s, s.ts[i]) && s.ts[i].pc.Idle?
    ensures var s' := Next(s, i, Read); i < |s'.ts| && Loading(s'.ts[i].pc) && s'.ts[i].last == s.ts[i].last
  {
  }

  /** A read has loaded obj->copy at its move j... */
  ghost predicate LoadsAt(states: seq<State>, moves: seq<Move>, i: nat, b: nat, j: nat, k: nat) {
    |states| == |moves| + 1 && b < j < k <= |moves| && moves[j].i == i
  }

  /** ...and compared it with what it had, at its move q. */
  ghost predicate ComparesAt(states: seq<State>, moves: seq<Move>, i: nat, b: nat, j: nat, q: nat, k: nat) {
    && LoadsAt(states, moves, i, b, j, k) && j < q < k && moves[q].i == i && i < |states[q].ts| && i < |states[b].ts|
    && states[q].ts[i] == Thread(Compare(states[j].copy), states[b].ts[i].last)
  }

  ghost function Had(states: seq<State>, i: nat, k: nat): Ptr {
    if k < |states| && i < |states[k].ts| then states[k].ts[i].last else -1
  }

  /** How far a read has come. */
  ghost predicate Phase(states: seq<State>, moves: seq<Move>, i: nat, b: nat, j: nat, q: nat, k: nat) {
    var pc, last := Pcs(states, i, k), Had(states, i, k);
    || (Loading(pc) && last == Had(states, i, b))
    || (LoadsAt(states, moves, i, b, j, k) && Loaded(pc, states[j].copy) && last == Had(states, i, b))
    || (ComparesAt(states, moves, i, b, j, q, k) && (pc.Freeing? || pc.Idle?) && last == states[j].copy)
  }

  lemma {:induction false} ReadRun(states: seq<State>, moves: seq<Move>, n: nat, i: nat, b: nat, k: nat)
      returns (j: nat, q: nat)
    requires Under(states, moves, n, i, Read, b, k)
    ensures Phase(states, moves, i, b, j, q, k)
  {
    hide Next, Sane, Loading, Loaded;
    SameThreads(states, moves, n, b);
    SameThreads(states, moves, n, k);
    SameThreads(states, moves, n, k - 1);
    var s, m := states[k - 1], moves[k - 1];
    assert Follows(s, m, states[k]);
    j, q := 0, 0;
    if k == b + 1 {
      ReadBegins(s, i);
    } else {
      StepStores(s, m, states[k]);
      j, q := ReadRun(states, moves, n, i, b, k - 1);
      var pc := Pcs(states, i, k - 1);
      if m.i == i {
        assert !pc.Idle?;
        LoadedFreeing(pc);
        if Loading(pc) {
          LoadingStep(s, i, m.ch);
          j := if pc.RIn? then k - 1 else j;
        } else if pc.Freeing? {
          FreeingStep(s, i, m.ch);
        } else {
          LoadedStep(s, i, m.ch, states[j].copy);
          q := if pc.Compare? then k - 1 else q;
          ComparedIs(pc, states[j].copy);
        }
      }
    }
  }

  lemma LoadedFreeing(pc: Pc)
    ensures pc.Freeing? ==> !Loading(pc) && forall c :: !Loaded(pc, c)
    ensures pc.Idle? ==> !Loading(pc) && forall c :: !Loaded(pc, c)
  {
  }

  lemma ComparedIs(pc: Pc, c: Ptr)
    ensures pc.Compare? && Loaded(pc, c) ==> pc == Compare(c)
  {
  }

  /** In every run a finished read has what obj->copy was at one of its own moves, and has compared it with what it had
      before: it reports no update exactly when the two are the same. */
  lemma ReadGets(states: seq<State>, moves: seq<Move>, n: nat, i: nat, b: nat, e: nat) returns (j: nat, q: nat)
    requires Operation(states, moves, n, i, Read, b, e)
    ensures ComparesAt(states, moves, i, b, j, q, e) && Had(states, i, e) == states[j].copy
  {
    hide Follows, ComparesAt, Loading, Loaded;
    j, q := ReadRun(states, moves, n, i, b, e);
    LoadedFreeing(Pcs(states, i, e));
  }

  /** A reader's deletion, before and after it has let go of its copy. */
  predicate Leaving(pc: Pc) {
    ((pc.RSpin? || pc.RAdd? || pc.RCheck? || pc.RBack? || pc.RIn?) && pc.bye) || pc.ROut? || pc.DropLast?
  }

  predicate Left(t: Thread) {
    (t.pc.Freeing? || t.pc.Idle?) && t.last == -1
  }

  lemma LeavingStep(s: State, i: nat, ch: Choice)
    requires i < |s.ts| && Sane(s, s.ts[i])
    requires Leaving(s.ts[i].pc) || (Left(s.ts[i]) && !s.ts[i].pc.Idle?) || (s.ts[i].pc.Idle? && ch == Bye)
    ensures var s' := Next(s, i, ch); i < |s'.ts| && (Leaving(s'.ts[i].pc) || (Left(s'.ts[i]) && !s.ts[i].pc.Idle?))
  {
  }

  /** In every run a reader that has been deleted has no copy. */
  lemma {:induction false} ByeRun(states: seq<State>, moves: seq<Move>, n: nat, i: nat, b: nat, k: nat)
    requires Under(states, moves, n, i, Bye, b, k)
    ensures i < |states[k].ts| && (Leaving(states[k].ts[i].pc) || Left(states[k].ts[i]))
  {
    hide Next, Sane, Leaving, Left;
    SameThreads(states, moves, n, k);
    SameThreads(states, moves, n, k - 1);
    var s, m := states[k - 1], moves[k - 1];
    assert Follows(s, m, states[k]);
    StepStores(s, m, states[k]);
    if k > b + 1 {
      ByeRun(states, moves, n, i, b, k - 1);
      assert !Pcs(states, i, k - 1).Idle?;
    }
    if m.i == i {
      LeavingStep(s, i, m.ch);
    }
  }

  // ------------------------------------------------------- all together

  /** A thread that is busy has begun an operation. */
  lemma {:induction false} Began(states: seq<State>, moves: seq<Move>, n: nat, i: nat, k: nat) returns (b: nat)
    requires IsRun(states, moves, n) && k < |states| && i < n && !Pcs(states, i, k).Idle?
    ensures b < k && Under(states, moves, n, i, moves[b].ch, b, k)
  {
    SameThreads(states, moves, n, k);
    assert k > 0;
    SameThreads(states, moves, n, k - 1);
    var s, m := states[k - 1], moves[k - 1];
    assert Follows(s, m, states[k]);
    StepStores(s, m, states[k]);
    hide Follows, Start;
    if Pcs(states, i, k - 1).Idle? {
      b := k - 1;
    } else {
      b := Began(states, moves, n, i, k - 1);
    }
  }

  lemma NoStore(pc: Pc)
    ensures Loading(pc) || Leaving(pc) || pc.Freeing? || pc.Idle? || Stored(pc) ==> StoreAt(pc) == []
    ensures forall c :: Loaded(pc, c) ==> StoreAt(pc) == []
    ensures forall c :: Storing(pc, c) ==> StoreAt(pc) == [] || StoreAt(pc) == [c]
  {
  }

  /** In every run whatever is stored is the new copy of an update under way, or the null pointer of a deletion. */
  lemma StoreOrigin(states: seq<State>, moves: seq<Move>, n: nat, k: nat) returns (b: nat)
    requires IsRun(states, moves, n) && k < |moves| && Stores(states, moves, n, k + 1) != Stores(states, moves, n, k)
    ensures b < k && (moves[b].ch.Update? || moves[b].ch.Delete?)
    ensures Under(states, moves, n, moves[k].i, moves[b].ch, b, k)
    ensures Stores(states, moves, n, k + 1) == Stores(states, moves, n, k) + [Fresh(states[b], moves[b].ch)]
  {
    var i := moves[k].i;
    assert Follows(states[k], moves[k], states[k + 1]);
    SameThreads(states, moves, n, k);
    var pc := states[k].ts[i].pc;
    hide Follows, Loading, Leaving, Loaded, StoreAt, Storing, Stored;
    assert StoreAt(pc) != [];
    NoStore(pc);
    LeftFree(states[k].ts[i]);
    b := Began(states, moves, n, i, k);
    match moves[b].ch
    case Read => var j, q := ReadRun(states, moves, n, i, b, k);
    case Bye => ByeRun(states, moves, n, i, b, k);
    case _ => var j := StoreRun(states, moves, n, i, moves[b].ch, b, k);
  }

  lemma LeftFree(t: Thread)
    ensures Left(t) ==> t.pc.Freeing? || t.pc.Idle?
  {
  }

  /** In every run a read that begins after an update or deletion has ended gets what that one stored or what was stored
      later. */
  lemma ReadAfterUpdate(states: seq<State>, moves: seq<Move>, n: nat, i: nat, ch: Choice, b: nat, e: nat,
                        r: nat, c: nat, d: nat)
      returns (p: nat, j: nat)
    requires Operation(states, moves, n, i, ch, b, e) && (ch.Update? || ch.Delete?)
    requires Operation(states, moves, n, r, Read, c, d) && e <= c
    ensures p < j < d && Stores(states, moves, n, p + 1) == Stores(states, moves, n, p) + [Fresh(states[b], ch)]
    ensures Stores(states, moves, n, p + 1) <= Stores(states, moves, n, j)
    ensures var w := Stores(states, moves, n, j); Had(states, r, d) == w[|w| - 1]
  {
    hide Follows;
    p := TakesEffect(states, moves, n, i, ch, b, e);
    var q;
    j, q := ReadGets(states, moves, n, r, c, d);
    StoresGrow(states, moves, n, p + 1, j);
    CopyIsLastStored(states, moves, n, j);
  }

  /** In every run a read that begins after another has ended, on any thread, gets what that one got or what was stored
      later. */
  lemma ReadAfterRead(states: seq<State>, moves: seq<Move>, n: nat, i: nat, b: nat, e: nat, r: nat, c: nat, d: nat)
      returns (p: nat, j: nat)
    requires Operation(states, moves, n, i, Read, b, e) && Operation(states, moves, n, r, Read, c, d) && e <= c
    ensures p < j < d && Stores(states, moves, n, p) <= Stores(states, moves, n, j)
    ensures var w := Stores(states, moves, n, p); Had(states, i, e) == w[|w| - 1]
    ensures var w := Stores(states, moves, n, j); Had(states, r, d) == w[|w| - 1]
  {
    hide Follows;
    var q;
    p, q := ReadGets(states, moves, n, i, b, e);
    j, q := ReadGets(states, moves, n, r, c, d);
    StoresGrow(states, moves, n, p, j);
    CopyIsLastStored(states, moves, n, p);
    CopyIsLastStored(states, moves, n, j);
  }
}
