/** The jump optimizer of lpcode.c: labels go to their final targets, and jumps to instructions that jump themselves
    become those instructions. Whatever it rewrites, and in whatever order, the program keeps its outcomes. */
module PegPeephole {
  import opened Charsets
  import opened Peg
  import opened PegMachine
  import opened PegCode
  import opened PegCorrect

  // ----------------------------------------------------------------- instructions

  predicate HasLabel(i: Instr) {
    i.ITestAny? || i.ITestChar? || i.ITestSet? || i.IChoice? || i.IJmp? || i.ICommit? || i.IPartialCommit? ||
    i.IBackCommit?
  }

  function Offset(i: Instr): int {
    if HasLabel(i) then i.off else 0
  }

  /** setoffset. */
  function WithOffset(i: Instr, off: int): Instr {
    match i
    case ITestAny(_) => ITestAny(off)
    case ITestChar(c, _) => ITestChar(c, off)
    case ITestSet(cs, _) => ITestSet(cs, off)
    case IChoice(_) => IChoice(off)
    case IJmp(_) => IJmp(off)
    case ICommit(_) => ICommit(off)
    case IPartialCommit(_) => IPartialCommit(off)
    case IBackCommit(_) => IBackCommit(off)
    case _ => i
  }

  /** Equal but for the offset. */
  predicate SameOp(a: Instr, b: Instr) {
    WithOffset(a, 0) == WithOffset(b, 0)
  }

  /** Instructions that may go on with the next one. */
  predicate Falls(i: Instr) {
    !(i.IEnd? || i.IFail? || i.IFailTwice? || i.IJmp? || i.ICommit? || i.IPartialCommit? || i.IBackCommit?)
  }

  // -------------------------------------------------------- code without jump cycles

  /**
   * Labels stay within the code or point just behind it. A jump back is the end
   * of a loop: if it meets another jump, that one leaves the loop.
   */
  ghost predicate TidyAt(b: seq<Instr>, i: nat)
    requires i < |b|
  {
    HasLabel(b[i]) ==>
      var off := Offset(b[i]);
      0 <= i + off <= |b| && (b[i].IJmp? && off <= 0 ==> off < 0 && (b[i + off].IJmp? ==> b[i + off].off == 1 - off))
  }

  ghost predicate Tidy(b: seq<Instr>) {
    forall i :: 0 <= i < |b| ==> TidyAt(b, i)
  }

  lemma TidyJoin(a: seq<Instr>, b: seq<Instr>)
    requires Tidy(a) && Tidy(b)
    ensures Tidy(a + b)
  {
    forall i | 0 <= i < |a + b|
      ensures TidyAt(a + b, i)
    {
      if i < |a| {
        assert TidyAt(a, i);
      } else {
        assert TidyAt(b, i - |a|);
      }
    }
  }

  /** An instruction in front whose label goes forward. */
  lemma TidyFront(x: Instr, rest: seq<Instr>)
    requires Tidy(rest) && (HasLabel(x) ==> 0 < Offset(x) <= 1 + |rest|)
    ensures Tidy([x] + rest)
  {
    forall i | 0 <= i < 1 + |rest|
      ensures TidyAt([x] + rest, i)
    {
      if i > 0 {
        assert TidyAt(rest, i - 1);
      }
    }
  }

  lemma TidyTest(t: Test, off: int, rest: seq<Instr>)
    requires Tidy(rest) && 0 < off <= 1 + |rest|
    ensures Tidy(TestCode(t, off) + rest)
  {
    match t
    case NoTest => assert [] + rest == rest;
    case TestNever => TidyFront(IJmp(off), rest);
    case TestAny => TidyFront(ITestAny(off), rest);
    case TestChar(c) => TidyFront(ITestChar(c, off), rest);
    case TestSet(cs) => TidyFront(ITestSet(cs, off), rest);
  }

  /** An instruction behind whose label goes back to a place in the code. */
  lemma TidyBack(b: seq<Instr>, x: Instr)
    requires Tidy(b) && !x.IJmp? && (HasLabel(x) ==> -|b| <= Offset(x) <= 1)
    ensures Tidy(b + [x])
  {
    forall i | 0 <= i < |b| + 1
      ensures TidyAt(b + [x], i)
    {
      if i < |b| {
        assert TidyAt(b, i);
      }
    }
  }

  /** A tested loop. */
  lemma TidyLoop(t: Test, b: seq<Instr>)
    requires Tidy(b) && t != NoTest
    ensures Tidy(TestCode(t, 2 + |b|) + (b + [IJmp(-(1 + |b|))]))
  {
    var back := IJmp(-(1 + |b|));
    var c := TestCode(t, 2 + |b|) + (b + [back]);
    assert |TestCode(t, 2 + |b|)| == 1 && HasLabel(c[0]) && Offset(c[0]) == 2 + |b| == |c|;
    forall i | 0 <= i < |c|
      ensures TidyAt(c, i)
    {
      if 0 < i < 1 + |b| {
        assert TidyAt(b, i - 1);
        assert c[i] == b[i - 1];
      } else if i == 1 + |b| {
        assert c[i] == back && i + back.off == 0;
      }
    }
  }

  lemma TidyOne(x: Instr)
    requires HasLabel(x) ==> Offset(x) == 1
    ensures Tidy([x]) && Tidy([])
  {
  }

  lemma {:induction false} GenTidy(p: Tree, opt: bool, tt: Test, fl: Charset)
    ensures Tidy(Gen(p, opt, tt, fl))
    decreases p, 1
  {
    GenForms(p, opt, tt, fl);
    hide TestedChoice, PlainChoice, TestedRep, PlainRep, NotCode, AndCode, Tidy, ChoiceByTest, RepByTest;
    hide ToCharset, KindOf, Follow, SeqTest;
    match p
    case TChar(c) => TidyOne(CharCode(c, tt));
    case TAny => TidyOne(IAny);
    case TSet(cs) => TidyOne(SetCode(cs, tt));
    case TTrue => TidyOne(IAny);
    case TFalse => TidyOne(IFail);
    case TSeq(p1, p2) =>
      GenTidy(p1, false, tt, Follow(p1, p2, fl));
      GenTidy(p2, opt, SeqTest(p1, tt), fl);
      TidyJoin(Gen(p1, false, tt, Follow(p1, p2, fl)), Gen(p2, opt, SeqTest(p1, tt), fl));
    case TChoice(p1, p2) =>
      if ChoiceByTest(p, fl) {
        TestedChoiceTidy(p, opt, fl);
      } else if opt && p2.TTrue? {
        GenTidy(p1, true, NoTest, FullSet());
        TidyFront(IPartialCommit(1), Gen(p1, true, NoTest, FullSet()));
      } else {
        PlainChoiceTidy(p, opt, fl);
      }
    case TRep(body) =>
      if ToCharset(body).Some? {
        TidyOne(ISpan(ToCharset(body).value));
      } else {
        TestedRepTidy(p);
        PlainRepTidy(p, opt);
      }
    case TBehind(body, n) =>
      GenTidy(body, false, NoTest, FullSet());
      TidyOne(IBehind(n));
      TidyJoin(if n > 0 then [IBehind(n)] else [], Gen(body, false, NoTest, FullSet()));
    case TNot(body) => NotTidy(p);
    case TAnd(body) => AndTidy(p, tt);
  }

  lemma {:induction false} TestedChoiceTidy(p: Tree, opt: bool, fl: Charset)
    requires p.TChoice?
    ensures Tidy(TestedChoice(p, opt, fl))
    decreases p, 0
  {
    hide Tidy, Gen, TestFor, GetFirst, TestCode;
    var test := TestFor(GetFirst(p.p1, FullSet()).set_, false);
    var b1, b2 := Gen(p.p1, false, test, fl), Gen(p.p2, opt, NoTest, fl);
    var jmp := if p.p2.TTrue? then [] else [IJmp(1 + |b2|)];
    GenTidy(p.p1, false, test, fl);
    GenTidy(p.p2, opt, NoTest, fl);
    TidyFront(IJmp(1 + |b2|), b2);
    assert [] + b2 == b2;
    TidyJoin(b1, jmp + b2);
    TidyTest(test, 1 + |b1| + |jmp|, b1 + (jmp + b2));
  }

  lemma {:induction false} PlainChoiceTidy(p: Tree, opt: bool, fl: Charset)
    requires p.TChoice?
    ensures Tidy(PlainChoice(p, opt, fl))
    decreases p, 0
  {
    hide Tidy, Gen, TestFor, GetFirst, TestCode;
    var f1 := GetFirst(p.p1, FullSet());
    var test := TestFor(f1.set_, f1.empty);
    var b1, b2 := Gen(p.p1, p.p2.TTrue?, test, FullSet()), Gen(p.p2, opt, NoTest, fl);
    GenTidy(p.p1, p.p2.TTrue?, test, FullSet());
    GenTidy(p.p2, opt, NoTest, fl);
    TidyFront(ICommit(1 + |b2|), b2);
    var c := [ICommit(1 + |b2|)] + b2;
    TidyJoin(b1, c);
    TidyFront(IChoice(2 + |b1|), b1 + c);
    TidyTest(test, 3 + |b1|, [IChoice(2 + |b1|)] + (b1 + c));
  }

  lemma {:induction false} TestedRepTidy(p: Tree)
    requires p.TRep?
    ensures Tidy(TestedRep(p))
    decreases p, 0
  {
    hide Tidy, Gen, GetFirst, TestCode, KindOf;
    var test := TestFor(GetFirst(p.body, FullSet()).set_, false);
    GenTidy(p.body, false, test, FullSet());
    TidyLoop(test, Gen(p.body, false, test, FullSet()));
  }

  lemma {:induction false} PlainRepTidy(p: Tree, opt: bool)
    requires p.TRep?
    ensures Tidy(PlainRep(p, opt))
    decreases p, 0
  {
    hide Tidy, Gen, GetFirst, TestFor, TestCode;
    var f := GetFirst(p.body, FullSet());
    var b := Gen(p.body, false, NoTest, FullSet());
    GenTidy(p.body, false, NoTest, FullSet());
    TidyBack(b, IPartialCommit(-|b|));
    var x := if opt then IPartialCommit(1) else IChoice(2 + |b|);
    TidyFront(x, b + [IPartialCommit(-|b|)]);
    TidyTest(TestFor(f.set_, f.empty), 3 + |b|, [x] + (b + [IPartialCommit(-|b|)]));
  }

  lemma {:induction false} NotTidy(p: Tree)
    requires p.TNot?
    ensures Tidy(NotCode(p))
    decreases p, 0
  {
    hide Tidy, Gen, GetFirst, TestFor, TestCode, HeadFail;
    var f := GetFirst(p.body, FullSet());
    var test, b := TestFor(f.set_, f.empty), Gen(p.body, false, NoTest, FullSet());
    TidyOne(IFail);
    TidyTest(test, 2, [IFail]);
    GenTidy(p.body, false, NoTest, FullSet());
    TidyBack(b, IFailTwice);
    TidyFront(IChoice(2 + |b|), b + [IFailTwice]);
    TidyTest(test, 3 + |b|, [IChoice(2 + |b|)] + (b + [IFailTwice]));
  }

  lemma {:induction false} AndTidy(p: Tree, tt: Test)
    requires p.TAnd?
    ensures Tidy(AndCode(p, tt))
    decreases p, 0
  {
    hide Tidy, Gen, FixedLen;
    var n, b := FixedLen(p.body), Gen(p.body, false, tt, FullSet());
    GenTidy(p.body, false, tt, FullSet());
    if 0 <= n <= MAXBEHIND {
      TidyOne(IBehind(n));
      TidyJoin(b, if n > 0 then [IBehind(n)] else []);
    } else {
      TidyOne(IFail);
      TidyFront(IBackCommit(2), [IFail]);
      TidyJoin(b, [IBackCommit(2)] + [IFail]);
      TidyFront(IChoice(2 + |b|), b + ([IBackCommit(2)] + [IFail]));
    }
  }

  // -------------------------------------------------------------- final targets

  /** Tidy code that ends with the only instruction that labels may point just behind the rest for. */
  ghost predicate Program(code: seq<Instr>) {
    |code| > 0 && code[|code| - 1] == IEnd && Tidy(code) &&
    forall i :: 0 <= i < |code| && HasLabel(code[i]) ==> i + Offset(code[i]) < |code|
  }

  lemma CompiledProgram(p: Tree)
    ensures Program(Compile(p))
  {
    var b := Gen(p, false, NoTest, FullSet());
    GenTidy(p, false, NoTest, FullSet());
    hide Gen;
    TidyOne(IEnd);
    TidyJoin(b, [IEnd]);
    var code := b + [IEnd];
    assert forall i :: 0 <= i < |b| ==> TidyAt(b, i) && code[i] == b[i];
  }

  /** finaltarget: where a chain of jumps ends. */
  ghost function Final(code: seq<Instr>, p: int): (r: int)
    requires Program(code) && 0 <= p < |code|
    ensures 0 <= r < |code| && !code[r].IJmp?
    decreases |code| - p
  {
    assert TidyAt(code, p);
    if !code[p].IJmp? then p
    else if code[p].off > 0 then Final(code, p + code[p].off)
    else if code[p + code[p].off].IJmp? then Final(code, p + 1)
    else p + code[p].off
  }

  /** How many jumps that takes. */
  ghost function Rank(code: seq<Instr>, p: int): nat
    requires Program(code) && 0 <= p < |code|
    decreases |code| - p
  {
    assert TidyAt(code, p);
    if !code[p].IJmp? then 0
    else if code[p].off > 0 then 1 + Rank(code, p + code[p].off)
    else if code[p + code[p].off].IJmp? then 2 + Rank(code, p + 1)
    else 1
  }

  lemma FinalJmp(code: seq<Instr>, p: int)
    requires Program(code) && 0 <= p < |code| && code[p].IJmp?
    ensures 0 <= p + code[p].off < |code|
    ensures Final(code, p + code[p].off) == Final(code, p) && Rank(code, p + code[p].off) == Rank(code, p) - 1
  {
    assert TidyAt(code, p);
  }

  // ---------------------------------------------------- programs with the same meaning

  /**
   * Place p of the rewritten code: a jump with the final target it always had;
   * or the instruction that its final target had, with a label that ends up at
   * the same place, and at its old place if it may go on with the next one.
   */
  ghost predicate Fits(code0: seq<Instr>, code: seq<Instr>, p: int)
    requires Program(code0) && |code| == |code0| && 0 <= p < |code|
  {
    var q := p + Offset(code[p]);
    (HasLabel(code[p]) ==> 0 <= q < |code|) &&
    if code[p].IJmp? then
      code0[p].IJmp? && Final(code0, q) == Final(code0, p) && (code[p] == code0[p] || !code[q].IJmp?)
    else
      var f := Final(code0, p);
      SameOp(code[p], code0[f]) && (Falls(code[p]) ==> p == f) &&
      (HasLabel(code[p]) ==> f + Offset(code0[f]) >= 0 && Final(code0, q) == Final(code0, f + Offset(code0[f])))
  }

  ghost predicate Rewritten(code0: seq<Instr>, code: seq<Instr>) {
    Program(code0) && |code| == |code0| && forall p :: 0 <= p < |code| ==> Fits(code0, code, p)
  }

  lemma RewrittenSelf(code: seq<Instr>)
    requires Program(code)
    ensures Rewritten(code, code)
  {
    forall p | 0 <= p < |code|
      ensures Fits(code, code, p)
    {
      assert TidyAt(code, p);
      if code[p].IJmp? {
        FinalJmp(code, p);
      }
    }
  }

  /** A place at which all jumps have been followed. */
  ghost predicate Settled(code: seq<Instr>, p: int)
    requires 0 <= p < |code|
  {
    HasLabel(code[p]) ==>
      var q := p + Offset(code[p]);
      0 <= q < |code| && !code[q].IJmp? && (code[p].IJmp? ==> Falls(code[q]))
  }

  // ------------------------------------------------------------------ outcomes

  ghost predicate SamePlaces(code0: seq<Instr>, k: seq<Frame>, k': seq<Frame>)
    requires Program(code0)
  {
    |k| == |k'| && forall i :: 0 <= i < |k| ==> SamePlace(code0, k[i], k'[i])
  }

  ghost predicate SamePlace(code0: seq<Instr>, a: Frame, b: Frame)
    requires Program(code0)
  {
    0 <= a.pc < |code0| && 0 <= b.pc < |code0| && a.s == b.s && Final(code0, a.pc) == Final(code0, b.pc)
  }

  /** The same configuration, but for jumps still to be followed. */
  ghost predicate Related(code0: seq<Instr>, c: Config, c': Config)
    requires Program(code0)
  {
    if c.Run? then
      c'.Run? && 0 <= c.pc < |code0| && 0 <= c'.pc < |code0| && c.s == c'.s &&
      Final(code0, c.pc) == Final(code0, c'.pc) && SamePlaces(code0, c.k, c'.k)
    else c' == c
  }

  /** Following the jumps of the rewritten code. */
  lemma {:induction false} RunJumps(code0: seq<Instr>, m: Machine, pc: int, s: nat, k: seq<Frame>) returns (r: int)
    requires Rewritten(code0, m.code) && 0 <= pc < |m.code| && s <= |m.subj|
    ensures 0 <= r < |m.code| && !m.code[r].IJmp? && Final(code0, r) == Final(code0, pc)
    ensures Reaches(m, Run(pc, s, k), Run(r, s, k))
    decreases if !m.code[pc].IJmp? then 0 else if m.code[pc] == code0[pc] then Rank(code0, pc) + 1 else 1
  {
    hide Reaches, Final, Rank;
    if !m.code[pc].IJmp? {
      r := pc;
      ReachesSelf(m, Run(pc, s, k));
    } else {
      assert Fits(code0, m.code, pc);
      var q := pc + m.code[pc].off;
      ReachesStep(m, Run(pc, s, k));
      JumpShrinks(code0, m.code, pc, q);
      r := RunJumps(code0, m, q, s, k);
      ReachesTrans(m, Run(pc, s, k), Run(q, s, k), Run(r, s, k));
    }
  }

  lemma JumpShrinks(code0: seq<Instr>, code: seq<Instr>, p: int, q: int)
    requires Rewritten(code0, code) && 0 <= p < |code| && code[p].IJmp? && q == p + code[p].off
    ensures 0 <= q < |code|
    ensures code[p] == code0[p] ==> Rank(code0, p) == Rank(code0, q) + 1 > 0
    ensures code[p] != code0[p] ==> !code[q].IJmp?
  {
    assert Fits(code0, code, p);
    if code[p] == code0[p] {
      FinalJmp(code0, p);
    }
  }

  lemma FailRelated(code0: seq<Instr>, k: seq<Frame>, k': seq<Frame>)
    requires Program(code0) && SamePlaces(code0, k, k')
    ensures Related(code0, Fail(k), Fail(k'))
    ensures k != [] ==> SamePlaces(code0, k[1..], k'[1..])
  {
    hide Final;
    if k != [] {
      assert SamePlace(code0, k[0], k'[0]);
      forall i | 0 <= i < |k| - 1
        ensures SamePlace(code0, k[1..][i], k'[1..][i])
      {
        assert SamePlace(code0, k[i + 1], k'[i + 1]);
      }
    }
  }

  lemma PushRelated(code0: seq<Instr>, a: Frame, b: Frame, k: seq<Frame>, k': seq<Frame>)
    requires Program(code0) && SamePlaces(code0, k, k') && SamePlace(code0, a, b)
    ensures SamePlaces(code0, [a] + k, [b] + k')
  {
    hide SamePlace;
    forall i | 0 <= i < 1 + |k|
      ensures SamePlace(code0, ([a] + k)[i], ([b] + k')[i])
    {
      if i > 0 {
        assert SamePlace(code0, k[i - 1], k'[i - 1]);
      }
    }
  }

  /** What an instruction of the rewritten code has in common with the one it stands for. */
  lemma OpParts(code0: seq<Instr>, code: seq<Instr>, f: int, r: int)
    requires Rewritten(code0, code) && 0 <= f < |code| && 0 <= r < |code|
    requires !code[r].IJmp? && Final(code0, r) == f
    ensures SameOp(code[r], code0[f]) && !code0[f].IJmp? && Final(code0, f) == f
    ensures Falls(code[r]) ==> r == f && f + 1 < |code|
    ensures HasLabel(code[r]) ==>
      0 <= r + Offset(code[r]) < |code| && 0 <= f + Offset(code0[f]) < |code| &&
      Final(code0, r + Offset(code[r])) == Final(code0, f + Offset(code0[f]))
  {
    assert Fits(code0, code, r);
    assert TidyAt(code0, f);
  }

  lemma RunRelated(code0: seq<Instr>, pc: int, pc': int, s: nat, k: seq<Frame>, k': seq<Frame>)
    requires Program(code0) && 0 <= pc < |code0| && 0 <= pc' < |code0| && Final(code0, pc) == Final(code0, pc')
    requires SamePlaces(code0, k, k')
    ensures Related(code0, Run(pc, s, k), Run(pc', s, k'))
  {
    hide Final, SamePlaces;
  }

  /** What OpParts says, for the lemmas that follow. */
  ghost predicate StandsFor(code0: seq<Instr>, code: seq<Instr>, f: int, r: int) {
    Program(code0) && |code| == |code0| && 0 <= f < |code| && 0 <= r < |code| &&
    SameOp(code[r], code0[f]) && !code0[f].IJmp? && (Falls(code[r]) ==> r == f && f + 1 < |code|) &&
    (HasLabel(code[r]) ==>
      0 <= r + Offset(code[r]) < |code| && 0 <= f + Offset(code0[f]) < |code| &&
      Final(code0, r + Offset(code[r])) == Final(code0, f + Offset(code0[f])))
  }

  ghost predicate Steps1(code0: seq<Instr>, code: seq<Instr>, subj: Subject, f: int, r: int, s: nat,
                         k: seq<Frame>, k': seq<Frame>)
    requires Program(code0)
  {
    Related(code0, Step(Machine(code0, subj), Run(f, s, k)), Step(Machine(code, subj), Run(r, s, k')))
  }

  lemma PlainStep(code0: seq<Instr>, code: seq<Instr>, subj: Subject, f: int, r: int, s: nat,
                  k: seq<Frame>, k': seq<Frame>)
    requires StandsFor(code0, code, f, r) && SamePlaces(code0, k, k') && s <= |subj|
    requires Falls(code0[f]) && !HasLabel(code0[f])
    ensures Steps1(code0, code, subj, f, r, s, k, k')
  {
    hide Final, SamePlaces, Related, Program;
    assert code[r] == code0[f] && r == f;
    FailRelated(code0, k, k');
    RunRelated(code0, f + 1, f + 1, s, k, k');
    RunRelated(code0, f + 1, f + 1, s + 1, k, k');
    match code0[f] {
      case ISpan(cs) => RunRelated(code0, f + 1, f + 1, Span(cs, subj, s), k, k');
      case IBehind(n) =>
        if n <= s {
          RunRelated(code0, f + 1, f + 1, s - n, k, k');
        }
      case _ =>
    }
  }

  lemma TestStep(code0: seq<Instr>, code: seq<Instr>, subj: Subject, f: int, r: int, s: nat,
                 k: seq<Frame>, k': seq<Frame>)
    requires StandsFor(code0, code, f, r) && SamePlaces(code0, k, k') && s <= |subj|
    requires code0[f].ITestAny? || code0[f].ITestChar? || code0[f].ITestSet?
    ensures Steps1(code0, code, subj, f, r, s, k, k')
  {
    hide Final, SamePlaces, Related, Program;
    RunRelated(code0, f + 1, f + 1, s, k, k');
    RunRelated(code0, f + Offset(code0[f]), r + Offset(code[r]), s, k, k');
  }

  lemma ChoiceStep(code0: seq<Instr>, code: seq<Instr>, subj: Subject, f: int, r: int, s: nat,
                   k: seq<Frame>, k': seq<Frame>)
    requires StandsFor(code0, code, f, r) && SamePlaces(code0, k, k') && s <= |subj| && code0[f].IChoice?
    ensures Steps1(code0, code, subj, f, r, s, k, k')
  {
    hide Final, SamePlaces, Related, Program;
    var a, b := Frame(f + code0[f].off, s), Frame(r + code[r].off, s);
    PushRelated(code0, a, b, k, k');
    RunRelated(code0, f + 1, f + 1, s, [a] + k, [b] + k');
  }

  lemma CommitStep(code0: seq<Instr>, code: seq<Instr>, subj: Subject, f: int, r: int, s: nat,
                   k: seq<Frame>, k': seq<Frame>)
    requires StandsFor(code0, code, f, r) && SamePlaces(code0, k, k') && s <= |subj| && code0[f].ICommit?
    ensures Steps1(code0, code, subj, f, r, s, k, k')
  {
    SameHeight(code0, k, k');
    hide Final, SamePlaces, Program;
    if k != [] {
      var q, q' := f + code0[f].off, r + code[r].off;
      FailRelated(code0, k, k');
      RunRelated(code0, q, q', s, k[1..], k'[1..]);
    }
  }

  lemma PartialCommitStep(code0: seq<Instr>, code: seq<Instr>, subj: Subject, f: int, r: int, s: nat,
                          k: seq<Frame>, k': seq<Frame>)
    requires StandsFor(code0, code, f, r) && SamePlaces(code0, k, k') && s <= |subj| && code0[f].IPartialCommit?
    ensures Steps1(code0, code, subj, f, r, s, k, k')
  {
    SameHeight(code0, k, k');
    hide Final, SamePlaces, Program;
    if k != [] {
      var q, q' := f + code0[f].off, r + code[r].off;
      TopRelated(code0, k, k', s);
      RunRelated(code0, q, q', s, [Frame(k[0].pc, s)] + k[1..], [Frame(k'[0].pc, s)] + k'[1..]);
    }
  }

  lemma BackCommitStep(code0: seq<Instr>, code: seq<Instr>, subj: Subject, f: int, r: int, s: nat,
                       k: seq<Frame>, k': seq<Frame>)
    requires StandsFor(code0, code, f, r) && SamePlaces(code0, k, k') && s <= |subj| && code0[f].IBackCommit?
    ensures Steps1(code0, code, subj, f, r, s, k, k')
  {
    SameHeight(code0, k, k');
    hide Final, SamePlaces, Program;
    if k != [] {
      var q, q' := f + code0[f].off, r + code[r].off;
      TopRelated(code0, k, k', s);
      FailRelated(code0, k, k');
      RunRelated(code0, q, q', k[0].s, k[1..], k'[1..]);
    }
  }

  lemma EndStep(code0: seq<Instr>, code: seq<Instr>, subj: Subject, f: int, r: int, s: nat,
                k: seq<Frame>, k': seq<Frame>)
    requires StandsFor(code0, code, f, r) && SamePlaces(code0, k, k') && s <= |subj|
    requires code0[f].IEnd? || code0[f].IFail? || code0[f].IFailTwice?
    ensures Steps1(code0, code, subj, f, r, s, k, k')
  {
    SameHeight(code0, k, k');
    hide Final, SamePlaces, Program;
    FailRelated(code0, k, k');
    if k != [] {
      FailRelated(code0, k[1..], k'[1..]);
    }
  }

  /** Executing it. */
  lemma OpStep(code0: seq<Instr>, m0: Machine, m: Machine, f: int, r: int, s: nat, k: seq<Frame>, k': seq<Frame>)
    requires Rewritten(code0, m.code) && m0 == Machine(code0, m.subj) && s <= |m.subj|
    requires 0 <= f < |code0| && 0 <= r < |code0| && !m.code[r].IJmp? && Final(code0, r) == f
    requires SamePlaces(code0, k, k')
    ensures Related(code0, Step(m0, Run(f, s, k)), Step(m, Run(r, s, k')))
  {
    var code, subj := m.code, m.subj;
    OpParts(code0, code, f, r);
    assert StandsFor(code0, code, f, r);
    assert m0 == Machine(code0, subj) && m == Machine(code, subj);
    hide Final, SamePlaces, Rewritten, StandsFor, Related, Step;
    var i := code0[f];
    if i.ITestAny? || i.ITestChar? || i.ITestSet? {
      TestStep(code0, code, subj, f, r, s, k, k');
    } else if i.IChoice? {
      ChoiceStep(code0, code, subj, f, r, s, k, k');
    } else if Falls(i) {
      PlainStep(code0, code, subj, f, r, s, k, k');
    } else if i.ICommit? {
      CommitStep(code0, code, subj, f, r, s, k, k');
    } else if i.IPartialCommit? {
      PartialCommitStep(code0, code, subj, f, r, s, k, k');
    } else if i.IBackCommit? {
      BackCommitStep(code0, code, subj, f, r, s, k, k');
    } else {
      EndStep(code0, code, subj, f, r, s, k, k');
    }
  }

  lemma SameHeight(code0: seq<Instr>, k: seq<Frame>, k': seq<Frame>)
    requires Program(code0) && SamePlaces(code0, k, k')
    ensures |k| == |k'|
  {
  }

  lemma TopRelated(code0: seq<Instr>, k: seq<Frame>, k': seq<Frame>, s: nat)
    requires Program(code0) && SamePlaces(code0, k, k') && k != []
    ensures k' != [] && k[0].s == k'[0].s
    ensures SamePlaces(code0, [Frame(k[0].pc, s)] + k[1..], [Frame(k'[0].pc, s)] + k'[1..])
  {
    hide Final;
    assert SamePlace(code0, k[0], k'[0]);
    FailRelated(code0, k, k');
    PushRelated(code0, Frame(k[0].pc, s), Frame(k'[0].pc, s), k[1..], k'[1..]);
  }

  /** One round of the original program is some rounds of the rewritten one. */
  lemma SimulateStep(code0: seq<Instr>, m0: Machine, m: Machine, c: Config, c': Config) returns (d: Config)
    requires Rewritten(code0, m.code) && m0 == Machine(code0, m.subj) && c.Run? && Related(code0, c, c')
    ensures Reaches(m, c', d) && Related(code0, Step(m0, c), d)
  {
    hide Reaches, Final, SamePlaces;
    if c.s > |m.subj| {
      ReachesStep(m, c');
      d := Stuck;
    } else if code0[c.pc].IJmp? {
      FinalJmp(code0, c.pc);
      ReachesSelf(m, c');
      d := c';
    } else {
      NoJump(code0, c.pc);
      var r := RunJumps(code0, m, c'.pc, c'.s, c'.k);
      OpStep(code0, m0, m, c.pc, r, c.s, c.k, c'.k);
      ReachesStep(m, Run(r, c.s, c'.k));
      d := Step(m, Run(r, c.s, c'.k));
      ReachesTrans(m, c', Run(r, c.s, c'.k), d);
    }
  }

  lemma NoJump(code: seq<Instr>, p: int)
    requires Program(code) && 0 <= p < |code| && !code[p].IJmp?
    ensures Final(code, p) == p
  {
  }

  lemma {:induction false} Simulate(code0: seq<Instr>, m0: Machine, m: Machine, c: Config, c': Config, n: nat)
    requires Rewritten(code0, m.code) && m0 == Machine(code0, m.subj) && Related(code0, c, c')
    requires !Steps(m0, c, n).Run?
    ensures Reaches(m, c', Steps(m0, c, n))
    decreases n
  {
    hide Reaches, Rewritten, Step, SamePlaces, Final;
    if !c.Run? {
      EndStays(m0, c, n);
      ReachesSelf(m, c');
    } else {
      var d := SimulateStep(code0, m0, m, c, c');
      Simulate(code0, m0, m, Step(m0, c), d, n - 1);
      ReachesTrans(m, c', d, Steps(m0, c, n));
    }
  }

  /** Every outcome of a program is the outcome of every rewriting of it. */
  lemma SameOutcome(code0: seq<Instr>, code: seq<Instr>, subj: Subject, s: nat, c: Config)
    requires Rewritten(code0, code) && !c.Run? && Reaches(Machine(code0, subj), Run(0, s, []), c)
    ensures Reaches(Machine(code, subj), Run(0, s, []), c)
  {
    var m0 := Machine(code0, subj);
    var n: nat :| Steps(m0, Run(0, s, []), n) == c;
    hide Reaches;
    Simulate(code0, m0, Machine(code, subj), Run(0, s, []), Run(0, s, []), n);
  }

  /** The compiler with its optimizer is correct: on any subject and from any position the optimized program ends as
      the pattern says, and in no other way. */
  lemma OptimizedExact(p: Tree, code: seq<Instr>, subj: Subject, s: nat)
    requires Accepted(p) && s <= |subj| && Rewritten(Compile(p), code)
    ensures var r := Match(p, subj, s);
      var end := if r.Some? then Accept(r.value) else Reject;
      Reaches(Machine(code, subj), Run(0, s, []), end) &&
      forall c: Config :: !c.Run? && Reaches(Machine(code, subj), Run(0, s, []), c) ==> c == end
  {
    hide Reaches, Compile, Match, Rewritten;
    var r := Match(p, subj, s);
    var end := if r.Some? then Accept(r.value) else Reject;
    CompileCorrect(p, subj, s);
    SameOutcome(Compile(p), code, subj, s, end);
    forall c: Config | !c.Run? && Reaches(Machine(code, subj), Run(0, s, []), c)
      ensures c == end
    {
      OneOutcome(Machine(code, subj), Run(0, s, []), c, end);
    }
  }

  // ----------------------------------------------------------- single rewritings

  /** One place is rewritten, and fits there. */
  lemma RewriteOne(code0: seq<Instr>, code: seq<Instr>, i: int, x: Instr)
    requires Rewritten(code0, code) && 0 <= i < |code| && (x.IJmp? ==> code[i].IJmp?)
    requires Fits(code0, code[i := x], i)
    ensures Rewritten(code0, code[i := x])
  {
    hide Final;
    var code' := code[i := x];
    forall p | 0 <= p < |code'|
      ensures Fits(code0, code', p)
    {
      assert Fits(code0, code, p);
    }
  }

  /** A label that ends up where the old one did. */
  lemma RewriteLabel(code0: seq<Instr>, code: seq<Instr>, i: int, q: int)
    requires Rewritten(code0, code) && 0 <= i < |code| && HasLabel(code[i]) && !code[i].IJmp? && 0 <= q < |code|
    requires 0 <= i + Offset(code[i]) < |code| && Final(code0, q) == Final(code0, i + Offset(code[i]))
    ensures Rewritten(code0, code[i := WithOffset(code[i], q - i)])
  {
    hide Final;
    assert Fits(code0, code, i);
    RewriteOne(code0, code, i, WithOffset(code[i], q - i));
  }

  /** A jump straight to the end of its chain. */
  lemma RewriteJump(code0: seq<Instr>, code: seq<Instr>, i: int, q: int)
    requires Rewritten(code0, code) && 0 <= i < |code| && code[i].IJmp? && 0 <= q < |code| && !code[q].IJmp?
    requires Final(code0, q) == Final(code0, i)
    ensures Rewritten(code0, code[i := IJmp(q - i)])
  {
    hide Final;
    assert Fits(code0, code, i);
    RewriteOne(code0, code, i, IJmp(q - i));
  }

  /** A jump that becomes the instruction at the end of its chain, its label still going to the same place. */
  lemma RewriteCopy(code0: seq<Instr>, code: seq<Instr>, i: int, ft: int, x: Instr)
    requires Rewritten(code0, code) && 0 <= i < |code| && code[i].IJmp? && 0 <= ft < |code| && !code[ft].IJmp?
    requires Final(code0, ft) == Final(code0, i) && !Falls(code[ft]) && SameOp(x, code[ft])
    requires HasLabel(x) ==>
      0 <= i + Offset(x) < |code| && 0 <= ft + Offset(code[ft]) < |code| &&
      Final(code0, i + Offset(x)) == Final(code0, ft + Offset(code[ft]))
    ensures Rewritten(code0, code[i := x])
  {
    hide Final;
    assert Fits(code0, code, ft);
    RewriteOne(code0, code, i, x);
  }

  lemma LabelInRange(code0: seq<Instr>, code: seq<Instr>, i: int)
    requires Rewritten(code0, code) && 0 <= i < |code| && HasLabel(code[i])
    ensures 0 <= i + Offset(code[i]) < |code|
    ensures code[i].IJmp? ==> Final(code0, i + Offset(code[i])) == Final(code0, i)
  {
    assert Fits(code0, code, i);
  }

  /** The assertion at the end of peephole. */
  lemma EndsWithEnd(code0: seq<Instr>, code: seq<Instr>)
    requires Rewritten(code0, code)
    ensures |code| > 0 && code[|code| - 1] == IEnd
  {
    assert Fits(code0, code, |code| - 1);
  }

  /** A settled place stays settled when a jump, or the label of another instruction, is rewritten. */
  lemma SettledStays(code: seq<Instr>, i: int, x: Instr, j: int)
    requires 0 <= i < |code| && 0 <= j < |code| && j != i && Settled(code, j)
    requires code[i].IJmp? || SameOp(x, code[i])
    ensures Settled(code[i := x], j)
  {
  }
}
