/** Code generation as lpcode.c performs it: instructions are appended to a growing buffer with their offsets open, and
    the offsets are patched once the targets are known. */
module PegEmit {
  import opened Basics
  import opened Charsets
  import opened Peg
  import opened PegMachine
  import opened PegCode
  import opened PegPeephole

  const NOINST := -1

  /** The test that instruction tt performs, if there is one. */
  ghost function TestAt(code: seq<Instr>, tt: int): Test
    requires NOINST <= tt < |code|
  {
    if tt == NOINST then NoTest
    else
      match code[tt]
      case ITestAny(_) => TestAny
      case ITestChar(c, _) => TestChar(c)
      case ITestSet(cs, _) => TestSet(cs)
      case IJmp(_) => TestNever
      case _ => NoTest
  }

  /** Patching the one instruction between a and b. */
  lemma PatchMiddle(a: seq<Instr>, i: Instr, b: seq<Instr>, i': Instr)
    ensures (a + [i] + b)[|a|] == i
    ensures (a + [i] + b)[|a| := i'] == a + [i'] + b
  {
  }

  lemma PatchLast(a: seq<Instr>, i: Instr, i': Instr)
    ensures (a + [i])[|a|] == i
    ensures (a + [i])[|a| := i'] == a + [i']
  {
  }

  lemma Assoc(x: seq<Instr>, b: seq<Instr>, c: seq<Instr>)
    ensures x + b + c == x + (b + c)
  {
  }

  /** The shape in which PegCode writes four blocks. */
  lemma Join4(pre: seq<Instr>, a: seq<Instr>, b: seq<Instr>, c: seq<Instr>, d: seq<Instr>)
    ensures pre + a + b + c + d == pre + (a + (b + (c + d)))
  {
    Assoc(pre + a + b, c, d);
    Assoc(pre + a, b, c + d);
    Assoc(pre, a, b + (c + d));
  }

  lemma Join5(pre: seq<Instr>, a: seq<Instr>, b: seq<Instr>, c: seq<Instr>, d: seq<Instr>, e: seq<Instr>)
    ensures pre + a + b + c + d + e == pre + (a + (b + (c + (d + e))))
  {
    Assoc(pre + a + b + c, d, e);
    Join4(pre, a, b, c, d + e);
  }

  class CompileState {
    var code: seq<Instr>

    constructor ()
      ensures code == []
    {
      code := [];
    }

    /** addinstruction and addoffsetinst. */
    method Add(i: Instr) returns (pos: int)
      modifies this
      ensures code == old(code) + [i] && pos == |old(code)|
    {
      pos := |code|;
      code := code + [i];
    }

    /** jumptothere. */
    method JumpToThere(instr: int, target: int)
      requires NOINST <= instr < |code|
      modifies this
      ensures code == if instr < 0 then old(code)
                      else old(code)[instr := WithOffset(old(code)[instr], target - instr)]
    {
      if instr >= 0 {
        code := code[instr := WithOffset(code[instr], target - instr)];
      }
    }

    /** jumptohere. */
    method JumpToHere(instr: int)
      requires NOINST <= instr < |code|
      modifies this
      ensures code == if instr < 0 then old(code)
                      else old(code)[instr := WithOffset(old(code)[instr], |old(code)| - instr)]
    {
      JumpToThere(instr, |code|);
    }

    /** codetestset. */
    method CodeTestSet(cs: Charset, e: bool) returns (test: int)
      modifies this
      ensures code == old(code) + TestCode(TestFor(cs, e), 0)
      ensures test == if e then NOINST else |old(code)|
    {
      hide KindOf;
      if e {
        return NOINST;
      }
      var kind := CharsetType(cs);
      match kind {
        case KFail => test := Add(IJmp(0));
        case KAny => test := Add(ITestAny(0));
        case KChar(c) => test := Add(ITestChar(c, 0));
        case KSet => test := Add(ITestSet(cs, 0));
      }
    }

    /** Patch a test, if there is one, to jump to the current position. */
    method TestToHere(test: int, ghost pre: seq<Instr>, ghost t: Test, ghost rest: seq<Instr>)
      requires code == pre + TestCode(t, 0) + rest
      requires test == if t == NoTest then NOINST else |pre|
      modifies this
      ensures code == pre + TestCode(t, |TestCode(t, 0)| + |rest|) + rest
    {
      if t != NoTest {
        PatchMiddle(pre, TestCode(t, 0)[0], rest, TestCode(t, 1 + |rest|)[0]);
      }
      JumpToHere(test);
    }

    /** codechar. */
    method CodeChar(c: Byte, tt: int)
      requires NOINST <= tt < |code|
      modifies this
      ensures code == old(code) + [CharCode(c, TestAt(old(code), tt))]
    {
      var pos;
      if tt >= 0 && code[tt].ITestChar? && code[tt].c == c {
        pos := Add(IAny);
      } else {
        pos := Add(IChar(c));
      }
    }

    /** codecharset. */
    method CodeCharset(cs: Charset, tt: int)
      requires NOINST <= tt < |code|
      modifies this
      ensures code == old(code) + [SetCode(cs, TestAt(old(code), tt))]
    {
      hide KindOf;
      var kind := CharsetType(cs);
      var pos;
      match kind {
        case KChar(c) => CodeChar(c, tt);
        case KSet =>
          if tt >= 0 && code[tt].ITestSet? && code[tt].cs == cs {
            pos := Add(IAny);
          } else {
            pos := Add(ISet(cs));
          }
        case KFail => pos := Add(IFail);
        case KAny => pos := Add(IAny);
      }
    }

    /** codegen: append the code of a pattern. */
    method CodeGen(p: Tree, opt: bool, tt: int, fl: Charset)
      requires NOINST <= tt < |code|
      modifies this
      ensures code == old(code) + Gen(p, opt, TestAt(old(code), tt), fl)
      decreases p, 2
    {
      hide TestedChoice, PlainChoice, TestedRep, PlainRep, NotCode, AndCode, TestAt;
      ghost var t := TestAt(code, tt);
      match p {
        case TChar(c) => CodeChar(c, tt);
        case TAny => var _ := Add(IAny);
        case TSet(cs) => CodeCharset(cs, tt);
        case TTrue =>
        case TFalse => var _ := Add(IFail);
        case TChoice(_, _) => CodeChoice(p, opt, fl);
        case TRep(_) => CodeRep(p, opt, fl);
        case TBehind(body, n) => CodeBehind(p, opt, tt, fl);
        case TNot(_) => CodeNot(p);
        case TAnd(_) => CodeAnd(p, tt);
        case TSeq(p1, p2) => CodeSeq(p, opt, tt, fl);
      }
    }

    /** codebehind. */
    method CodeBehind(p: Tree, opt: bool, tt: int, fl: Charset)
      requires p.TBehind? && NOINST <= tt < |code|
      modifies this
      ensures code == old(code) + Gen(p, opt, TestAt(old(code), tt), fl)
      decreases p, 1
    {
      hide TestAt, Gen;
      ghost var pre := code;
      GenForms(p, opt, TestAt(code, tt), fl);
      if p.n > 0 {
        var _ := Add(IBehind(p.n));
      }
      NoTestAt(code);
      CodeGen(p.body, false, NOINST, FullSet());
      Assoc(pre, if p.n > 0 then [IBehind(p.n)] else [], Gen(p.body, false, NoTest, FullSet()));
    }

    /** codeseq1 and the tail call of codegen. */
    method CodeSeq(p: Tree, opt: bool, tt: int, fl: Charset)
      requires p.TSeq? && NOINST <= tt < |code|
      modifies this
      ensures code == old(code) + Gen(p, opt, TestAt(old(code), tt), fl)
      decreases p, 1
    {
      hide TestAt, Gen;
      var p1, p2 := p.p1, p.p2;
      ghost var pre, t := code, TestAt(code, tt);
      GenForms(p, opt, t, fl);
      CodeGen(p1, false, tt, if NeedFollow(p1) then GetFirst(p2, fl).set_ else FullSet());
      TestAtKept(pre, Gen(p1, false, t, Follow(p1, p2, fl)), tt);
      NoTestAt(code);
      CodeGen(p2, opt, if FixedLen(p1) != 0 then NOINST else tt, fl);
      Assoc(pre, Gen(p1, false, t, Follow(p1, p2, fl)), Gen(p2, opt, SeqTest(p1, t), fl));
    }

    /** codechoice. */
    method CodeChoice(p: Tree, opt: bool, fl: Charset)
      requires p.TChoice?
      modifies this
      ensures code == old(code) + Gen(p, opt, NoTest, fl)
      decreases p, 1
    {
      hide TestedChoice, PlainChoice, TestAt, Gen;
      GenForms(p, opt, NoTest, fl);
      var f1 := GetFirst(p.p1, FullSet());
      if HeadFail(p.p1) || (!f1.empty && Disjoint(f1.set_, GetFirst(p.p2, fl).set_)) {
        CodeTestedChoice(p, opt, fl);
      } else if opt && p.p2.TTrue? {
        ghost var pre := code;
        var commit := Add(IPartialCommit(0));
        PatchLast(pre, IPartialCommit(0), IPartialCommit(1));
        JumpToHere(commit);
        NoTestAt(code);
        CodeGen(p.p1, true, NOINST, FullSet());
        Assoc(pre, [IPartialCommit(1)], Gen(p.p1, true, NoTest, FullSet()));
      } else {
        CodePlainChoice(p, opt, fl);
      }
    }

    method CodeTestedChoice(p: Tree, opt: bool, fl: Charset)
      requires p.TChoice?
      modifies this
      ensures code == old(code) + TestedChoice(p, opt, fl)
      decreases p, 0
    {
      hide Gen, TestFor, GetFirst, TestAt, TestCode, TestedChoice;
      ghost var pre, t := code, TestFor(GetFirst(p.p1, FullSet()).set_, false);
      ghost var b1, b2 := Gen(p.p1, false, t, fl), Gen(p.p2, opt, NoTest, fl);
      ghost var off := 1 + |b1| + if p.p2.TTrue? then 0 else 1;
      ghost var head := pre + TestCode(t, off) + b1;
      var jmp := CodeTestedFirst(p, fl);
      NoTestAt(code);
      CodeGen(p.p2, opt, NOINST, fl);
      TestedChoiceShape(pre, p, opt, fl);
      if !p.p2.TTrue? {
        PatchMiddle(head, IJmp(0), b2, IJmp(1 + |b2|));
      }
      JumpToHere(jmp);
    }

    /** The test, the first alternative, and the jump over the second one, still open. */
    method CodeTestedFirst(p: Tree, fl: Charset) returns (jmp: int)
      requires p.TChoice?
      modifies this
      ensures var t := TestFor(GetFirst(p.p1, FullSet()).set_, false);
        var b1 := Gen(p.p1, false, t, fl);
        var open := if p.p2.TTrue? then [] else [IJmp(0)];
        code == old(code) + TestCode(t, 1 + |b1| + |open|) + b1 + open &&
        jmp == if p.p2.TTrue? then NOINST else |code| - 1
      decreases p.p1, 9
    {
      hide Gen, TestFor, GetFirst, TestAt, TestCode;
      var cs := GetFirst(p.p1, FullSet()).set_;
      ghost var pre, t := code, TestFor(cs, false);
      ghost var b1 := Gen(p.p1, false, t, fl);
      var test := CodeTestSet(cs, false);
      TestAtNew(pre, cs, false);
      TestCodeSized(t);
      CodeGen(p.p1, false, test, fl);
      jmp := NOINST;
      if !p.p2.TTrue? {
        jmp := Add(IJmp(0));
      }
      ghost var open := if p.p2.TTrue? then [] else [IJmp(0)];
      Assoc(pre + TestCode(t, 0), b1, open);
      TestToHere(test, pre, t, b1 + open);
      Assoc(pre + TestCode(t, 1 + |b1| + |open|), b1, open);
    }

    method CodePlainChoice(p: Tree, opt: bool, fl: Charset)
      requires p.TChoice?
      modifies this
      ensures code == old(code) + PlainChoice(p, opt, fl)
      decreases p, 0
    {
      hide Gen, TestFor, GetFirst, TestAt, TestCode, PlainChoice;
      var f1 := GetFirst(p.p1, FullSet());
      ghost var pre, t := code, TestFor(f1.set_, f1.empty);
      ghost var b1, b2 := Gen(p.p1, p.p2.TTrue?, t, FullSet()), Gen(p.p2, opt, NoTest, fl);
      var test := CodeTestSet(f1.set_, f1.empty);
      TestAtNew(pre, f1.set_, f1.empty);
      TestCodeSized(t);
      ghost var tc := TestCode(t, 0);
      var choice := Add(IChoice(0));
      TestAtKept(pre + tc, [IChoice(0)], test);
      CodeGen(p.p1, p.p2.TTrue?, test, FullSet());
      var commit := Add(ICommit(0));
      CodeChoiceEntry(choice, test, pre, t, b1, ICommit(0));
      NoTestAt(code);
      CodeGen(p.p2, opt, NOINST, fl);
      PatchMiddle(pre + TestCode(t, 3 + |b1|) + [IChoice(2 + |b1|)] + b1, ICommit(0), b2, ICommit(1 + |b2|));
      PlainChoiceShape(pre, p, opt, fl);
      JumpToHere(commit);
    }

    /** Patch a choice, and the test before it if there is one, to jump past the block b and its last instruction. */
    method CodeChoiceEntry(choice: int, test: int, ghost pre: seq<Instr>, ghost t: Test,
                           ghost b: seq<Instr>, ghost last: Instr)
      requires code == pre + TestCode(t, 0) + [IChoice(0)] + b + [last]
      requires choice == |pre + TestCode(t, 0)|
      requires test == if t == NoTest then NOINST else |pre|
      modifies this
      ensures code == pre + TestCode(t, 3 + |b|) + [IChoice(2 + |b|)] + b + [last]
    {
      hide TestCode;
      TestCodeSized(t);
      ghost var tc := TestCode(t, 0);
      Assoc(pre + tc + [IChoice(0)], b, [last]);
      PatchMiddle(pre + tc, IChoice(0), b + [last], IChoice(2 + |b|));
      JumpToHere(choice);
      ghost var body := [IChoice(2 + |b|)] + (b + [last]);
      Assoc(pre + tc, [IChoice(2 + |b|)], b + [last]);
      TestToHere(test, pre, t, body);
      Assoc(pre + TestCode(t, 3 + |b|), [IChoice(2 + |b|)], b + [last]);
      Assoc(pre + TestCode(t, 3 + |b|) + [IChoice(2 + |b|)], b, [last]);
    }

    /** coderep. */
    method CodeRep(p: Tree, opt: bool, fl: Charset)
      requires p.TRep?
      modifies this
      ensures code == old(code) + Gen(p, opt, NoTest, fl)
      decreases p, 1
    {
      hide TestedRep, PlainRep;
      GenForms(p, opt, NoTest, fl);
      var set_ := ToCharset(p.body);
      if set_.Some? {
        var _ := Add(ISpan(set_.value));
      } else {
        var f := GetFirst(p.body, FullSet());
        if HeadFail(p.body) || (!f.empty && Disjoint(f.set_, fl)) {
          CodeTestedRep(p);
        } else {
          CodePlainRep(p, opt);
        }
      }
    }

    method CodeTestedRep(p: Tree)
      requires p.TRep?
      modifies this
      ensures code == old(code) + TestedRep(p)
      decreases p, 0
    {
      hide Gen, TestFor, GetFirst, TestAt, TestCode;
      var cs := GetFirst(p.body, FullSet()).set_;
      ghost var pre, t := code, TestFor(cs, false);
      ghost var b := Gen(p.body, false, t, FullSet());
      var test := CodeTestSet(cs, false);
      TestAtNew(pre, cs, false);
      TestCodeSized(t);
      CodeGen(p.body, false, test, FullSet());
      var jmp := Add(IJmp(0));
      Assoc(pre + TestCode(t, 0), b, [IJmp(0)]);
      TestToHere(test, pre, t, b + [IJmp(0)]);
      ghost var head := pre + TestCode(t, 2 + |b|) + b;
      Assoc(pre + TestCode(t, 2 + |b|), b, [IJmp(0)]);
      PatchLast(head, IJmp(0), IJmp(-(1 + |b|)));
      JumpToThere(jmp, test);
      Join4(pre, TestCode(t, 2 + |b|), b, [IJmp(-(1 + |b|))], []);
    }

    method CodePlainRep(p: Tree, opt: bool)
      requires p.TRep?
      modifies this
      ensures code == old(code) + PlainRep(p, opt)
      decreases p, 0
    {
      hide Gen, TestFor, GetFirst, TestAt, TestCode, PlainRep;
      var f := GetFirst(p.body, FullSet());
      ghost var pre, t := code, TestFor(f.set_, f.empty);
      ghost var b := Gen(p.body, false, NoTest, FullSet());
      var test := CodeTestSet(f.set_, f.empty);
      TestAtNew(pre, f.set_, f.empty);
      TestCodeSized(t);
      ghost var tc := TestCode(t, 0);
      var choice := CodeRepEntry(opt);
      CodeRepBody(p.body);
      PlainRepShape(pre, p, opt);
      if opt {
        Assoc(pre + tc + [IPartialCommit(1)], b, [IPartialCommit(-|b|)]);
        Assoc(pre + tc, [IPartialCommit(1)], b + [IPartialCommit(-|b|)]);
        TestToHere(test, pre, t, [IPartialCommit(1)] + (b + [IPartialCommit(-|b|)]));
      } else {
        CodeChoiceEntry(choice, test, pre, t, b, IPartialCommit(-|b|));
      }
    }

    /** partialcommit L1 (if opt), or choice L2; L1: */
    method CodeRepEntry(opt: bool) returns (choice: int)
      modifies this
      ensures code == old(code) + [if opt then IPartialCommit(1) else IChoice(0)]
      ensures choice == if opt then NOINST else |old(code)|
    {
      choice := NOINST;
      if opt {
        PatchLast(code, IPartialCommit(0), IPartialCommit(1));
        var start := Add(IPartialCommit(0));
        JumpToHere(start);
      } else {
        choice := Add(IChoice(0));
      }
    }

    /** L1: p; partialcommit L1 */
    method CodeRepBody(body: Tree)
      modifies this
      ensures var b := Gen(body, false, NoTest, FullSet());
              code == old(code) + b + [IPartialCommit(-|b|)]
      decreases body, 3
    {
      hide Gen, TestAt;
      ghost var b := Gen(body, false, NoTest, FullSet());
      var l1 := |code|;
      NoTestAt(code);
      CodeGen(body, false, NOINST, FullSet());
      var commit := Add(IPartialCommit(0));
      PatchLast(old(code) + b, IPartialCommit(0), IPartialCommit(-|b|));
      JumpToThere(commit, l1);
    }

    /** codenot. */
    method CodeNot(p: Tree)
      requires p.TNot?
      modifies this
      ensures code == old(code) + NotCode(p)
      decreases p, 1
    {
      hide Gen, TestFor, GetFirst, TestAt, TestCode;
      var f := GetFirst(p.body, FullSet());
      ghost var pre, t := code, TestFor(f.set_, f.empty);
      ghost var b := Gen(p.body, false, NoTest, FullSet());
      var test := CodeTestSet(f.set_, f.empty);
      TestAtNew(pre, f.set_, f.empty);
      TestCodeSized(t);
      if HeadFail(p.body) {
        var _ := Add(IFail);
        TestToHere(test, pre, t, [IFail]);
        Assoc(pre, TestCode(t, 2), [IFail]);
      } else {
        var choice := Add(IChoice(0));
        NoTestAt(code);
        CodeGen(p.body, false, NOINST, FullSet());
        var _ := Add(IFailTwice);
        CodeChoiceEntry(choice, test, pre, t, b, IFailTwice);
        Join4(pre, TestCode(t, 3 + |b|), [IChoice(2 + |b|)], b, [IFailTwice]);
      }
    }

    /** codeand. */
    method CodeAnd(p: Tree, tt: int)
      requires p.TAnd? && NOINST <= tt < |code|
      modifies this
      ensures code == old(code) + AndCode(p, TestAt(old(code), tt))
      decreases p, 1
    {
      hide Gen, TestAt;
      var n := FixedLen(p.body);
      ghost var pre := code;
      ghost var b := Gen(p.body, false, TestAt(code, tt), FullSet());
      if 0 <= n <= MAXBEHIND {
        CodeGen(p.body, false, tt, FullSet());
        if n > 0 {
          var _ := Add(IBehind(n));
          Assoc(pre, b, [IBehind(n)]);
        }
      } else {
        CodePlainAnd(p.body, tt);
      }
    }

    method CodePlainAnd(body: Tree, tt: int)
      requires NOINST <= tt < |code|
      modifies this
      ensures var b := Gen(body, false, TestAt(old(code), tt), FullSet());
              code == old(code) + ([IChoice(2 + |b|)] + (b + ([IBackCommit(2)] + [IFail])))
      decreases body, 3
    {
      hide Gen, TestAt;
      ghost var pre := code;
      ghost var b := Gen(body, false, TestAt(code, tt), FullSet());
      var choice := Add(IChoice(0));
      TestAtKept(pre, [IChoice(0)], tt);
      CodeGen(body, false, tt, FullSet());
      var commit := Add(IBackCommit(0));
      CodeChoiceEntry(choice, NOINST, pre, NoTest, b, IBackCommit(0));
      var _ := Add(IFail);
      PatchMiddle(pre + [IChoice(2 + |b|)] + b, IBackCommit(0), [IFail], IBackCommit(2));
      JumpToHere(commit);
      Join4(pre, [IChoice(2 + |b|)], b, [IBackCommit(2)], [IFail]);
    }

    /** compile: code generation, then the jump optimizer. */
    method Compile(p: Tree)
      modifies this
      requires code == []
      ensures Rewritten(PegCode.Compile(p), code)
      ensures forall j :: 0 <= j < |code| ==> Settled(code, j)
    {
      hide Gen, Rewritten, Settled, Program;
      NoTestAt(code);
      CodeGen(p, false, NOINST, FullSet());
      var _ := Add(IEnd);
      CompiledProgram(p);
      assert code == PegCode.Compile(p);
      Peephole();
    }

    // ------------------------------------------------------------ the jump optimizer

    /** finaltarget. */
    method FinalTarget(i: int, ghost code0: seq<Instr>) returns (r: int)
      requires Rewritten(code0, code) && 0 <= i < |code|
      ensures 0 <= r < |code| && !code[r].IJmp? && Final(code0, r) == Final(code0, i)
    {
      hide Final, Rank, Fits;
      r := i;
      while code[r].IJmp?
        invariant 0 <= r < |code| && Final(code0, r) == Final(code0, i)
        decreases if !code[r].IJmp? then 0 else if code[r] == code0[r] then Rank(code0, r) + 1 else 1
      {
        LabelInRange(code0, code, r);
        JumpShrinks(code0, code, r, r + code[r].off);
        r := r + code[r].off;
      }
    }

    /** Instructions with labels: the label goes to its final target. */
    method OptimizeLabel(i: int, ghost code0: seq<Instr>)
      requires Rewritten(code0, code) && 0 <= i < |code| && HasLabel(code[i]) && !code[i].IJmp?
      modifies this
      ensures Rewritten(code0, code) && |code| == |old(code)| && Settled(code, i)
      ensures SameOp(code[i], old(code)[i]) && code == old(code)[i := code[i]]
    {
      hide Final, Rewritten;
      LabelInRange(code0, code, i);
      var t := FinalTarget(i + Offset(code[i]), code0);
      RewriteLabel(code0, code, i, t);
      JumpToThere(i, t);
    }

    /** Jumps: to what? */
    method OptimizeJump(i: int, ghost code0: seq<Instr>)
      requires Rewritten(code0, code) && 0 <= i < |code| && code[i].IJmp?
      modifies this
      ensures Rewritten(code0, code) && |code| == |old(code)| && Settled(code, i) && code == old(code)[i := code[i]]
    {
      hide Final, Rewritten;
      var ft := FinalTarget(i, code0);
      var x := code[ft];
      if Falls(x) {
        RewriteJump(code0, code, i, ft);
        JumpToThere(i, ft);
      } else if HasLabel(x) {
        LabelInRange(code0, code, ft);
        var fft := FinalTarget(ft + Offset(x), code0);
        RewriteCopy(code0, code, i, ft, WithOffset(x, fft - i));
        code := code[i := x];
        JumpToThere(i, fft);
        assert code == old(code)[i := WithOffset(x, fft - i)];
        OptimizeLabel(i, code0);
      } else {
        RewriteCopy(code0, code, i, ft, x);
        code := code[i := x];
      }
    }

    /** peephole: the program means what it did, and every label and jump is at its end. */
    method Peephole()
      requires Program(code)
      modifies this
      ensures Rewritten(old(code), code) && |code| > 0 && code[|code| - 1] == IEnd
      ensures forall j :: 0 <= j < |code| ==> Settled(code, j)
    {
      hide Final, Rewritten, Program, Settled;
      ghost var code0 := code;
      RewrittenSelf(code);
      var i := 0;
      while i < |code|
        invariant 0 <= i <= |code| && Rewritten(code0, code)
        invariant forall j :: 0 <= j < i ==> Settled(code, j)
      {
        ghost var before := code;
        if code[i].IJmp? {
          OptimizeJump(i, code0);
        } else if HasLabel(code[i]) {
          OptimizeLabel(i, code0);
        } else {
          NoLabel(code, i);
        }
        forall j | 0 <= j < i
          ensures Settled(code, j)
        {
          SettledStays(before, i, code[i], j);
          assert code == before[i := code[i]];
        }
        i := i + 1;
      }
      EndsWithEnd(code0, code);
    }
  }

  lemma NoLabel(code: seq<Instr>, i: int)
    requires 0 <= i < |code| && !HasLabel(code[i])
    ensures Settled(code, i)
  {
  }

  lemma TestedChoiceShape(pre: seq<Instr>, p: Tree, opt: bool, fl: Charset)
    requires p.TChoice?
    ensures var t := TestFor(GetFirst(p.p1, FullSet()).set_, false);
            var b1, b2 := Gen(p.p1, false, t, fl), Gen(p.p2, opt, NoTest, fl);
            var jmp := if p.p2.TTrue? then [] else [IJmp(1 + |b2|)];
            pre + TestCode(t, 1 + |b1| + |jmp|) + b1 + jmp + b2 == pre + TestedChoice(p, opt, fl)
  {
    hide Gen, TestFor, GetFirst, TestCode;
    var t := TestFor(GetFirst(p.p1, FullSet()).set_, false);
    var b1, b2 := Gen(p.p1, false, t, fl), Gen(p.p2, opt, NoTest, fl);
    var jmp := if p.p2.TTrue? then [] else [IJmp(1 + |b2|)];
    Join4(pre, TestCode(t, 1 + |b1| + |jmp|), b1, jmp, b2);
  }

  lemma PlainChoiceShape(pre: seq<Instr>, p: Tree, opt: bool, fl: Charset)
    requires p.TChoice?
    ensures var f1 := GetFirst(p.p1, FullSet());
            var t := TestFor(f1.set_, f1.empty);
            var b1, b2 := Gen(p.p1, p.p2.TTrue?, t, FullSet()), Gen(p.p2, opt, NoTest, fl);
            pre + TestCode(t, 3 + |b1|) + [IChoice(2 + |b1|)] + b1 + [ICommit(1 + |b2|)] + b2 ==
            pre + PlainChoice(p, opt, fl)
  {
    hide Gen, TestFor, GetFirst, TestCode;
    var f1 := GetFirst(p.p1, FullSet());
    var t := TestFor(f1.set_, f1.empty);
    var b1, b2 := Gen(p.p1, p.p2.TTrue?, t, FullSet()), Gen(p.p2, opt, NoTest, fl);
    Join5(pre, TestCode(t, 3 + |b1|), [IChoice(2 + |b1|)], b1, [ICommit(1 + |b2|)], b2);
  }

  lemma PlainRepShape(pre: seq<Instr>, p: Tree, opt: bool)
    requires p.TRep?
    ensures var f := GetFirst(p.body, FullSet());
            var tc := TestCode(TestFor(f.set_, f.empty), 3 + |Gen(p.body, false, NoTest, FullSet())|);
            var b := Gen(p.body, false, NoTest, FullSet());
            var last := [IPartialCommit(-|b|)];
            pre + PlainRep(p, opt) ==
            if opt then pre + tc + ([IPartialCommit(1)] + (b + last)) else pre + tc + [IChoice(2 + |b|)] + b + last
  {
    hide Gen, TestFor, GetFirst, TestCode;
    var f := GetFirst(p.body, FullSet());
    var b := Gen(p.body, false, NoTest, FullSet());
    var tc, last := TestCode(TestFor(f.set_, f.empty), 3 + |b|), [IPartialCommit(-|b|)];
    Join4(pre, tc, [IChoice(2 + |b|)], b, last);
    Assoc(pre, tc, [IPartialCommit(1)] + (b + last));
  }

  /** A test just emitted is the test that protects what comes next. */
  lemma TestAtNew(pre: seq<Instr>, cs: Charset, e: bool)
    ensures var t := TestFor(cs, e);
            var code := pre + TestCode(t, 0);
            var test := if e then NOINST else |pre|;
            (e <==> t == NoTest) && test < |code| && TestAt(code, test) == t
  {
    hide KindOf;
  }

  lemma TestAtKept(code: seq<Instr>, more: seq<Instr>, tt: int)
    requires NOINST <= tt < |code|
    ensures TestAt(code + more, tt) == TestAt(code, tt)
  {
  }

  lemma TestCodeSized(t: Test)
    ensures forall off :: |TestCode(t, off)| == if t == NoTest then 0 else 1
    ensures t == NoTest ==> forall off :: TestCode(t, off) == []
  {
  }

  lemma NoTestAt(code: seq<Instr>)
    ensures TestAt(code, NOINST) == NoTest
  {
  }
}
