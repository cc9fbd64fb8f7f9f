/** The code that lpcode.c generates for a pattern, as a value: offsets are relative, so the code of a part does not
    depend on where it is placed. */
module PegCode {
  import opened Basics
  import opened Charsets
  import opened Peg
  import opened PegMachine

  /** The test instruction that protects a piece of code: the `tt` argument of codegen. */
  datatype Test = NoTest | TestNever | TestAny | TestChar(c: Byte) | TestSet(cs: Charset)

  /** codetestset: which test to use for a set; none if the empty input must be accepted. */
  ghost function TestFor(cs: Charset, e: bool): Test {
    if e then NoTest
    else
      match KindOf(cs)
      case KFail => TestNever
      case KAny => TestAny
      case KChar(c) => TestChar(c)
      case KSet => TestSet(cs)
  }

  function TestCode(t: Test, off: int): seq<Instr> {
    match t
    case NoTest => []
    case TestNever => [IJmp(off)]
    case TestAny => [ITestAny(off)]
    case TestChar(c) => [ITestChar(c, off)]
    case TestSet(cs) => [ITestSet(cs, off)]
  }

  /** codechar. */
  function CharCode(c: Byte, tt: Test): Instr {
    if tt == TestChar(c) then IAny else IChar(c)
  }

  /** codecharset. */
  ghost function SetCode(cs: Charset, tt: Test): Instr {
    match KindOf(cs)
    case KFail => IFail
    case KAny => IAny
    case KChar(c) => CharCode(c, tt)
    case KSet => if tt == TestSet(cs) then IAny else ISet(cs)
  }

  /** needfollow. */
  predicate NeedFollow(p: Tree) {
    match p
    case TChoice(_, _) => true
    case TRep(_) => true
    case TSeq(_, p2) => NeedFollow(p2)
    case _ => false
  }

  /** codegen: `opt` says that the code ends an optional pattern whose choice is on top of the stack, `tt` is the test
      that protects it, `fl` is the first set of what follows. */
  ghost function Gen(p: Tree, opt: bool, tt: Test, fl: Charset): seq<Instr>
    decreases p, 1
  {
    match p
    case TChar(c) => [CharCode(c, tt)]
    case TAny => [IAny]
    case TSet(cs) => [SetCode(cs, tt)]
    case TTrue => []
    case TFalse => [IFail]
    case TChoice(_, _) =>
      if ChoiceByTest(p, fl) then TestedChoice(p, opt, fl)
      else if opt && p.p2.TTrue? then [IPartialCommit(1)] + Gen(p.p1, true, NoTest, FullSet())
      else PlainChoice(p, opt, fl)
    case TRep(body) =>
      if ToCharset(body).Some? then [ISpan(ToCharset(body).value)]
      else if RepByTest(body, fl) then TestedRep(p)
      else PlainRep(p, opt)
    case TBehind(body, n) => (if n > 0 then [IBehind(n)] else []) + Gen(body, false, NoTest, FullSet())
    case TNot(body) => NotCode(p)
    case TAnd(body) => AndCode(p, tt)
    case TSeq(p1, p2) => Gen(p1, false, tt, Follow(p1, p2, fl)) + Gen(p2, opt, SeqTest(p1, tt), fl)
  }

  /** codeseq1: the follow set for the first part... */
  function Follow(p1: Tree, p2: Tree, fl: Charset): Charset {
    if NeedFollow(p1) then GetFirst(p2, fl).set_ else FullSet()
  }

  /** ...and the test that still protects the second. */
  function SeqTest(p1: Tree, tt: Test): Test {
    if FixedLen(p1) != 0 then NoTest else tt
  }

  /** codechoice's side condition for the test-and-branch form. */
  predicate ChoiceByTest(p: Tree, fl: Charset)
    requires p.TChoice?
  {
    var f1 := GetFirst(p.p1, FullSet());
    HeadFail(p.p1) || (!f1.empty && Disjoint(f1.set_, GetFirst(p.p2, fl).set_))
  }

  /** test(fail(p1)) -> L1; p1; jmp L2; L1: p2; L2: */
  ghost function TestedChoice(p: Tree, opt: bool, fl: Charset): seq<Instr>
    requires p.TChoice?
    decreases p, 0
  {
    var test := TestFor(GetFirst(p.p1, FullSet()).set_, false);
    var b1, b2 := Gen(p.p1, false, test, fl), Gen(p.p2, opt, NoTest, fl);
    var jmp := if p.p2.TTrue? then [] else [IJmp(1 + |b2|)];
    TestCode(test, 1 + |b1| + |jmp|) + (b1 + (jmp + b2))
  }

  /** test(first(p1)) -> L1; choice L1; p1; commit L2; L1: p2; L2: */
  ghost function PlainChoice(p: Tree, opt: bool, fl: Charset): seq<Instr>
    requires p.TChoice?
    decreases p, 0
  {
    var f1 := GetFirst(p.p1, FullSet());
    var test := TestFor(f1.set_, f1.empty);
    var b1, b2 := Gen(p.p1, p.p2.TTrue?, test, FullSet()), Gen(p.p2, opt, NoTest, fl);
    TestCode(test, 3 + |b1|) + ([IChoice(2 + |b1|)] + (b1 + ([ICommit(1 + |b2|)] + b2)))
  }

  /** coderep's side condition. */
  predicate RepByTest(body: Tree, fl: Charset) {
    var f := GetFirst(body, FullSet());
    HeadFail(body) || (!f.empty && Disjoint(f.set_, fl))
  }

  /** L1: test(fail(p)) -> L2; p; jmp L1; L2: */
  ghost function TestedRep(p: Tree): seq<Instr>
    requires p.TRep?
    decreases p, 0
  {
    var test := TestFor(GetFirst(p.body, FullSet()).set_, false);
    var b := Gen(p.body, false, test, FullSet());
    TestCode(test, 2 + |b|) + (b + [IJmp(-(1 + |b|))])
  }

  /** test(fail(p)) -> L2; choice L2; L1: p; partialcommit L1; L2:   or, if opt, partialcommit for choice. */
  ghost function PlainRep(p: Tree, opt: bool): seq<Instr>
    requires p.TRep?
    decreases p, 0
  {
    var f := GetFirst(p.body, FullSet());
    var test := TestFor(f.set_, f.empty);
    var b := Gen(p.body, false, NoTest, FullSet());
    TestCode(test, 3 + |b|) +
    ([if opt then IPartialCommit(1) else IChoice(2 + |b|)] + (b + [IPartialCommit(-|b|)]))
  }

  /** test(fail(p)) -> L1; fail; L1:   or   test(fail(p)) -> L1; choice L1; p; failtwice; L1: */
  ghost function NotCode(p: Tree): seq<Instr>
    requires p.TNot?
    decreases p, 0
  {
    var f := GetFirst(p.body, FullSet());
    var test := TestFor(f.set_, f.empty);
    if HeadFail(p.body) then TestCode(test, 2) + [IFail]
    else
      var b := Gen(p.body, false, NoTest, FullSet());
      TestCode(test, 3 + |b|) + ([IChoice(2 + |b|)] + (b + [IFailTwice]))
  }

  /** p; behind n   or   choice L1; p; backcommit L2; L1: fail; L2: */
  ghost function AndCode(p: Tree, tt: Test): seq<Instr>
    requires p.TAnd?
    decreases p, 0
  {
    var n := FixedLen(p.body);
    var b := Gen(p.body, false, tt, FullSet());
    if 0 <= n <= MAXBEHIND then b + if n > 0 then [IBehind(n)] else []
    else [IChoice(2 + |b|)] + (b + ([IBackCommit(2)] + [IFail]))
  }

  /** codegen's dispatch, for the tags with several forms. */
  lemma GenForms(p: Tree, opt: bool, tt: Test, fl: Charset)
    ensures p.TChoice? ==>
              Gen(p, opt, tt, fl) ==
              if ChoiceByTest(p, fl) then TestedChoice(p, opt, fl)
              else if opt && p.p2.TTrue? then [IPartialCommit(1)] + Gen(p.p1, true, NoTest, FullSet())
              else PlainChoice(p, opt, fl)
    ensures p.TRep? && ToCharset(p.body).None? ==>
              Gen(p, opt, tt, fl) == if RepByTest(p.body, fl) then TestedRep(p) else PlainRep(p, opt)
    ensures p.TSeq? ==>
              Gen(p, opt, tt, fl) ==
              Gen(p.p1, false, tt, Follow(p.p1, p.p2, fl)) + Gen(p.p2, opt, SeqTest(p.p1, tt), fl)
    ensures p.TNot? ==> Gen(p, opt, tt, fl) == NotCode(p)
    ensures p.TAnd? ==> Gen(p, opt, tt, fl) == AndCode(p, tt)
    ensures p.TBehind? ==>
              Gen(p, opt, tt, fl) == (if p.n > 0 then [IBehind(p.n)] else []) + Gen(p.body, false, NoTest, FullSet())
  {
    hide ChoiceByTest, RepByTest, TestedChoice, PlainChoice, TestedRep, PlainRep, NotCode, AndCode;
  }

  /** compile, before the jump optimizer. */
  ghost function Compile(p: Tree): seq<Instr> {
    Gen(p, false, NoTest, FullSet()) + [IEnd]
  }
}
