/** The generated code matches exactly as the pattern does. */
module PegCorrect {
  import opened Basics
  import opened Charsets
  import opened Peg
  import opened PegMachine
  import opened PegCode

  // ------------------------------------------------------------------------------------------------
  // Tests
  // ------------------------------------------------------------------------------------------------

  predicate Passes(t: Test, subj: Subject, s: nat) {
    match t
    case NoTest => true
    case TestNever => false
    case TestAny => s < |subj|
    case TestChar(c) => s < |subj| && subj[s] == c
    case TestSet(cs) => One(subj, s, cs)
  }

  /** The chosen test decides membership in the set. */
  lemma TestForSound(cs: Charset, subj: Subject, s: nat)
    ensures Passes(TestFor(cs, false), subj, s) <==> One(subj, s, cs)
  {
    hide Contains, KindOf;
    assert IsKind(cs, KindOf(cs));
  }

  lemma ExecTest(m: Machine, at: nat, t: Test, off: int, s: nat, k: seq<Frame>)
    requires At(m, at, TestCode(t, off)) && t != NoTest && s <= |m.subj|
    ensures Reaches(m, Run(at, s, k), Run(if Passes(t, m.subj, s) then at + 1 else at + off, s, k))
  {
    hide Contains, Reaches;
    Exec(m, at, TestCode(t, off)[0], s, k);
  }

  // ------------------------------------------------------------------------------------------------
  // What a block of code does
  // ------------------------------------------------------------------------------------------------

  /** The block at `at` succeeds up to j: it falls through to `end`; or, as the end of an optional pattern, it may have
      updated the choice on top of the stack, or fail into that choice at j. */
  ghost predicate Succeeds(m: Machine, at: nat, end: int, j: nat, opt: bool, s: nat, k: seq<Frame>)
    requires opt ==> k != []
  {
    if !opt then Reaches(m, Run(at, s, k), Run(end, j, k))
    else
      || (exists x: nat :: Reaches(m, Run(at, s, k), Run(end, j, [Frame(k[0].pc, x)] + k[1..])))
      || Reaches(m, Run(at, s, k), Run(k[0].pc, j, k[1..]))
  }

  /** The block does what a match with result r should: it succeeds or fails alike, except that it may fail early when
      the next character, not in the follow set, is bound to make what follows fail. */
  ghost predicate Does(m: Machine, at: nat, end: int, r: Option<nat>, opt: bool, fl: Charset, s: nat, k: seq<Frame>)
    requires opt ==> k != []
  {
    match r
    case None => Reaches(m, Run(at, s, k), Fail(k))
    case Some(j) =>
      || Succeeds(m, at, end, j, opt, s, k)
      || (j < |m.subj| && !Contains(fl, m.subj[j]) && Reaches(m, Run(at, s, k), Fail(k)))
  }

  /** Steps that lead to a block, with the same stack. */
  lemma DoesAfter(m: Machine, at: nat, s: nat, at': nat, s': nat, end: int, r: Option<nat>, opt: bool, fl: Charset,
                  k: seq<Frame>)
    requires opt ==> k != []
    requires Reaches(m, Run(at, s, k), Run(at', s', k))
    requires Does(m, at', end, r, opt, fl, s', k)
    ensures Does(m, at, end, r, opt, fl, s, k)
  {
    hide Reaches, Contains;
    var a, b := Run(at, s, k), Run(at', s', k);
    if Reaches(m, b, Fail(k)) {
      ReachesTrans(m, a, b, Fail(k));
    }
    if r.Some? {
      var j := r.value;
      if Reaches(m, b, Run(end, j, k)) {
        ReachesTrans(m, a, b, Run(end, j, k));
      }
      if opt {
        if Reaches(m, b, Run(k[0].pc, j, k[1..])) {
          ReachesTrans(m, a, b, Run(k[0].pc, j, k[1..]));
        }
        forall x: nat | Reaches(m, b, Run(end, j, [Frame(k[0].pc, x)] + k[1..]))
          ensures Reaches(m, a, Run(end, j, [Frame(k[0].pc, x)] + k[1..]))
        {
          ReachesTrans(m, a, b, Run(end, j, [Frame(k[0].pc, x)] + k[1..]));
        }
      }
    }
  }

  /** Reaching the end with the stack as it was. */
  lemma SucceedsPlainly(m: Machine, at: nat, end: int, j: nat, opt: bool, s: nat, k: seq<Frame>)
    requires opt ==> k != []
    requires Reaches(m, Run(at, s, k), Run(end, j, k))
    ensures Succeeds(m, at, end, j, opt, s, k)
  {
    if opt {
      assert k == [Frame(k[0].pc, k[0].s)] + k[1..];
    }
  }

  /** A block in non-optional position, followed by steps that lead from its end to `end'`. */
  lemma DoesThen(m: Machine, at: nat, end: nat, end': int, r: Option<nat>, opt: bool, fl: Charset, s: nat,
                 k: seq<Frame>)
    requires opt ==> k != []
    requires Does(m, at, end, r, false, fl, s, k)
    requires r.Some? ==> Reaches(m, Run(end, r.value, k), Run(end', r.value, k))
    ensures Does(m, at, end', r, opt, fl, s, k)
  {
    hide Reaches, Contains;
    if r.Some? && Reaches(m, Run(at, s, k), Run(end, r.value, k)) {
      ReachesTrans(m, Run(at, s, k), Run(end, r.value, k), Run(end', r.value, k));
      SucceedsPlainly(m, at, end', r.value, opt, s, k);
    }
  }

  /** With nothing excluded from what follows, the block is exact. */
  lemma DoesExactly(m: Machine, at: nat, end: int, r: Option<nat>, opt: bool, s: nat, k: seq<Frame>)
    requires opt ==> k != []
    requires Does(m, at, end, r, opt, FullSet(), s, k)
    ensures r.Some? ==> Succeeds(m, at, end, r.value, opt, s, k)
  {
    hide Contains, Succeeds, Reaches;
    if r.Some? && r.value < |m.subj| {
      FullContains(m.subj[r.value]);
    }
  }

  /** The conditions under which the code of p is entered. */
  ghost predicate Enters(m: Machine, at: nat, p: Tree, opt: bool, tt: Test, fl: Charset, s: nat, k: seq<Frame>) {
    && Accepted(p) && s <= |m.subj|
    && At(m, at, Gen(p, opt, tt, fl))
    && Passes(tt, m.subj, s)
    && (opt ==> k != [] && fl == FullSet())
  }

  ghost predicate Correct(m: Machine, at: nat, p: Tree, opt: bool, tt: Test, fl: Charset, s: nat, k: seq<Frame>)
    requires s <= |m.subj| && (opt ==> k != [])
  {
    Does(m, at, at + |Gen(p, opt, tt, fl)|, Match(p, m.subj, s), opt, fl, s, k)
  }

  // ------------------------------------------------------------------------------------------------
  // One construct at a time
  // ------------------------------------------------------------------------------------------------

  /** A character outside the first set cannot start a match. */
  lemma OutsideFirst(p: Tree, subj: Subject, s: nat)
    requires Accepted(p) && s <= |subj|
    requires !GetFirst(p, FullSet()).empty && !One(subj, s, GetFirst(p, FullSet()).set_)
    ensures Match(p, subj, s).None?
  {
    hide Contains, GetFirst;
    if s == |subj| {
      FirstNonEmpty(p, FullSet(), subj);
    } else if Match(p, subj, s).Some? {
      FullContains(subj[s]);
      FirstSound(p, FullSet(), subj, s);
    }
  }

  lemma CharCorrect(m: Machine, at: nat, p: Tree, opt: bool, tt: Test, fl: Charset, s: nat, k: seq<Frame>)
    requires Enters(m, at, p, opt, tt, fl, s, k)
    requires p.TChar? || p.TAny? || p.TFalse?
    ensures Correct(m, at, p, opt, tt, fl, s, k)
  {
    hide Contains, Reaches;
    Exec(m, at, Gen(p, opt, tt, fl)[0], s, k);
    if Match(p, m.subj, s).Some? {
      SucceedsPlainly(m, at, at + 1, s + 1, opt, s, k);
    }
  }

  lemma SetCorrect(m: Machine, at: nat, p: Tree, opt: bool, tt: Test, fl: Charset, s: nat, k: seq<Frame>)
    requires Enters(m, at, p, opt, tt, fl, s, k)
    requires p.TSet?
    ensures Correct(m, at, p, opt, tt, fl, s, k)
  {
    hide Contains, Reaches, KindOf;
    assert IsKind(p.cs, KindOf(p.cs));
    Exec(m, at, Gen(p, opt, tt, fl)[0], s, k);
    if Match(p, m.subj, s).Some? {
      SucceedsPlainly(m, at, at + 1, s + 1, opt, s, k);
    }
  }

  lemma {:induction false} SpanMatches(body: Tree, cs: Charset, subj: Subject, s: nat)
    requires ToCharset(body) == Some(cs) && s <= |subj|
    ensures Match(TRep(body), subj, s) == Some(Span(cs, subj, s))
    decreases |subj| - s
  {
    hide Contains;
    ToCharsetSound(body, subj, s);
    if One(subj, s, cs) {
      SpanMatches(body, cs, subj, s + 1);
    }
  }

  lemma SpanCorrect(m: Machine, at: nat, p: Tree, opt: bool, tt: Test, fl: Charset, s: nat, k: seq<Frame>)
    requires Enters(m, at, p, opt, tt, fl, s, k)
    requires p.TRep? && ToCharset(p.body).Some?
    ensures Correct(m, at, p, opt, tt, fl, s, k)
  {
    hide Contains, Reaches;
    var cs := ToCharset(p.body).value;
    SpanMatches(p.body, cs, m.subj, s);
    Exec(m, at, ISpan(cs), s, k);
    SucceedsPlainly(m, at, at + 1, Span(cs, m.subj, s), opt, s, k);
  }

  /** The code of a sequence: after the first part comes the second. */
  lemma SeqCorrect(m: Machine, at: nat, p: Tree, opt: bool, tt: Test, fl: Charset, s: nat, k: seq<Frame>)
    requires Enters(m, at, p, opt, tt, fl, s, k)
    requires p.TSeq?
    ensures Correct(m, at, p, opt, tt, fl, s, k)
    decreases p, 0
  {
    hide Contains, Reaches, Gen, GetFirst, At, Does, Match, NeedFollow, Passes;
    var p1, p2, fl1, tt2 := p.p1, p.p2, Follow(p.p1, p.p2, fl), SeqTest(p.p1, tt);
    SeqLayout(m, at, p, opt, tt, fl);
    var mid := at + |Gen(p1, false, tt, fl1)|;
    GenCorrect(m, at, p1, false, tt, fl1, s, k);
    var r1 := Match(p1, m.subj, s);
    if r1.Some? {
      TestSurvives(p1, tt, m.subj, s);
      GenCorrect(m, mid, p2, opt, tt2, fl, r1.value, k);
    }
    SeqCompose(m, at, mid, mid + |Gen(p2, opt, tt2, fl)|, p1, p2, opt, fl, s, k);
  }

  lemma SeqLayout(m: Machine, at: nat, p: Tree, opt: bool, tt: Test, fl: Charset)
    requires p.TSeq? && At(m, at, Gen(p, opt, tt, fl))
    ensures var b1 := Gen(p.p1, false, tt, Follow(p.p1, p.p2, fl));
            var b2 := Gen(p.p2, opt, SeqTest(p.p1, tt), fl);
            At(m, at, b1) && At(m, at + |b1|, b2) && |Gen(p, opt, tt, fl)| == |b1| + |b2|
  {
    hide At;
    AtSplit(m, at, Gen(p.p1, false, tt, Follow(p.p1, p.p2, fl)), Gen(p.p2, opt, SeqTest(p.p1, tt), fl));
  }

  /** A test still holds after a part that consumes nothing. */
  lemma TestSurvives(p1: Tree, tt: Test, subj: Subject, s: nat)
    requires Accepted(p1) && s <= |subj| && Match(p1, subj, s).Some? && Passes(tt, subj, s)
    ensures Passes(SeqTest(p1, tt), subj, Match(p1, subj, s).value)
  {
    hide Contains;
    Conservative(p1, subj, s);
  }

  lemma SeqCompose(m: Machine, at: nat, mid: nat, end: nat, p1: Tree, p2: Tree, opt: bool, fl: Charset, s: nat,
                   k: seq<Frame>)
    requires Accepted(p1) && Accepted(p2) && s <= |m.subj| && (opt ==> k != [])
    requires Does(m, at, mid, Match(p1, m.subj, s), false, Follow(p1, p2, fl), s, k)
    requires var r1 := Match(p1, m.subj, s);
             r1.Some? ==> Does(m, mid, end, Match(p2, m.subj, r1.value), opt, fl, r1.value, k)
    ensures Does(m, at, end, Match(TSeq(p1, p2), m.subj, s), opt, fl, s, k)
  {
    hide Contains, Reaches, GetFirst;
    var r1 := Match(p1, m.subj, s);
    if r1.Some? {
      var j := r1.value;
      if Reaches(m, Run(at, s, k), Run(mid, j, k)) {
        DoesAfter(m, at, s, mid, j, end, Match(p2, m.subj, j), opt, fl, k);
      } else {
        EarlyFail(p1, p2, fl, m.subj, j);
      }
    }
  }

  /** A character outside first(p2, fl) makes p2 fail, or match nothing before a character outside fl. */
  lemma EarlyFail(p1: Tree, p2: Tree, fl: Charset, subj: Subject, j: nat)
    requires Accepted(p2) && j < |subj| && !Contains(Follow(p1, p2, fl), subj[j])
    ensures Match(p2, subj, j).None? || (Match(p2, subj, j) == Some(j) && !Contains(fl, subj[j]))
  {
    hide Contains, GetFirst;
    FullContains(subj[j]);
    Conservative(p2, subj, j);
    if Match(p2, subj, j).Some? && (Match(p2, subj, j).value > j || Contains(fl, subj[j])) {
      FirstSound(p2, fl, subj, j);
    }
  }

  // ---- ordered choice ----

  lemma TestedChoiceLayout(m: Machine, at: nat, p: Tree, opt: bool, fl: Charset)
    requires p.TChoice? && At(m, at, TestedChoice(p, opt, fl))
    ensures var test := TestFor(GetFirst(p.p1, FullSet()).set_, false);
            var b1, b2 := Gen(p.p1, false, test, fl), Gen(p.p2, opt, NoTest, fl);
            var jmp := if p.p2.TTrue? then [] else [IJmp(1 + |b2|)];
            && At(m, at, TestCode(test, 1 + |b1| + |jmp|)) && At(m, at + 1, b1)
            && At(m, at + 1 + |b1|, jmp) && At(m, at + 1 + |b1| + |jmp|, b2)
            && |TestedChoice(p, opt, fl)| == 1 + |b1| + |jmp| + |b2|
            && (p.p2.TTrue? ==> b2 == [])
  {
    hide At, Gen, GetFirst, TestFor, TestCode;
    var test := TestFor(GetFirst(p.p1, FullSet()).set_, false);
    var b1, b2 := Gen(p.p1, false, test, fl), Gen(p.p2, opt, NoTest, fl);
    var jmp := if p.p2.TTrue? then [] else [IJmp(1 + |b2|)];
    TrueCode(opt, NoTest, fl);
    TestCodeSize(GetFirst(p.p1, FullSet()).set_, false, 1 + |b1| + |jmp|, m.subj, 0);
    AtSplit4(m, at, TestCode(test, 1 + |b1| + |jmp|), b1, jmp, b2);
  }

  lemma TrueCode(opt: bool, tt: Test, fl: Charset)
    ensures Gen(TTrue, opt, tt, fl) == []
  {
  }

  lemma AtSplit4(m: Machine, at: nat, a: seq<Instr>, b: seq<Instr>, c: seq<Instr>, d: seq<Instr>)
    requires At(m, at, a + (b + (c + d)))
    ensures At(m, at, a) && At(m, at + |a|, b) && At(m, at + |a| + |b|, c) && At(m, at + |a| + |b| + |c|, d)
  {
    hide At;
    AtSplit(m, at, a, b + (c + d));
    AtSplit(m, at + |a|, b, c + d);
    AtSplit(m, at + |a| + |b|, c, d);
  }

  /** <p1 / p2> by test and branch, without a backtrack entry. */
  lemma TestedChoiceCorrect(m: Machine, at: nat, p: Tree, opt: bool, fl: Charset, s: nat, k: seq<Frame>)
    requires Accepted(p) && p.TChoice? && s <= |m.subj| && (opt ==> k != [] && fl == FullSet())
    requires ChoiceByTest(p, fl) && At(m, at, TestedChoice(p, opt, fl))
    ensures Does(m, at, at + |TestedChoice(p, opt, fl)|, Match(p, m.subj, s), opt, fl, s, k)
    decreases p, 0
  {
    hide Contains, Reaches, Gen, GetFirst, At, Does, TestFor, TestedChoice, Passes, Match, ChoiceByTest, One, TestCode;
    var p1, p2 := p.p1, p.p2;
    var cs := GetFirst(p1, FullSet()).set_;
    var test := TestFor(cs, false);
    TestedChoiceLayout(m, at, p, opt, fl);
    TestForSound(cs, m.subj, s);
    TestForSome(cs);
    var b1, b2 := Gen(p1, false, test, fl), Gen(p2, opt, NoTest, fl);
    var jmp := if p2.TTrue? then [] else [IJmp(1 + |b2|)];
    var l1 := at + 1 + |b1| + |jmp|;
    ExecTest(m, at, test, 1 + |b1| + |jmp|, s, k);
    if Passes(test, m.subj, s) {
      GenCorrect(m, at + 1, p1, false, test, fl, s, k);
      TestedChoiceTaken(m, at + 1, at + 1 + |b1|, l1 + |b2|, p, opt, fl, s, k);
      DoesAfter(m, at, s, at + 1, s, l1 + |b2|, Match(p, m.subj, s), opt, fl, k);
    } else {
      TestedChoiceSkips(p, fl, m.subj, s);
      PassesNothing(m.subj, s);
      GenCorrect(m, l1, p2, opt, NoTest, fl, s, k);
      DoesAfter(m, at, s, l1, s, l1 + |b2|, Match(p, m.subj, s), opt, fl, k);
    }
  }

  lemma PassesNothing(subj: Subject, s: nat)
    ensures Passes(NoTest, subj, s)
  {
  }

  lemma TestForSome(cs: Charset)
    ensures TestFor(cs, false) != NoTest
  {
    hide KindOf;
  }

  lemma TestedChoiceSkips(p: Tree, fl: Charset, subj: Subject, s: nat)
    requires Accepted(p) && p.TChoice? && s <= |subj| && ChoiceByTest(p, fl)
    requires !One(subj, s, GetFirst(p.p1, FullSet()).set_)
    ensures Match(p, subj, s) == Match(p.p2, subj, s)
  {
    hide Contains, GetFirst;
    NotInFirst(p.p1, subj, s);
  }

  /** The test failed: p1 cannot match here. */
  lemma NotInFirst(p1: Tree, subj: Subject, s: nat)
    requires Accepted(p1) && s <= |subj| && !One(subj, s, GetFirst(p1, FullSet()).set_)
    requires HeadFail(p1) || !GetFirst(p1, FullSet()).empty
    ensures Match(p1, subj, s).None?
  {
    hide Contains, GetFirst;
    if HeadFail(p1) {
      HeadFailSound(p1, FullSet(), subj, s);
    }
    OutsideFirst(p1, subj, s);
  }

  /** The test passed: what p1's code does is what the whole choice should do. */
  lemma TestedChoiceTaken(m: Machine, at: nat, mid: nat, end: nat, p: Tree, opt: bool, fl: Charset, s: nat,
                          k: seq<Frame>)
    requires Accepted(p) && p.TChoice? && s <= |m.subj| && (opt ==> k != [])
    requires ChoiceByTest(p, fl) && One(m.subj, s, GetFirst(p.p1, FullSet()).set_)
    requires Does(m, at, mid, Match(p.p1, m.subj, s), false, fl, s, k)
    requires if p.p2.TTrue? then mid == end else At(m, mid, [IJmp(end - mid)])
    ensures Does(m, at, end, Match(p, m.subj, s), opt, fl, s, k)
  {
    hide Contains, Reaches, GetFirst, At;
    var r1 := Match(p.p1, m.subj, s);
    if r1.Some? {
      if p.p2.TTrue? {
        ReachesSelf(m, Run(end, r1.value, k));
      } else {
        Exec(m, mid, IJmp(end - mid), r1.value, k);
      }
      DoesThen(m, at, mid, end, r1, opt, fl, s, k);
    } else {
      NoSecondChance(p, fl, m.subj, s);
    }
  }

  /** A character in first(p1) at which p1 fails: p2 fails too, or matches nothing before a character outside fl. */
  lemma NoSecondChance(p: Tree, fl: Charset, subj: Subject, s: nat)
    requires Accepted(p) && p.TChoice? && ChoiceByTest(p, fl)
    requires One(subj, s, GetFirst(p.p1, FullSet()).set_) && Match(p.p1, subj, s).None?
    ensures Match(p.p2, subj, s).None? || (Match(p.p2, subj, s) == Some(s) && !Contains(fl, subj[s]))
  {
    hide Contains, GetFirst;
    var f1, f2 := GetFirst(p.p1, FullSet()).set_, GetFirst(p.p2, fl).set_;
    if HeadFail(p.p1) {
      HeadFailSound(p.p1, FullSet(), subj, s);
    } else {
      DisjointContains(f1, f2, subj[s]);
      Conservative(p.p2, subj, s);
      if Match(p.p2, subj, s).Some? && (Match(p.p2, subj, s).value > s || Contains(fl, subj[s])) {
        FirstSound(p.p2, fl, subj, s);
      }
    }
  }

  /** p1? at the end of an optional pattern: reuse the choice on top of the stack. */
  lemma PartialChoiceCorrect(m: Machine, at: nat, p: Tree, s: nat, k: seq<Frame>)
    requires Accepted(p) && p.TChoice? && p.p2.TTrue? && s <= |m.subj| && k != []
    requires At(m, at, [IPartialCommit(1)] + Gen(p.p1, true, NoTest, FullSet()))
    ensures Does(m, at, at + 1 + |Gen(p.p1, true, NoTest, FullSet())|, Match(p, m.subj, s), true, FullSet(), s, k)
    decreases p, 0
  {
    hide Contains, Reaches, Gen, At, Passes;
    var b1 := Gen(p.p1, true, NoTest, FullSet());
    AtSplit(m, at, [IPartialCommit(1)], b1);
    Exec(m, at, IPartialCommit(1), s, k);
    PassesNothing(m.subj, s);
    var k' := [Frame(k[0].pc, s)] + k[1..];
    assert k'[1..] == k[1..];
    GenCorrect(m, at + 1, p.p1, true, NoTest, FullSet(), s, k');
    var r1 := Match(p.p1, m.subj, s);
    DoesExactly(m, at + 1, at + 1 + |b1|, r1, true, s, k');
    var a, b := Run(at, s, k), Run(at + 1, s, k');
    if r1.None? {
      ReachesTrans(m, a, b, Fail(k'));
    } else if Reaches(m, b, Run(k[0].pc, r1.value, k[1..])) {
      ReachesTrans(m, a, b, Run(k[0].pc, r1.value, k[1..]));
    } else {
      var x: nat :| Reaches(m, b, Run(at + 1 + |b1|, r1.value, [Frame(k'[0].pc, x)] + k'[1..]));
      ReachesTrans(m, a, b, Run(at + 1 + |b1|, r1.value, [Frame(k[0].pc, x)] + k[1..]));
    }
  }

  /** The blocks of a choice that backtracks, after its test. */
  ghost predicate ChoiceAt(m: Machine, at: nat, p: Tree, opt: bool, test: Test, fl: Charset)
    requires p.TChoice?
  {
    var b1, b2 := Gen(p.p1, p.p2.TTrue?, test, FullSet()), Gen(p.p2, opt, NoTest, fl);
    && At(m, at, [IChoice(2 + |b1|)]) && At(m, at + 1, b1)
    && At(m, at + 1 + |b1|, [ICommit(1 + |b2|)]) && At(m, at + 2 + |b1|, b2)
  }

  lemma PlainChoiceLayout(m: Machine, at: nat, p: Tree, opt: bool, fl: Charset)
    requires p.TChoice? && At(m, at, PlainChoice(p, opt, fl))
    ensures var f1 := GetFirst(p.p1, FullSet());
            var test := TestFor(f1.set_, f1.empty);
            var b1, b2 := Gen(p.p1, p.p2.TTrue?, test, FullSet()), Gen(p.p2, opt, NoTest, fl);
            var tc := TestCode(test, 3 + |b1|);
            && At(m, at, tc) && ChoiceAt(m, at + |tc|, p, opt, test, fl)
            && |PlainChoice(p, opt, fl)| == |tc| + 2 + |b1| + |b2|
  {
    hide At, Gen, GetFirst, TestFor, TestCode;
    var f1 := GetFirst(p.p1, FullSet());
    var test := TestFor(f1.set_, f1.empty);
    var b1, b2 := Gen(p.p1, p.p2.TTrue?, test, FullSet()), Gen(p.p2, opt, NoTest, fl);
    var tc, ch, co := TestCode(test, 3 + |b1|), [IChoice(2 + |b1|)], [ICommit(1 + |b2|)];
    AtSplit(m, at, tc, ch + (b1 + (co + b2)));
    AtSplit4(m, at + |tc|, ch, b1, co, b2);
  }

  /** choice L1; p1; commit L2; L1: p2; L2: */
  lemma ChoiceBody(m: Machine, at: nat, p: Tree, opt: bool, test: Test, fl: Charset, s: nat, k: seq<Frame>)
    requires Accepted(p) && p.TChoice? && s <= |m.subj| && (opt ==> k != [] && fl == FullSet())
    requires Passes(test, m.subj, s) && ChoiceAt(m, at, p, opt, test, fl)
    ensures Does(m, at, at + 2 + |Gen(p.p1, p.p2.TTrue?, test, FullSet())| + |Gen(p.p2, opt, NoTest, fl)|,
                 Match(p, m.subj, s), opt, fl, s, k)
    decreases p, 0, 0
  {
    hide Contains, Reaches, Gen, GetFirst, At, Does, Passes, Match;
    var p1, p2, opt1 := p.p1, p.p2, p.p2.TTrue?;
    var b1, b2 := Gen(p1, opt1, test, FullSet()), Gen(p2, opt, NoTest, fl);
    var l1, end := at + 2 + |b1|, at + 2 + |b1| + |b2|;
    var k1 := [Frame(l1, s)] + k;
    Exec(m, at, IChoice(2 + |b1|), s, k);
    GenCorrect(m, at + 1, p1, opt1, test, FullSet(), s, k1);
    TrueCode(opt, NoTest, fl);
    PassesNothing(m.subj, s);
    var r1 := Match(p1, m.subj, s);
    if r1.None? {
      GenCorrect(m, l1, p2, opt, NoTest, fl, s, k);
      ChoiceSecond(m, at, l1, end, p, opt, fl, s, k);
    } else {
      ChoiceFirst(m, at, at + 1 + |b1|, end, p, opt, fl, s, k);
    }
  }

  /** p1 fails into the choice entry, which leads to p2. */
  lemma ChoiceSecond(m: Machine, at: nat, l1: nat, end: nat, p: Tree, opt: bool, fl: Charset, s: nat, k: seq<Frame>)
    requires p.TChoice? && s <= |m.subj| && (opt ==> k != []) && Match(p.p1, m.subj, s).None?
    requires Reaches(m, Run(at, s, k), Run(at + 1, s, [Frame(l1, s)] + k))
    requires Does(m, at + 1, l1 - 1, None, p.p2.TTrue?, FullSet(), s, [Frame(l1, s)] + k)
    requires Does(m, l1, end, Match(p.p2, m.subj, s), opt, fl, s, k)
    ensures Does(m, at, end, Match(p, m.subj, s), opt, fl, s, k)
  {
    hide Contains, Reaches, Succeeds;
    var k1 := [Frame(l1, s)] + k;
    assert k1[1..] == k;
    ReachesTrans(m, Run(at, s, k), Run(at + 1, s, k1), Run(l1, s, k));
    DoesAfter(m, at, s, l1, s, end, Match(p, m.subj, s), opt, fl, k);
  }

  /** p1 succeeds and commits, or, being optional, fails into the choice entry at the position it reached. */
  lemma ChoiceFirst(m: Machine, at: nat, mid: nat, end: nat, p: Tree, opt: bool, fl: Charset, s: nat, k: seq<Frame>)
    requires p.TChoice? && s <= |m.subj| && (opt ==> k != []) && Match(p.p1, m.subj, s).Some?
    requires Reaches(m, Run(at, s, k), Run(at + 1, s, [Frame(mid + 1, s)] + k))
    requires Does(m, at + 1, mid, Match(p.p1, m.subj, s), p.p2.TTrue?, FullSet(), s, [Frame(mid + 1, s)] + k)
    requires At(m, mid, [ICommit(end - mid)]) && (p.p2.TTrue? ==> mid + 1 == end)
    ensures Does(m, at, end, Match(p, m.subj, s), opt, fl, s, k)
  {
    hide Contains, Reaches, At;
    var k1, j := [Frame(mid + 1, s)] + k, Match(p.p1, m.subj, s).value;
    assert k1[1..] == k;
    var a, b := Run(at, s, k), Run(at + 1, s, k1);
    DoesExactly(m, at + 1, mid, Some(j), p.p2.TTrue?, s, k1);
    if p.p2.TTrue? && Reaches(m, b, Run(end, j, k)) {
      ReachesTrans(m, a, b, Run(end, j, k));
    } else {
      var x: nat := s;
      if p.p2.TTrue? {
        x :| Reaches(m, b, Run(mid, j, [Frame(k1[0].pc, x)] + k1[1..]));
      }
      var k2 := [Frame(mid + 1, x)] + k;
      assert k2[1..] == k;
      Exec(m, mid, ICommit(end - mid), j, k2);
      ReachesTrans(m, b, Run(mid, j, k2), Run(end, j, k));
      ReachesTrans(m, a, b, Run(end, j, k));
    }
    SucceedsPlainly(m, at, end, j, opt, s, k);
  }

  /** The backtracking choice, with its protecting test if there is one. */
  lemma PlainChoiceCorrect(m: Machine, at: nat, p: Tree, opt: bool, fl: Charset, s: nat, k: seq<Frame>)
    requires Accepted(p) && p.TChoice? && s <= |m.subj| && (opt ==> k != [] && fl == FullSet())
    requires At(m, at, PlainChoice(p, opt, fl))
    ensures Does(m, at, at + |PlainChoice(p, opt, fl)|, Match(p, m.subj, s), opt, fl, s, k)
    decreases p, 0
  {
    hide Contains, Reaches, Gen, GetFirst, At, Does, Passes, Match, TestFor, TestCode, One, PlainChoice, ChoiceAt;
    var f1 := GetFirst(p.p1, FullSet());
    var test := TestFor(f1.set_, f1.empty);
    PlainChoiceLayout(m, at, p, opt, fl);
    var b1, b2 := Gen(p.p1, p.p2.TTrue?, test, FullSet()), Gen(p.p2, opt, NoTest, fl);
    var tc := TestCode(test, 3 + |b1|);
    var end := at + |tc| + 2 + |b1| + |b2|;
    TestCodeSize(f1.set_, f1.empty, 3 + |b1|, m.subj, s);
    if !f1.empty {
      ExecTest(m, at, test, 3 + |b1|, s, k);
    }
    if Passes(test, m.subj, s) {
      ChoiceBody(m, at + |tc|, p, opt, test, fl, s, k);
      if !f1.empty {
        DoesAfter(m, at, s, at + 1, s, end, Match(p, m.subj, s), opt, fl, k);
      }
    } else {
      PlainChoiceSkips(p, m.subj, s);
      PassesNothing(m.subj, s);
      ChoiceAtSecond(m, at + |tc|, p, opt, test, fl);
      GenCorrect(m, at + 3 + |b1|, p.p2, opt, NoTest, fl, s, k);
      DoesAfter(m, at, s, at + 3 + |b1|, s, end, Match(p, m.subj, s), opt, fl, k);
    }
  }

  lemma TestCodeSize(cs: Charset, e: bool, off: int, subj: Subject, s: nat)
    ensures |TestCode(TestFor(cs, e), off)| == if e then 0 else 1
    ensures e <==> TestFor(cs, e) == NoTest
    ensures Passes(TestFor(cs, e), subj, s) <==> e || One(subj, s, cs)
  {
    hide KindOf, Contains;
    if !e {
      TestForSound(cs, subj, s);
    }
  }

  lemma ChoiceAtSecond(m: Machine, at: nat, p: Tree, opt: bool, test: Test, fl: Charset)
    requires p.TChoice? && ChoiceAt(m, at, p, opt, test, fl)
    ensures At(m, at + 2 + |Gen(p.p1, p.p2.TTrue?, test, FullSet())|, Gen(p.p2, opt, NoTest, fl))
  {
    hide At, Gen;
  }

  lemma PlainChoiceSkips(p: Tree, subj: Subject, s: nat)
    requires Accepted(p) && p.TChoice? && s <= |subj|
    requires !GetFirst(p.p1, FullSet()).empty && !One(subj, s, GetFirst(p.p1, FullSet()).set_)
    ensures Match(p, subj, s) == Match(p.p2, subj, s)
  {
    hide Contains, GetFirst;
    NotInFirst(p.p1, subj, s);
  }

  // ---- repetition ----

  lemma TestedRepLayout(m: Machine, at: nat, p: Tree)
    requires p.TRep? && At(m, at, TestedRep(p))
    ensures var test := TestFor(GetFirst(p.body, FullSet()).set_, false);
            var b := Gen(p.body, false, test, FullSet());
            && At(m, at, TestCode(test, 2 + |b|)) && At(m, at + 1, b) && At(m, at + 1 + |b|, [IJmp(-(1 + |b|))])
            && |TestedRep(p)| == 2 + |b|
  {
    hide At, Gen, GetFirst, TestFor, TestCode;
    var test := TestFor(GetFirst(p.body, FullSet()).set_, false);
    var b := Gen(p.body, false, test, FullSet());
    TestCodeSize(GetFirst(p.body, FullSet()).set_, false, 2 + |b|, m.subj, 0);
    AtSplit(m, at, TestCode(test, 2 + |b|), b + [IJmp(-(1 + |b|))]);
    AtSplit(m, at + 1, b, [IJmp(-(1 + |b|))]);
  }

  /** p* by test and jump, without a backtrack entry. */
  lemma TestedRepCorrect(m: Machine, at: nat, p: Tree, opt: bool, fl: Charset, s: nat, k: seq<Frame>)
    requires Accepted(p) && p.TRep? && s <= |m.subj| && (opt ==> k != [])
    requires RepByTest(p.body, fl) && At(m, at, TestedRep(p))
    ensures Does(m, at, at + |TestedRep(p)|, Match(p, m.subj, s), opt, fl, s, k)
    decreases p, 0, |m.subj| - s
  {
    hide Contains, Reaches, Gen, GetFirst, At, Does, TestFor, TestedRep, Passes, Match, RepByTest, One, TestCode;
    var cs := GetFirst(p.body, FullSet()).set_;
    var test := TestFor(cs, false);
    TestedRepLayout(m, at, p);
    TestForSound(cs, m.subj, s);
    TestForSome(cs);
    var b := Gen(p.body, false, test, FullSet());
    var end := at + 2 + |b|;
    ExecTest(m, at, test, 2 + |b|, s, k);
    RepUnfold(p, m.subj, s);
    var r := Match(p.body, m.subj, s);
    if Passes(test, m.subj, s) {
      GenCorrect(m, at + 1, p.body, false, test, FullSet(), s, k);
      if r.Some? {
        TestedRepCorrect(m, at, p, opt, fl, r.value, k);
        TestedRepAgain(m, at, end - 1, end, p, opt, fl, s, k);
      } else {
        RepNoSecondChance(p.body, fl, m.subj, s);
        RepStops(m, at, end, p, opt, fl, s, k);
      }
    } else {
      RepOutside(p.body, fl, m.subj, s);
      RepEnds(m, at, end, opt, fl, s, k);
    }
  }

  /** One round of a repetition. */
  lemma RepUnfold(p: Tree, subj: Subject, s: nat)
    requires Accepted(p) && p.TRep? && s <= |subj|
    ensures var r := Match(p.body, subj, s);
            if r.None? then Match(p, subj, s) == Some(s)
            else s < r.value <= |subj| && Match(p, subj, s) == Match(p, subj, r.value)
  {
    Conservative(p.body, subj, s);
  }

  lemma RepEnds(m: Machine, at: nat, end: nat, opt: bool, fl: Charset, s: nat, k: seq<Frame>)
    requires opt ==> k != []
    requires Reaches(m, Run(at, s, k), Run(end, s, k))
    ensures Does(m, at, end, Some(s), opt, fl, s, k)
  {
    hide Contains, Reaches;
    SucceedsPlainly(m, at, end, s, opt, s, k);
  }

  lemma TestedRepAgain(m: Machine, at: nat, mid: nat, end: nat, p: Tree, opt: bool, fl: Charset, s: nat, k: seq<Frame>)
    requires p.TRep? && s <= |m.subj| && (opt ==> k != []) && Match(p.body, m.subj, s).Some?
    requires Reaches(m, Run(at, s, k), Run(at + 1, s, k))
    requires Does(m, at + 1, mid, Match(p.body, m.subj, s), false, FullSet(), s, k)
    requires At(m, mid, [IJmp(at - mid)])
    requires Match(p, m.subj, s) == Match(p, m.subj, Match(p.body, m.subj, s).value)
    requires Does(m, at, end, Match(p, m.subj, s), opt, fl, Match(p.body, m.subj, s).value, k)
    ensures Does(m, at, end, Match(p, m.subj, s), opt, fl, s, k)
  {
    hide Contains, Reaches, At, Match;
    var j := Match(p.body, m.subj, s).value;
    DoesExactly(m, at + 1, mid, Some(j), false, s, k);
    Exec(m, mid, IJmp(at - mid), j, k);
    ReachesTrans(m, Run(at, s, k), Run(at + 1, s, k), Run(mid, j, k));
    ReachesTrans(m, Run(at, s, k), Run(mid, j, k), Run(at, j, k));
    DoesAfter(m, at, s, at, j, end, Match(p, m.subj, s), opt, fl, k);
  }

  /** The body failed after its test passed: the block fails, and so would what follows. */
  lemma RepStops(m: Machine, at: nat, end: nat, p: Tree, opt: bool, fl: Charset, s: nat, k: seq<Frame>)
    requires s < |m.subj| && (opt ==> k != []) && !Contains(fl, m.subj[s])
    requires Reaches(m, Run(at, s, k), Run(at + 1, s, k))
    requires Does(m, at + 1, end - 1, None, false, FullSet(), s, k)
    ensures Does(m, at, end, Some(s), opt, fl, s, k)
  {
    hide Contains, Reaches;
    ReachesTrans(m, Run(at, s, k), Run(at + 1, s, k), Fail(k));
  }

  lemma RepNoSecondChance(body: Tree, fl: Charset, subj: Subject, s: nat)
    requires Accepted(body) && RepByTest(body, fl)
    requires One(subj, s, GetFirst(body, FullSet()).set_) && Match(body, subj, s).None?
    ensures s < |subj| && !Contains(fl, subj[s])
  {
    hide Contains, GetFirst;
    if HeadFail(body) {
      HeadFailSound(body, FullSet(), subj, s);
    } else {
      DisjointContains(GetFirst(body, FullSet()).set_, fl, subj[s]);
    }
  }

  lemma RepOutside(body: Tree, fl: Charset, subj: Subject, s: nat)
    requires Accepted(body) && RepByTest(body, fl) && s <= |subj|
    requires !One(subj, s, GetFirst(body, FullSet()).set_)
    ensures Match(body, subj, s).None?
  {
    hide Contains, GetFirst;
    NotInFirst(body, subj, s);
  }

  /** The blocks of a repetition that backtracks, after its test. */
  ghost predicate RepAt(m: Machine, at: nat, p: Tree, opt: bool)
    requires p.TRep?
  {
    var b := Gen(p.body, false, NoTest, FullSet());
    && At(m, at, [if opt then IPartialCommit(1) else IChoice(2 + |b|)]) && At(m, at + 1, b)
    && At(m, at + 1 + |b|, [IPartialCommit(-|b|)])
  }

  lemma PlainRepLayout(m: Machine, at: nat, p: Tree, opt: bool)
    requires p.TRep? && At(m, at, PlainRep(p, opt))
    ensures var f := GetFirst(p.body, FullSet());
            var test := TestFor(f.set_, f.empty);
            var b := Gen(p.body, false, NoTest, FullSet());
            var tc := TestCode(test, 3 + |b|);
            && At(m, at, tc) && RepAt(m, at + |tc|, p, opt) && |PlainRep(p, opt)| == |tc| + 2 + |b|
  {
    hide At, Gen, GetFirst, TestFor, TestCode;
    var f := GetFirst(p.body, FullSet());
    var test := TestFor(f.set_, f.empty);
    var b := Gen(p.body, false, NoTest, FullSet());
    var tc, ch, co :=
      TestCode(test, 3 + |b|), [if opt then IPartialCommit(1) else IChoice(2 + |b|)], [IPartialCommit(-|b|)];
    AtSplit(m, at, tc, ch + (b + co));
    AtSplit(m, at + |tc|, ch, b + co);
    AtSplit(m, at + |tc| + 1, b, co);
  }

  /** L1: p; partialcommit L1, with the way out on top of the stack. */
  lemma RepLoop(m: Machine, l1: nat, p: Tree, s: nat, ret: int, rest: seq<Frame>)
    requires Accepted(p) && p.TRep? && s <= |m.subj|
    requires var b := Gen(p.body, false, NoTest, FullSet());
             At(m, l1, b) && At(m, l1 + |b|, [IPartialCommit(-|b|)])
    ensures Match(p, m.subj, s).Some?
    ensures Reaches(m, Run(l1, s, [Frame(ret, s)] + rest), Run(ret, Match(p, m.subj, s).value, rest))
    decreases p, 0, |m.subj| - s
  {
    hide Contains, Reaches, Gen, At, Passes, Match;
    var b := Gen(p.body, false, NoTest, FullSet());
    var k := [Frame(ret, s)] + rest;
    assert k[1..] == rest;
    PassesNothing(m.subj, s);
    GenCorrect(m, l1, p.body, false, NoTest, FullSet(), s, k);
    RepUnfold(p, m.subj, s);
    var r := Match(p.body, m.subj, s);
    DoesExactly(m, l1, l1 + |b|, r, false, s, k);
    if r.Some? {
      var j := r.value;
      var k' := [Frame(ret, j)] + rest;
      Exec(m, l1 + |b|, IPartialCommit(-|b|), j, k);
      assert Reaches(m, Run(l1 + |b|, j, k), Run(l1, j, k'));
      RepLoop(m, l1, p, j, ret, rest);
      ReachesTrans(m, Run(l1, s, k), Run(l1 + |b|, j, k), Run(l1, j, k'));
      ReachesTrans(m, Run(l1, s, k), Run(l1, j, k'), Run(ret, Match(p, m.subj, j).value, rest));
    }
  }

  lemma RepBody(m: Machine, at: nat, p: Tree, opt: bool, fl: Charset, s: nat, k: seq<Frame>)
    requires Accepted(p) && p.TRep? && s <= |m.subj| && (opt ==> k != []) && RepAt(m, at, p, opt)
    ensures Does(m, at, at + 2 + |Gen(p.body, false, NoTest, FullSet())|, Match(p, m.subj, s), opt, fl, s, k)
    decreases p, 1, 0
  {
    hide Contains, Reaches, Gen, At, Match;
    var b := Gen(p.body, false, NoTest, FullSet());
    var end := at + 2 + |b|;
    var ret, rest := if opt then k[0].pc else end, if opt then k[1..] else k;
    Exec(m, at, if opt then IPartialCommit(1) else IChoice(2 + |b|), s, k);
    RepLoop(m, at + 1, p, s, ret, rest);
    var j := Match(p, m.subj, s).value;
    ReachesTrans(m, Run(at, s, k), Run(at + 1, s, [Frame(ret, s)] + rest), Run(ret, j, rest));
  }

  /** The backtracking repetition, with its protecting test if there is one. */
  lemma PlainRepCorrect(m: Machine, at: nat, p: Tree, opt: bool, fl: Charset, s: nat, k: seq<Frame>)
    requires Accepted(p) && p.TRep? && s <= |m.subj| && (opt ==> k != []) && At(m, at, PlainRep(p, opt))
    ensures Does(m, at, at + |PlainRep(p, opt)|, Match(p, m.subj, s), opt, fl, s, k)
    decreases p, 1, 1
  {
    hide Contains, Reaches, Gen, GetFirst, At, Does, Passes, Match, TestFor, TestCode, One, PlainRep, RepAt;
    var f := GetFirst(p.body, FullSet());
    var test := TestFor(f.set_, f.empty);
    PlainRepLayout(m, at, p, opt);
    var b := Gen(p.body, false, NoTest, FullSet());
    var tc := TestCode(test, 3 + |b|);
    var end := at + |tc| + 2 + |b|;
    TestCodeSize(f.set_, f.empty, 3 + |b|, m.subj, s);
    RepBody(m, at + |tc|, p, opt, fl, s, k);
    if !f.empty {
      ExecTest(m, at, test, 3 + |b|, s, k);
      if Passes(test, m.subj, s) {
        DoesAfter(m, at, s, at + 1, s, end, Match(p, m.subj, s), opt, fl, k);
      } else {
        NotInFirst(p.body, m.subj, s);
        RepUnfold(p, m.subj, s);
        RepEnds(m, at, end, opt, fl, s, k);
      }
    }
  }

  // ---- predicates ----

  /** !p when p is head-fail: the test alone decides. */
  lemma HeadNotCorrect(m: Machine, at: nat, p: Tree, opt: bool, fl: Charset, s: nat, k: seq<Frame>)
    requires Accepted(p) && p.TNot? && HeadFail(p.body) && s <= |m.subj| && (opt ==> k != [])
    requires At(m, at, NotCode(p))
    ensures Does(m, at, at + |NotCode(p)|, Match(p, m.subj, s), opt, fl, s, k)
  {
    hide Contains, Reaches, Gen, GetFirst, At, Passes, TestFor, TestCode, One;
    var f := GetFirst(p.body, FullSet());
    var test := TestFor(f.set_, f.empty);
    HeadFailSound(p.body, FullSet(), m.subj, s);
    HeadFailExact(p.body, m.subj, s);
    TestCodeSize(f.set_, false, 2, m.subj, s);
    AtSplit(m, at, TestCode(test, 2), [IFail]);
    ExecTest(m, at, test, 2, s, k);
    if Passes(test, m.subj, s) {
      Exec(m, at + 1, IFail, s, k);
      ReachesTrans(m, Run(at, s, k), Run(at + 1, s, k), Fail(k));
    } else {
      SucceedsPlainly(m, at, at + 2, s, opt, s, k);
    }
  }

  lemma PlainNotLayout(m: Machine, at: nat, p: Tree)
    requires p.TNot? && !HeadFail(p.body) && At(m, at, NotCode(p))
    ensures var f := GetFirst(p.body, FullSet());
            var b := Gen(p.body, false, NoTest, FullSet());
            var tc := TestCode(TestFor(f.set_, f.empty), 3 + |b|);
            && At(m, at, tc) && At(m, at + |tc|, [IChoice(2 + |b|)]) && At(m, at + |tc| + 1, b)
            && At(m, at + |tc| + 1 + |b|, [IFailTwice]) && |NotCode(p)| == |tc| + 2 + |b|
  {
    hide At, Gen, GetFirst, TestFor, TestCode;
    var f := GetFirst(p.body, FullSet());
    var b := Gen(p.body, false, NoTest, FullSet());
    AtSplit4(m, at, TestCode(TestFor(f.set_, f.empty), 3 + |b|), [IChoice(2 + |b|)], b, [IFailTwice]);
  }

  /** choice L1; p; failtwice; L1: */
  lemma NotBody(m: Machine, at: nat, p: Tree, opt: bool, fl: Charset, s: nat, k: seq<Frame>)
    requires Accepted(p) && p.TNot? && s <= |m.subj| && (opt ==> k != [])
    requires var b := Gen(p.body, false, NoTest, FullSet());
             At(m, at, [IChoice(2 + |b|)]) && At(m, at + 1, b) && At(m, at + 1 + |b|, [IFailTwice])
    ensures Does(m, at, at + 2 + |Gen(p.body, false, NoTest, FullSet())|, Match(p, m.subj, s), opt, fl, s, k)
    decreases p, 0
  {
    hide Contains, Reaches, Gen, At, Passes;
    var b := Gen(p.body, false, NoTest, FullSet());
    var end := at + 2 + |b|;
    var k1 := [Frame(end, s)] + k;
    assert k1[1..] == k;
    Exec(m, at, IChoice(2 + |b|), s, k);
    PassesNothing(m.subj, s);
    GenCorrect(m, at + 1, p.body, false, NoTest, FullSet(), s, k1);
    var r := Match(p.body, m.subj, s);
    DoesExactly(m, at + 1, end - 1, r, false, s, k1);
    if r.Some? {
      Exec(m, end - 1, IFailTwice, r.value, k1);
      ReachesTrans(m, Run(at, s, k), Run(at + 1, s, k1), Run(end - 1, r.value, k1));
      ReachesTrans(m, Run(at, s, k), Run(end - 1, r.value, k1), Fail(k));
    } else {
      ReachesTrans(m, Run(at, s, k), Run(at + 1, s, k1), Run(end, s, k));
      SucceedsPlainly(m, at, end, s, opt, s, k);
    }
  }

  lemma PlainNotCorrect(m: Machine, at: nat, p: Tree, opt: bool, fl: Charset, s: nat, k: seq<Frame>)
    requires Accepted(p) && p.TNot? && !HeadFail(p.body) && s <= |m.subj| && (opt ==> k != [])
    requires At(m, at, NotCode(p))
    ensures Does(m, at, at + |NotCode(p)|, Match(p, m.subj, s), opt, fl, s, k)
    decreases p, 1, 0
  {
    hide Contains, Reaches, Gen, GetFirst, At, Does, Passes, TestFor, TestCode, One, NotCode;
    var f := GetFirst(p.body, FullSet());
    var test := TestFor(f.set_, f.empty);
    PlainNotLayout(m, at, p);
    var b := Gen(p.body, false, NoTest, FullSet());
    var tc := TestCode(test, 3 + |b|);
    var end := at + |tc| + 2 + |b|;
    TestCodeSize(f.set_, f.empty, 3 + |b|, m.subj, s);
    NotBody(m, at + |tc|, p, opt, fl, s, k);
    if !f.empty {
      ExecTest(m, at, test, 3 + |b|, s, k);
      if Passes(test, m.subj, s) {
        DoesAfter(m, at, s, at + 1, s, end, Match(p, m.subj, s), opt, fl, k);
      } else {
        NotInFirst(p.body, m.subj, s);
        RepEnds(m, at, end, opt, fl, s, k);
      }
    }
  }

  /** &p for p of fixed length: match it and step back. */
  lemma FixedAndCorrect(m: Machine, at: nat, p: Tree, opt: bool, tt: Test, fl: Charset, s: nat, k: seq<Frame>)
    requires Accepted(p) && p.TAnd? && 0 <= FixedLen(p.body) <= MAXBEHIND && s <= |m.subj| && (opt ==> k != [])
    requires Passes(tt, m.subj, s) && At(m, at, AndCode(p, tt))
    ensures Does(m, at, at + |AndCode(p, tt)|, Match(p, m.subj, s), opt, fl, s, k)
    decreases p, 0
  {
    hide Contains, Reaches, Gen, At, Passes, Match, AndCode, FixedLen, Does;
    FixedAndLayout(m, at, p, tt);
    var b := Gen(p.body, false, tt, FullSet());
    GenCorrect(m, at, p.body, false, tt, FullSet(), s, k);
    FixedAndCompose(m, at, at + |b|, p, opt, fl, s, k);
  }

  lemma FixedAndLayout(m: Machine, at: nat, p: Tree, tt: Test)
    requires p.TAnd? && 0 <= FixedLen(p.body) <= MAXBEHIND && At(m, at, AndCode(p, tt))
    ensures var n, b := FixedLen(p.body), Gen(p.body, false, tt, FullSet());
            && At(m, at, b) && (n > 0 ==> At(m, at + |b|, [IBehind(n)]))
            && |AndCode(p, tt)| == |b| + if n > 0 then 1 else 0
  {
    hide At, Gen;
    var n := FixedLen(p.body);
    AtSplit(m, at, Gen(p.body, false, tt, FullSet()), if n > 0 then [IBehind(n)] else []);
  }

  lemma FixedAndCompose(m: Machine, at: nat, mid: nat, p: Tree, opt: bool, fl: Charset, s: nat, k: seq<Frame>)
    requires Accepted(p) && p.TAnd? && 0 <= FixedLen(p.body) && s <= |m.subj| && (opt ==> k != [])
    requires Does(m, at, mid, Match(p.body, m.subj, s), false, FullSet(), s, k)
    requires FixedLen(p.body) > 0 ==> At(m, mid, [IBehind(FixedLen(p.body))])
    ensures Does(m, at, mid + if FixedLen(p.body) > 0 then 1 else 0, Match(p, m.subj, s), opt, fl, s, k)
  {
    hide Contains, Reaches, At, FixedLen;
    var n, r := FixedLen(p.body), Match(p.body, m.subj, s);
    Conservative(p.body, m.subj, s);
    DoesExactly(m, at, mid, r, false, s, k);
    if r.Some? {
      if n > 0 {
        Exec(m, mid, IBehind(n), r.value, k);
        ReachesTrans(m, Run(at, s, k), Run(mid, r.value, k), Run(mid + 1, s, k));
        SucceedsPlainly(m, at, mid + 1, s, opt, s, k);
      } else {
        SucceedsPlainly(m, at, mid, s, opt, s, k);
      }
    }
  }

  lemma PlainAndLayout(m: Machine, at: nat, p: Tree, tt: Test)
    requires p.TAnd? && !(0 <= FixedLen(p.body) <= MAXBEHIND) && At(m, at, AndCode(p, tt))
    ensures var b := Gen(p.body, false, tt, FullSet());
            && At(m, at, [IChoice(2 + |b|)]) && At(m, at + 1, b) && At(m, at + 1 + |b|, [IBackCommit(2)])
            && At(m, at + 2 + |b|, [IFail]) && |AndCode(p, tt)| == 3 + |b|
  {
    hide At, Gen;
    var b := Gen(p.body, false, tt, FullSet());
    AtSplit4(m, at, [IChoice(2 + |b|)], b, [IBackCommit(2)], [IFail]);
  }

  /** choice L1; p; backcommit L2; L1: fail; L2: */
  lemma PlainAndCorrect(m: Machine, at: nat, p: Tree, opt: bool, tt: Test, fl: Charset, s: nat, k: seq<Frame>)
    requires Accepted(p) && p.TAnd? && !(0 <= FixedLen(p.body) <= MAXBEHIND) && s <= |m.subj| && (opt ==> k != [])
    requires Passes(tt, m.subj, s) && At(m, at, AndCode(p, tt))
    ensures Does(m, at, at + |AndCode(p, tt)|, Match(p, m.subj, s), opt, fl, s, k)
    decreases p, 0
  {
    hide Contains, Reaches, Gen, At, Passes, AndCode, FixedLen;
    PlainAndLayout(m, at, p, tt);
    var b := Gen(p.body, false, tt, FullSet());
    var mid := at + 1 + |b|;
    var k1 := [Frame(mid + 1, s)] + k;
    assert k1[1..] == k;
    Exec(m, at, IChoice(2 + |b|), s, k);
    GenCorrect(m, at + 1, p.body, false, tt, FullSet(), s, k1);
    var r := Match(p.body, m.subj, s);
    DoesExactly(m, at + 1, mid, r, false, s, k1);
    if r.Some? {
      Exec(m, mid, IBackCommit(2), r.value, k1);
      ReachesTrans(m, Run(at, s, k), Run(at + 1, s, k1), Run(mid, r.value, k1));
      ReachesTrans(m, Run(at, s, k), Run(mid, r.value, k1), Run(mid + 2, s, k));
      SucceedsPlainly(m, at, mid + 2, s, opt, s, k);
    } else {
      Exec(m, mid + 1, IFail, s, k);
      ReachesTrans(m, Run(at, s, k), Run(at + 1, s, k1), Run(mid + 1, s, k));
      ReachesTrans(m, Run(at, s, k), Run(mid + 1, s, k), Fail(k));
    }
  }

  /** behind n; p */
  lemma BehindCorrect(m: Machine, at: nat, p: Tree, opt: bool, fl: Charset, s: nat, k: seq<Frame>)
    requires Accepted(p) && p.TBehind? && s <= |m.subj| && (opt ==> k != [])
    requires var back := if p.n > 0 then [IBehind(p.n)] else [];
             At(m, at, back + Gen(p.body, false, NoTest, FullSet()))
    ensures Does(m, at, at + (if p.n > 0 then 1 else 0) + |Gen(p.body, false, NoTest, FullSet())|,
                 Match(p, m.subj, s), opt, fl, s, k)
    decreases p, 0
  {
    hide Contains, Reaches, Gen, At, Passes, Match, Does;
    var n, b := p.n, Gen(p.body, false, NoTest, FullSet());
    var back := if n > 0 then [IBehind(n)] else [];
    var mid, end := at + |back|, at + |back| + |b|;
    AtSplit(m, at, back, b);
    if n <= s {
      PassesNothing(m.subj, s - n);
      GenCorrect(m, mid, p.body, false, NoTest, FullSet(), s - n, k);
    }
    BehindCompose(m, at, mid, end, p, opt, fl, s, k);
  }

  lemma BehindCompose(m: Machine, at: nat, mid: nat, end: nat, p: Tree, opt: bool, fl: Charset, s: nat, k: seq<Frame>)
    requires Accepted(p) && p.TBehind? && s <= |m.subj| && (opt ==> k != [])
    requires if p.n > 0 then mid == at + 1 && At(m, at, [IBehind(p.n)]) else mid == at
    requires p.n <= s ==> Does(m, mid, end, Match(p.body, m.subj, s - p.n), false, FullSet(), s - p.n, k)
    ensures Does(m, at, end, Match(p, m.subj, s), opt, fl, s, k)
  {
    hide Contains, Reaches, At;
    if p.n > 0 {
      Exec(m, at, IBehind(p.n), s, k);
    } else {
      ReachesSelf(m, Run(at, s, k));
    }
    if p.n <= s {
      var r := Match(p.body, m.subj, s - p.n);
      DoesAfter(m, at, s, mid, s - p.n, end, r, false, FullSet(), k);
      DoesExactly(m, at, end, r, false, s, k);
      if r.Some? {
        SucceedsPlainly(m, at, end, r.value, opt, s, k);
      }
    }
  }

  /** The main lemma: the code of p, wherever it is placed and entered, does what p matches. */
  lemma {:induction false} GenCorrect(m: Machine, at: nat, p: Tree, opt: bool, tt: Test, fl: Charset, s: nat,
                                      k: seq<Frame>)
    requires Enters(m, at, p, opt, tt, fl, s, k)
    ensures Correct(m, at, p, opt, tt, fl, s, k)
    decreases p, 2
  {
    hide Enters, Correct;
    match p
    case TChar(_) => CharCorrect(m, at, p, opt, tt, fl, s, k);
    case TAny => CharCorrect(m, at, p, opt, tt, fl, s, k);
    case TFalse => CharCorrect(m, at, p, opt, tt, fl, s, k);
    case TSet(_) => SetCorrect(m, at, p, opt, tt, fl, s, k);
    case TTrue => TrueCorrect(m, at, p, opt, tt, fl, s, k);
    case TSeq(_, _) => SeqCorrect(m, at, p, opt, tt, fl, s, k);
    case TChoice(_, _) => ChoiceCorrect(m, at, p, opt, tt, fl, s, k);
    case TRep(_) => RepCorrect(m, at, p, opt, tt, fl, s, k);
    case TNot(_) => PredicateCorrect(m, at, p, opt, tt, fl, s, k);
    case TAnd(_) => PredicateCorrect(m, at, p, opt, tt, fl, s, k);
    case TBehind(_, _) => PredicateCorrect(m, at, p, opt, tt, fl, s, k);
  }

  lemma TrueCorrect(m: Machine, at: nat, p: Tree, opt: bool, tt: Test, fl: Charset, s: nat, k: seq<Frame>)
    requires Enters(m, at, p, opt, tt, fl, s, k) && p.TTrue?
    ensures Correct(m, at, p, opt, tt, fl, s, k)
  {
    hide Contains, Reaches;
    ReachesSelf(m, Run(at, s, k));
    SucceedsPlainly(m, at, at, s, opt, s, k);
  }

  lemma ChoiceCorrect(m: Machine, at: nat, p: Tree, opt: bool, tt: Test, fl: Charset, s: nat, k: seq<Frame>)
    requires Enters(m, at, p, opt, tt, fl, s, k) && p.TChoice?
    ensures Correct(m, at, p, opt, tt, fl, s, k)
    decreases p, 1, 2
  {
    hide Does, At, Match, ChoiceByTest, TestedChoice, PlainChoice, Gen, Passes;
    GenForms(p, opt, tt, fl);
    if ChoiceByTest(p, fl) {
      TestedChoiceCorrect(m, at, p, opt, fl, s, k);
    } else if opt && p.p2.TTrue? {
      PartialChoiceCorrect(m, at, p, s, k);
    } else {
      PlainChoiceCorrect(m, at, p, opt, fl, s, k);
    }
  }

  lemma RepCorrect(m: Machine, at: nat, p: Tree, opt: bool, tt: Test, fl: Charset, s: nat, k: seq<Frame>)
    requires Enters(m, at, p, opt, tt, fl, s, k) && p.TRep?
    ensures Correct(m, at, p, opt, tt, fl, s, k)
    decreases p, 1, 2
  {
    hide Does, At, Match, RepByTest, TestedRep, PlainRep, Gen, Passes, ToCharset;
    GenForms(p, opt, tt, fl);
    if ToCharset(p.body).Some? {
      SpanCorrect(m, at, p, opt, tt, fl, s, k);
    } else if RepByTest(p.body, fl) {
      TestedRepCorrect(m, at, p, opt, fl, s, k);
    } else {
      PlainRepCorrect(m, at, p, opt, fl, s, k);
    }
  }

  lemma PredicateCorrect(m: Machine, at: nat, p: Tree, opt: bool, tt: Test, fl: Charset, s: nat, k: seq<Frame>)
    requires Enters(m, at, p, opt, tt, fl, s, k) && (p.TNot? || p.TAnd? || p.TBehind?)
    ensures Correct(m, at, p, opt, tt, fl, s, k)
    decreases p, 1, 2
  {
    hide Does, At, Match, NotCode, AndCode, Gen, Passes, FixedLen;
    GenForms(p, opt, tt, fl);
    match p {
      case TNot(body) =>
        if HeadFail(body) {
          HeadNotCorrect(m, at, p, opt, fl, s, k);
        } else {
          PlainNotCorrect(m, at, p, opt, fl, s, k);
        }
      case TAnd(body) =>
        if 0 <= FixedLen(body) <= MAXBEHIND {
          FixedAndCorrect(m, at, p, opt, tt, fl, s, k);
        } else {
          PlainAndCorrect(m, at, p, opt, tt, fl, s, k);
        }
      case TBehind(_, _) => BehindCorrect(m, at, p, opt, fl, s, k);
    }
  }

  /** The compiler is correct: run on any subject from any position, the code of an accepted pattern halts, accepting
      at the end of the match if the pattern matches and rejecting if it does not. */
  lemma CompileCorrect(p: Tree, subj: Subject, s: nat)
    requires Accepted(p) && s <= |subj|
    ensures var r := Match(p, subj, s);
            Reaches(Machine(Compile(p), subj), Run(0, s, []), if r.Some? then Accept(r.value) else Reject)
  {
    hide Contains, Reaches, Gen, Does, Match, At;
    var b := Gen(p, false, NoTest, FullSet());
    var m := Machine(b + [IEnd], subj);
    AtStart(m);
    AtSplit(m, 0, b, [IEnd]);
    PassesNothing(subj, s);
    GenCorrect(m, 0, p, false, NoTest, FullSet(), s, []);
    CompileEnds(m, |b|, Match(p, subj, s), s);
  }

  lemma AtStart(m: Machine)
    ensures At(m, 0, m.code)
  {
  }

  lemma CompileEnds(m: Machine, end: nat, r: Option<nat>, s: nat)
    requires At(m, end, [IEnd]) && Does(m, 0, end, r, false, FullSet(), s, [])
    requires r.Some? ==> r.value <= |m.subj|
    ensures Reaches(m, Run(0, s, []), if r.Some? then Accept(r.value) else Reject)
  {
    hide Contains, Reaches, At;
    DoesExactly(m, 0, end, r, false, s, []);
    if r.Some? {
      Exec(m, end, IEnd, r.value, []);
      ReachesTrans(m, Run(0, s, []), Run(end, r.value, []), Accept(r.value));
    }
  }

  /** ...and no run ends otherwise. */
  lemma CompileExact(p: Tree, subj: Subject, s: nat, c: Config)
    requires Accepted(p) && s <= |subj| && !c.Run?
    requires Reaches(Machine(Compile(p), subj), Run(0, s, []), c)
    ensures c == if Match(p, subj, s).Some? then Accept(Match(p, subj, s).value) else Reject
  {
    hide Reaches, Compile, Match;
    CompileCorrect(p, subj, s);
    OneOutcome(Machine(Compile(p), subj), Run(0, s, []), c,
               if Match(p, subj, s).Some? then Accept(Match(p, subj, s).value) else Reject);
  }
}
