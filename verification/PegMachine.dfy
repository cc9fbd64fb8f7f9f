/** The matching machine of lpvm.c, for the instructions that the compiler emits for patterns without captures and
    grammars.  An instruction with its charset and offset is one element here, and offsets count elements. */
module PegMachine {
  import opened Basics
  import opened Charsets
  import opened Peg

  datatype Instr =
    | IAny
    | IChar(c: Byte)
    | ISet(cs: Charset)
    | ITestAny(off: int)
    | ITestChar(c: Byte, off: int)
    | ITestSet(cs: Charset, off: int)
    | ISpan(cs: Charset)
    | IBehind(n: nat)
    | IEnd
    | IChoice(off: int)
    | IJmp(off: int)
    | ICommit(off: int)
    | IPartialCommit(off: int)
    | IBackCommit(off: int)
    | IFailTwice
    | IFail

  /** struct Stack: where to resume, and at which subject position. */
  datatype Frame = Frame(pc: int, s: nat)

  /** Running with the top of the backtrack stack first, or ended.  An empty stack stands for the IGiveup entry. */
  datatype Config = Run(pc: int, s: nat, k: seq<Frame>) | Accept(s: nat) | Reject | Stuck

  datatype Machine = Machine(code: seq<Instr>, subj: Subject)

  /** The `fail` label: resume at the top choice. */
  function Fail(k: seq<Frame>): Config {
    if k == [] then Reject else Run(k[0].pc, k[0].s, k[1..])
  }

  /** ISpan: past all characters of the set. */
  function Span(cs: Charset, subj: Subject, s: nat): (e: nat)
    requires s <= |subj|
    ensures s <= e <= |subj|
    decreases |subj| - s
  {
    if One(subj, s, cs) then Span(cs, subj, s + 1) else s
  }

  /** One round of the interpreter loop. */
  function Step(m: Machine, c: Config): Config {
    if !c.Run? then c
    else if !(0 <= c.pc < |m.code| && c.s <= |m.subj|) then Stuck
    else
      var Run(pc, s, k) := c;
      match m.code[pc]
      case IEnd => Accept(s)
      case IAny => if s < |m.subj| then Run(pc + 1, s + 1, k) else Fail(k)
      case IChar(ch) => if s < |m.subj| && m.subj[s] == ch then Run(pc + 1, s + 1, k) else Fail(k)
      case ISet(cs) => if One(m.subj, s, cs) then Run(pc + 1, s + 1, k) else Fail(k)
      case ITestAny(off) => if s < |m.subj| then Run(pc + 1, s, k) else Run(pc + off, s, k)
      case ITestChar(ch, off) => if s < |m.subj| && m.subj[s] == ch then Run(pc + 1, s, k) else Run(pc + off, s, k)
      case ITestSet(cs, off) => if One(m.subj, s, cs) then Run(pc + 1, s, k) else Run(pc + off, s, k)
      case ISpan(cs) => Run(pc + 1, Span(cs, m.subj, s), k)
      case IBehind(n) => if n > s then Fail(k) else Run(pc + 1, s - n, k)
      case IJmp(off) => Run(pc + off, s, k)
      case IChoice(off) => Run(pc + 1, s, [Frame(pc + off, s)] + k)
      case ICommit(off) => if k == [] then Stuck else Run(pc + off, s, k[1..])
      case IPartialCommit(off) => if k == [] then Stuck else Run(pc + off, s, [Frame(k[0].pc, s)] + k[1..])
      case IBackCommit(off) => if k == [] then Stuck else Run(pc + off, k[0].s, k[1..])
      case IFailTwice => if k == [] then Stuck else Fail(k[1..])
      case IFail => Fail(k)
  }

  function Steps(m: Machine, c: Config, n: nat): Config
    decreases n
  {
    if n == 0 then c else Steps(m, Step(m, c), n - 1)
  }

  ghost predicate Reaches(m: Machine, a: Config, b: Config) {
    exists n: nat :: Steps(m, a, n) == b
  }

  lemma ReachesSelf(m: Machine, a: Config)
    ensures Reaches(m, a, a)
  {
    assert Steps(m, a, 0) == a;
  }

  lemma ReachesStep(m: Machine, a: Config)
    ensures Reaches(m, a, Step(m, a))
  {
    assert Steps(m, a, 1) == Steps(m, Step(m, a), 0);
  }

  lemma {:induction false} StepsAdd(m: Machine, a: Config, i: nat, j: nat)
    ensures Steps(m, a, i + j) == Steps(m, Steps(m, a, i), j)
    decreases i
  {
    if i > 0 {
      StepsAdd(m, Step(m, a), i - 1, j);
    }
  }

  lemma ReachesTrans(m: Machine, a: Config, b: Config, c: Config)
    requires Reaches(m, a, b) && Reaches(m, b, c)
    ensures Reaches(m, a, c)
  {
    var i: nat :| Steps(m, a, i) == b;
    var j: nat :| Steps(m, b, j) == c;
    StepsAdd(m, a, i, j);
  }

  /** A run has one outcome. */
  lemma {:induction false} EndStays(m: Machine, a: Config, n: nat)
    requires !a.Run?
    ensures Steps(m, a, n) == a
  {
    if n > 0 {
      EndStays(m, a, n - 1);
    }
  }

  lemma OneOutcome(m: Machine, a: Config, b: Config, c: Config)
    requires Reaches(m, a, b) && Reaches(m, a, c) && !b.Run? && !c.Run?
    ensures b == c
  {
    var i: nat :| Steps(m, a, i) == b;
    var j: nat :| Steps(m, a, j) == c;
    if i <= j {
      StepsAdd(m, a, i, j - i);
      EndStays(m, b, j - i);
    } else {
      StepsAdd(m, a, j, i - j);
      EndStays(m, c, i - j);
    }
  }

  /** The block of instructions b lies at position `at` of the code. */
  ghost predicate At(m: Machine, at: nat, b: seq<Instr>) {
    at + |b| <= |m.code| && m.code[at..at + |b|] == b
  }

  lemma AtSplit(m: Machine, at: nat, a: seq<Instr>, b: seq<Instr>)
    requires At(m, at, a + b)
    ensures At(m, at, a) && At(m, at + |a|, b)
  {
    var ab := a + b;
    assert ab[..|a|] == a && ab[|a|..] == b;
    assert m.code[at..at + |ab|][..|a|] == m.code[at..at + |a|];
    assert m.code[at..at + |ab|][|a|..] == m.code[at + |a|..at + |ab|];
  }

  /** Executing the single instruction at `at`. */
  lemma Exec(m: Machine, at: nat, i: Instr, s: nat, k: seq<Frame>)
    requires At(m, at, [i])
    ensures at < |m.code| && m.code[at] == i
    ensures Reaches(m, Run(at, s, k), Step(m, Run(at, s, k)))
  {
    assert m.code[at..at + 1][0] == m.code[at];
    ReachesStep(m, Run(at, s, k));
  }
}
