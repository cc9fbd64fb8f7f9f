/** Nothing gets stuck: in every state of every run a thread that is left alone finishes what it is doing, and a worker
    that is left alone empties the global list, however the service callbacks and the loop bounds turn out. */
module SchedulerProgress {
  import opened Scheduler
  import opened SchedulerTurns
  import opened SchedulerLaunch

  // ------------------------------------------------------------------------------------------------
  // The head of the list
  // ------------------------------------------------------------------------------------------------

  /** From every state of every run in which a registered service with messages heads the list, an idle worker alone
      dispatches its first message... */
  lemma HeadDispatched(states: seq<State>, steps: seq<Step>, t: Tid, c: Id)
      returns (states': seq<State>, more: seq<Step>)
    requires IsRun(states, steps) && Rests(TaskOf(states[|steps|], t))
    requires states[|steps|].global != [] && states[|steps|].global[0] == c && c in states[|steps|].services
    requires states[|steps|].services[c].registered && states[|steps|].services[c].msgs != []
    ensures IsRun(states', steps + more) && states <= states' && By(more, t)
    ensures var sv, s' := states[|steps|].services[c], states'[|steps + more|];
            && c in s'.services && s'.services[c].dispatched == sv.dispatched + [sv.msgs[0]]
            && s'.services[c].msgs == sv.msgs[1..] && s'.global == states[|steps|].global[1..]
            && forall d :: d in states[|steps|].services && d != c ==>
                             d in s'.services && s'.services[d] == states[|steps|].services[d]
  {
    var s := states[|steps|];
    hide IsRun, Path;
    DispatchTurn(s, t, c);
    var sv := s.services[c];
    var sv' := sv.(ref := sv.ref + 1, msgs := sv.msgs[1..], dispatched := sv.dispatched + [sv.msgs[0]]);
    more := [] + [Pop(t)] + [Find(t)] + [MqPop(t)] + [Dispatch(t, false)];
    states' := Continue(states, steps, more, At(s, c, sv', s.global[1..], t, Finished(c)));
  }

  /** ...and from every state of every run in which the queue of a deleted context heads it, an idle worker alone drops
      its messages and frees it. */
  lemma HeadDropped(states: seq<State>, steps: seq<Step>, t: Tid, c: Id)
      returns (states': seq<State>, more: seq<Step>)
    requires IsRun(states, steps) && Rests(TaskOf(states[|steps|], t))
    requires states[|steps|].global != [] && states[|steps|].global[0] == c && c in states[|steps|].services
    requires !states[|steps|].services[c].registered && states[|steps|].services[c].release
    ensures IsRun(states', steps + more) && states <= states' && By(more, t)
    ensures var sv, s' := states[|steps|].services[c], states'[|steps + more|];
            && c in s'.services && s'.services[c].dropped == sv.dropped + sv.msgs && s'.services[c].msgs == []
            && s'.services[c].freed && s'.global == states[|steps|].global[1..]
            && forall d :: d in states[|steps|].services && d != c ==>
                             d in s'.services && s'.services[d] == states[|steps|].services[d]
  {
    var s := states[|steps|];
    hide IsRun, Path;
    more := DropTurn(s, t, c);
    var sv := s.services[c];
    var sv' := sv.(msgs := [], dropped := sv.dropped + sv.msgs, inGlobal := false, freed := true);
    states' := Continue(states, steps, more, At(s, c, sv', s.global[1..], t, Popping));
  }

  // ------------------------------------------------------------------------------------------------
  // How much is left to do
  // ------------------------------------------------------------------------------------------------

  /** The messages waiting in all queues. */
  ghost function Total(services: map<Id, Service>): nat {
    if services == map[] then 0 else
      var c :| c in services;
      |services[c].msgs| + Total(services - {c})
  }

  lemma {:induction false} TotalWithout(m: map<Id, Service>, c: Id)
    requires c in m
    ensures Total(m) == |m[c].msgs| + Total(m - {c})
    decreases |m|
  {
    var d :| d in m && Total(m) == |m[d].msgs| + Total(m - {d});
    if d != c {
      TotalWithout(m - {d}, c);
      TotalWithout(m - {c}, d);
      assert m - {d} - {c} == m - {c} - {d};
    }
  }

  lemma TotalPut(m: map<Id, Service>, c: Id, sv: Service)
    requires c in m
    ensures Total(m[c := sv]) + |m[c].msgs| == Total(m) + |sv.msgs|
  {
    TotalWithout(m, c);
    TotalWithout(m[c := sv], c);
    assert m[c := sv] - {c} == m - {c};
  }

  // ------------------------------------------------------------------------------------------------
  // What a thread does next
  // ------------------------------------------------------------------------------------------------

  /** The step that a thread takes when it goes on from k; `yes` decides whether init succeeds and whether the dispatch
      loop goes on. */
  function Next(t: Tid, k: Task, yes: bool): Step {
    match k
    case Idle => Pop(t)
    case Popping => Pop(t)
    case Holding(_) => Find(t)
    case Discarding(_, _) => MqRelease(t)
    case Dropping(_, _) => Drop(t)
    case Ready(_) => MqPop(t)
    case Dispatching(_, _) => Dispatch(t, yes)
    case Finished(_) => PopOther(t)
    case Swapping(_, _) => PushBack(t)
    case Sending(_, _) => Push(t)
    case Creating(_) => if yes then InitOk(t) else InitFail(t)
    case Releasing(_, _) => Release(t)
    case Deleting(_, _) => Delete(t)
    case Marking(_) => Mark(t)
    case Launching(_, _) => PushLaunched(t)
    case Reporting(_) => Report(t)
    case Returned(_) => ReadHandle(t)
    case Unregistering(_) => RetireOwn(t)
  }

  /** In a state of a run no thread is blocked. */
  lemma NeverBlocked(s: State, t: Tid, yes: bool)
    requires Inv(s)
    ensures Enabled(s, Next(t, TaskOf(s, t), yes)) && Next(t, TaskOf(s, t), yes).t == t
  {
    var k := TaskOf(s, t);
    KnownNow(s, t);
    assert s.global != [] ==> s.global[0] in s.global;
    match k {
      case Holding(q) => assert Owns(k, q);
      case Discarding(q, _) => assert Owns(k, q);
      case Dropping(q, _) => assert Owns(k, q);
      case Ready(q) => assert Owns(k, q);
      case Dispatching(q, _) => assert Owns(k, q);
      case Finished(q) => assert Owns(k, q);
      case Swapping(q, _) => assert Owns(k, q);
      case Sending(c, _) => assert Refers(k, c);
      case Creating(q) => assert Owns(k, q);
      case Releasing(c, _) => assert Refers(k, c);
      case Deleting(c, _) => assert Deletes(k, c);
      case Marking(q) => assert Owns(k, q);
      case Launching(q, _) => assert Owns(k, q);
      case Reporting(q) => assert Touches(k, q);
      case Returned(q) => assert Touches(k, q);
      case Unregistering(q) => assert Owns(k, q);
      case _ =>
    }
  }

  function RankThen(th: Then, pop: nat): nat {
    match th
    case Finish => pop
    case PopNext => pop + 1
    case Hold(_) => 5
    case Launch(_) => 4
    case Unregister(_) => 7
    case Discard(_) => 4
  }

  /** How far a thread is from rest, apart from the messages; `pop` for one that may still pop the list. */
  function Rank(k: Task, pop: nat): nat {
    match k
    case Idle => pop
    case Popping => pop + 1
    case Holding(_) => 5
    case Discarding(_, _) => 4
    case Dropping(_, _) => 3
    case Ready(_) => 4
    case Dispatching(_, _) => 11
    case Finished(_) => 9
    case Swapping(_, _) => 8
    case Sending(_, _) => 30
    case Creating(_) => 10
    case Releasing(_, th) => RankThen(th, pop) + 2
    case Deleting(_, th) => RankThen(th, pop) + 1
    case Marking(_) => 4
    case Launching(_, _) => 3
    case Reporting(_) => 2
    case Returned(_) => 1
    case Unregistering(_) => 7
  }

  ghost function Left(s: State, t: Tid): nat {
    20 * Total(s.services) + Rank(TaskOf(s, t), 0)
  }

  /** The service that the next step of a thread changes. */
  function Subject(k: Task): Id {
    match k
    case Idle => 0
    case Popping => 0
    case Sending(c, _) => c
    case Releasing(c, _) => c
    case Deleting(c, _) => c
    case _ => k.q
  }

  /** A step changes one service, and leaves its thread with less to do. */
  ghost predicate Less(s: State, t: Tid, yes: bool)
    requires Enabled(s, Next(t, TaskOf(s, t), yes))
  {
    var k := TaskOf(s, t);
    var s', c := Apply(s, Next(t, k, yes)), Subject(k);
    && c in s.services && c in s'.services && s'.services == s.services[c := s'.services[c]]
    && 20 * |s'.services[c].msgs| + Rank(TaskOf(s', t), 0) < 20 * |s.services[c].msgs| + Rank(k, 0)
  }

  predicate Serving(k: Task) {
    k.Ready? || k.Dispatching? || k.Finished? || k.Swapping?
  }

  lemma LessServing(s: State, t: Tid, yes: bool)
    requires Enabled(s, Next(t, TaskOf(s, t), yes)) && Serving(TaskOf(s, t))
    ensures Less(s, t, yes)
  {
    var k := TaskOf(s, t);
    assert s.services[k.q := s.services[k.q]] == s.services;
  }

  lemma LessDropping(s: State, t: Tid, yes: bool)
    requires Enabled(s, Next(t, TaskOf(s, t), yes))
    requires TaskOf(s, t).Holding? || TaskOf(s, t).Discarding? || TaskOf(s, t).Dropping?
    ensures Less(s, t, yes)
  {
  }

  lemma LessReleasing(s: State, t: Tid, yes: bool)
    requires Enabled(s, Next(t, TaskOf(s, t), yes)) && (TaskOf(s, t).Releasing? || TaskOf(s, t).Deleting?)
    ensures Less(s, t, yes)
  {
  }

  lemma LessSending(s: State, t: Tid, yes: bool)
    requires Enabled(s, Next(t, TaskOf(s, t), yes)) && (TaskOf(s, t).Sending? || TaskOf(s, t).Unregistering?)
    ensures Less(s, t, yes)
  {
  }

  lemma LessLaunching(s: State, t: Tid, yes: bool)
    requires Enabled(s, Next(t, TaskOf(s, t), yes)) && (TaskOf(s, t).Creating? || TaskOf(s, t).Marking?)
    ensures Less(s, t, yes)
  {
  }

  lemma LessLaunched(s: State, t: Tid, yes: bool)
    requires Enabled(s, Next(t, TaskOf(s, t), yes))
    requires TaskOf(s, t).Launching? || TaskOf(s, t).Reporting? || TaskOf(s, t).Returned?
    ensures Less(s, t, yes)
  {
  }

  lemma Closer(s: State, t: Tid, yes: bool)
    requires Enabled(s, Next(t, TaskOf(s, t), yes)) && !Rests(TaskOf(s, t))
    ensures Left(Apply(s, Next(t, TaskOf(s, t), yes)), t) < Left(s, t)
  {
    hide Enabled, Apply, Rank, Subject, Next;
    var k := TaskOf(s, t);
    if Serving(k) {
      LessServing(s, t, yes);
    } else if k.Holding? || k.Discarding? || k.Dropping? {
      LessDropping(s, t, yes);
    } else if k.Releasing? || k.Deleting? {
      LessReleasing(s, t, yes);
    } else if k.Sending? || k.Unregistering? {
      LessSending(s, t, yes);
    } else if k.Creating? || k.Marking? {
      LessLaunching(s, t, yes);
    } else {
      LessLaunched(s, t, yes);
    }
    var s', c := Apply(s, Next(t, k, yes)), Subject(k);
    TotalPut(s.services, c, s'.services[c]);
  }

  // ------------------------------------------------------------------------------------------------
  // Every thread comes to rest
  // ------------------------------------------------------------------------------------------------

  predicate Answers(st: Step, yes: bool) {
    (st.Dispatch? ==> st.again == yes) && (st.InitOk? ==> yes) && (st.InitFail? ==> !yes)
  }

  /** What services and dispatch loops decide in these steps is what `pick` says, from the given position on. */
  ghost predicate Obeys(steps: seq<Step>, pick: nat -> bool, from: nat) {
    forall i :: 0 <= i < |steps| ==> Answers(steps[i], pick(from + i))
  }

  lemma ObeysThen(a: seq<Step>, b: seq<Step>, pick: nat -> bool, from: nat)
    requires Obeys(a, pick, from) && Obeys(b, pick, from + |a|)
    ensures Obeys(a + b, pick, from)
  {
    hide Answers;
    forall i | 0 <= i < |a + b|
      ensures Answers((a + b)[i], pick(from + i))
    {
      if i >= |a| {
        assert (a + b)[i] == b[i - |a|];
        assert Answers(b[i - |a|], pick(from + |a| + (i - |a|)));
      }
    }
  }

  lemma ObeysFirst(st: Step, more: seq<Step>, pick: nat -> bool, from: nat)
    requires Answers(st, pick(from)) && Obeys(more, pick, from + 1)
    ensures Obeys([st] + more, pick, from)
  {
    hide Answers;
    ObeysThen([st], more, pick, from);
  }

  predicate Grown(sv: Service, sv': Service) {
    sv.pushed <= sv'.pushed && sv.dispatched <= sv'.dispatched && sv.dropped <= sv'.dropped
  }

  /** Nothing that has happened to a message is undone. */
  ghost predicate Grows(s: State, s': State) {
    forall c :: c in s.services ==> c in s'.services && Grown(s.services[c], s'.services[c])
  }

  lemma GrownAt(s: State, st: Step, c: Id)
    requires Enabled(s, st) && c in s.services
    ensures c in Apply(s, st).services && Grown(s.services[c], Apply(s, st).services[c])
  {
    hide After, AfterDelete, AfterQueue;
  }

  lemma StepGrows(s: State, st: Step)
    requires Enabled(s, st)
    ensures Grows(s, Apply(s, st))
  {
    hide Enabled, Apply, Grown;
    forall c | c in s.services
      ensures c in Apply(s, st).services && Grown(s.services[c], Apply(s, st).services[c])
    {
      GrownAt(s, st, c);
    }
  }

  lemma GrowsOn(a: State, b: State, c: State)
    requires Grows(a, b) && Grows(b, c)
    ensures Grows(a, c)
  {
  }

  /** Only thread t has moved. */
  ghost predicate Only(s: State, t: Tid, s': State) {
    s'.tasks.Keys <= s.tasks.Keys + {t} && forall u :: u != t ==> TaskOf(s', u) == TaskOf(s, u)
  }

  lemma NextOnly(s: State, t: Tid, yes: bool)
    requires Enabled(s, Next(t, TaskOf(s, t), yes))
    ensures Only(s, t, Apply(s, Next(t, TaskOf(s, t), yes)))
    ensures Answers(Next(t, TaskOf(s, t), yes), yes) && Next(t, TaskOf(s, t), yes).t == t
  {
    OneThread(s, Next(t, TaskOf(s, t), yes));
    hide Enabled, Apply;
  }

  /** In every state of a run, a thread left alone comes to rest, whatever services and dispatch loops decide. */
  lemma {:induction false} Settle(s: State, t: Tid, pick: nat -> bool, from: nat) returns (steps: seq<Step>, s': State)
    requires Inv(s)
    ensures Alone(s, t, steps, s') && Obeys(steps, pick, from)
    ensures Inv(s') && Rests(TaskOf(s', t)) && Only(s, t, s') && Grows(s, s')
    decreases Left(s, t)
  {
    hide Inv, Enabled, Apply, Left, Answers;
    if Rests(TaskOf(s, t)) {
      steps, s' := [], s;
    } else {
      var yes := pick(from);
      var st := Next(t, TaskOf(s, t), yes);
      NeverBlocked(s, t, yes);
      NextOnly(s, t, yes);
      Closer(s, t, yes);
      StepKeeps(s, st);
      StepGrows(s, st);
      var m := Apply(s, st);
      var more;
      hide Next;
      more, s' := Settle(m, t, pick, from + 1);
      steps := [st] + more;
      First(s, t, st, more, s');
      ObeysFirst(st, more, pick, from);
      GrowsOn(s, m, s');
    }
  }

  ghost function Busy(s: State): set<Tid> { set t | t in s.tasks && !Rests(s.tasks[t]) }

  lemma BusyLess(s: State, t: Tid, s': State)
    requires Only(s, t, s') && t in Busy(s) && Rests(TaskOf(s', t))
    ensures Busy(s') == Busy(s) - {t}
  {
    forall u
      ensures u in Busy(s') <==> u in Busy(s) - {t}
    {
      assert u != t ==> TaskOf(s', u) == TaskOf(s, u);
    }
  }

  lemma Stay(s: State, pick: nat -> bool, from: nat)
    ensures Path(s, [], s) && Obeys([], pick, from) && Grows(s, s)
  {
  }

  lemma SettleOne(s: State, t: Tid, pick: nat -> bool, from: nat) returns (steps: seq<Step>, s': State)
    requires Inv(s) && t in Busy(s)
    ensures Path(s, steps, s') && Obeys(steps, pick, from) && Inv(s') && Grows(s, s') && |Busy(s')| < |Busy(s)|
  {
    hide Inv, Only, Path, Obeys, Grows, Busy;
    steps, s' := Settle(s, t, pick, from);
    BusyLess(s, t, s');
  }

  lemma {:induction false} SettleAll(s: State, pick: nat -> bool, from: nat) returns (steps: seq<Step>, s': State)
    requires Inv(s)
    ensures Path(s, steps, s') && Obeys(steps, pick, from) && Inv(s') && Busy(s') == {} && Grows(s, s')
    decreases |Busy(s)|
  {
    hide Inv, Path, Obeys, Grows, Busy;
    if Busy(s) == {} {
      steps, s' := [], s;
      Stay(s, pick, from);
    } else {
      var t :| t in Busy(s);
      var a, m := SettleOne(s, t, pick, from);
      var b;
      b, s' := SettleAll(m, pick, from + |a|);
      steps := a + b;
      PathThen(s, a, m, b, s');
      ObeysThen(a, b, pick, from);
      GrowsOn(s, m, s');
    }
  }

  // ------------------------------------------------------------------------------------------------
  // A worker empties the list
  // ------------------------------------------------------------------------------------------------

  /** The thread is taking queues from the list; it discards only those of deleted contexts. */
  predicate Turning(s: State, k: Task) {
    match k
    case Idle => true
    case Popping => true
    case Holding(_) => true
    case Discarding(q, worker) => worker && q in s.services && !s.services[q].registered
    case Dropping(_, worker) => worker
    case Ready(_) => true
    case Dispatching(_, _) => true
    case Finished(_) => true
    case Swapping(_, _) => true
    case Releasing(_, th) => th.PopNext? || th.Hold?
    case _ => false
  }

  /** A service is registered, or its context has been deleted. */
  ghost predicate Clear(s: State) {
    forall c :: c in s.services ==> s.services[c].registered || s.services[c].release
  }

  /** All threads but t rest. */
  ghost predicate Calm(s: State, t: Tid) {
    Inv(s) && Clear(s) && Turning(s, TaskOf(s, t)) && Busy(s) <= {t}
  }

  lemma RestIsCalm(s: State, t: Tid)
    requires Inv(s) && Busy(s) == {}
    ensures Calm(s, t)
  {
    assert t in s.tasks && !Rests(s.tasks[t]) ==> t in Busy(s);
    forall c | c in s.services
      ensures s.services[c].registered || s.services[c].release
    {
      RestView(s, c);
    }
  }

  /** When all threads rest, the flags of a service follow from its registration. */
  lemma RestView(s: State, c: Id)
    requires Inv(s) && Busy(s) == {} && c in s.services
    ensures var sv := s.services[c];
            && sv.release == !sv.registered && sv.ref == (if sv.registered then 1 else 0)
            && sv.pushed == sv.dispatched + sv.dropped + sv.msgs && (sv.registered ==> sv.dropped == [] && !sv.freed)
            && (c !in s.global ==> sv.msgs == [] && (sv.registered ==> !sv.inGlobal) && (!sv.registered ==> sv.freed))
  {
    var v := ViewOf(s, c);
    assert Good(v);
    forall t | t in s.tasks
      ensures Rests(s.tasks[t])
    {
      assert !Rests(s.tasks[t]) ==> t in Busy(s);
    }
    assert v.owners == {} && v.refs == {} && v.dels == {} && v.hands == map[];
    assert c !in s.global ==> Listed(s.global, c) == 0;
  }

  /** A context to which the worker has a reference is registered, and does not go with that reference. */
  lemma Referred(s: State, t: Tid, c: Id)
    requires Inv(s) && Clear(s) && Refers(TaskOf(s, t), c)
    ensures c in s.services && s.services[c].registered && s.services[c].ref > 1
  {
    KnownNow(s, t);
    RoleOf(s, t, c);
    var v := ViewOf(s, c);
    assert Good(v);
    Size(v.refs, t);
  }

  function Held(k: Task): nat {
    match k
    case Idle => 0
    case Popping => 0
    case Swapping(_, _) => 2
    case Releasing(_, th) => if th.Hold? then 1 else 0
    case _ => 1
  }

  /** What the worker has left to do: messages, queues, and its own way through the dispatch. */
  ghost function Work(s: State, t: Tid): nat {
    20 * (Total(s.services) + |s.global| + Held(TaskOf(s, t))) + Rank(TaskOf(s, t), 6)
  }

  predicate KeptOne(sv: Service, sv': Service) {
    && sv'.registered == sv.registered && sv'.release == sv.release && sv'.init == sv.init && sv'.pushed == sv.pushed
    && (if sv.registered then sv'.dropped == sv.dropped else sv'.dispatched == sv.dispatched)
  }

  ghost predicate Kept(s: State, s': State) {
    s'.services.Keys == s.services.Keys && forall c :: c in s.services ==> KeptOne(s.services[c], s'.services[c])
  }

  /** One step of the worker on the service in question. */
  ghost predicate Turns(s: State, t: Tid, yes: bool)
    requires Enabled(s, Next(t, TaskOf(s, t), yes))
  {
    var k := TaskOf(s, t);
    var s', c := Apply(s, Next(t, k, yes)), Subject(k);
    var k' := TaskOf(s', t);
    && c in s.services && c in s'.services && s'.services == s.services[c := s'.services[c]]
    && KeptOne(s.services[c], s'.services[c]) && Turning(s', k') && k' != Idle
    && 20 * (|s'.services[c].msgs| + |s'.global| + Held(k')) + Rank(k', 6)
       < 20 * (|s.services[c].msgs| + |s.global| + Held(k)) + Rank(k, 6)
  }

  lemma TurnsServing(s: State, t: Tid, yes: bool)
    requires Enabled(s, Next(t, TaskOf(s, t), yes)) && (TaskOf(s, t).Ready? || TaskOf(s, t).Dispatching?)
    requires TaskOf(s, t).Dispatching? ==> s.services[TaskOf(s, t).q].registered
    ensures Turns(s, t, yes)
  {
  }

  lemma TurnsSwapping(s: State, t: Tid, yes: bool)
    requires Enabled(s, Next(t, TaskOf(s, t), yes)) && (TaskOf(s, t).Finished? || TaskOf(s, t).Swapping?)
    ensures Turns(s, t, yes)
  {
    var k := TaskOf(s, t);
    assert s.services[k.q := s.services[k.q]] == s.services;
  }

  lemma TurnsDropping(s: State, t: Tid, yes: bool)
    requires Enabled(s, Next(t, TaskOf(s, t), yes)) && Turning(s, TaskOf(s, t))
    requires TaskOf(s, t).Holding? || TaskOf(s, t).Discarding? || TaskOf(s, t).Dropping?
    requires s.services[TaskOf(s, t).q].registered || s.services[TaskOf(s, t).q].release
    requires TaskOf(s, t).Dropping? ==> !s.services[TaskOf(s, t).q].registered
    ensures Turns(s, t, yes)
  {
  }

  lemma TurnsReleasing(s: State, t: Tid, yes: bool)
    requires Enabled(s, Next(t, TaskOf(s, t), yes)) && Turning(s, TaskOf(s, t)) && TaskOf(s, t).Releasing?
    requires s.services[TaskOf(s, t).c].ref > 1
    ensures Turns(s, t, yes)
  {
  }

  lemma DroppingGone(s: State, t: Tid, c: Id)
    requires Inv(s) && TaskOf(s, t).Dropping? && TaskOf(s, t).q == c
    ensures c in s.services && !s.services[c].registered
  {
    KnownNow(s, t);
    RoleOf(s, t, c);
    assert Good(ViewOf(s, c));
  }

  lemma PopsNext(s: State, t: Tid, yes: bool)
    requires Enabled(s, Next(t, TaskOf(s, t), yes)) && Rests(TaskOf(s, t)) && (s.global == [] ==> TaskOf(s, t).Popping?)
    ensures var s' := Apply(s, Next(t, TaskOf(s, t), yes));
            && s'.services == s.services && Turning(s', TaskOf(s', t))
            && Work(s', t) < Work(s, t) && (s.global == [] ==> TaskOf(s', t) == Idle && s'.global == [])
            && (s.global != [] ==> TaskOf(s', t) == Holding(s.global[0]) && s'.global == s.global[1..])
  {
  }

  lemma TurnStep(s: State, t: Tid, yes: bool)
    requires Calm(s, t) && !Rests(TaskOf(s, t)) && Enabled(s, Next(t, TaskOf(s, t), yes))
    ensures Turns(s, t, yes)
  {
    var k := TaskOf(s, t);
    hide Apply;
    if k.Ready? || k.Dispatching? {
      if k.Dispatching? {
        Referred(s, t, k.q);
      }
      hide Inv, Clear;
      TurnsServing(s, t, yes);
    } else if k.Finished? || k.Swapping? {
      hide Inv, Clear;
      TurnsSwapping(s, t, yes);
    } else if k.Releasing? {
      Referred(s, t, k.c);
      hide Inv, Clear;
      TurnsReleasing(s, t, yes);
    } else {
      assert k.Holding? || k.Discarding? || k.Dropping?;
      if k.Dropping? {
        DroppingGone(s, t, k.q);
      }
      hide Inv;
      TurnsDropping(s, t, yes);
    }
  }

  lemma TurnKeeps(s: State, t: Tid, yes: bool)
    requires Clear(s) && Enabled(s, Next(t, TaskOf(s, t), yes)) && Turns(s, t, yes)
    ensures var s' := Apply(s, Next(t, TaskOf(s, t), yes));
            Clear(s') && Turning(s', TaskOf(s', t)) && Kept(s, s') && Work(s', t) < Work(s, t) && TaskOf(s', t) != Idle
  {
    hide Enabled, Apply, Next, Subject, Turning, Rank, Held;
    var k := TaskOf(s, t);
    var s', c := Apply(s, Next(t, k, yes)), Subject(k);
    TotalPut(s.services, c, s'.services[c]);
  }

  /** Serving the list keeps all that makes it calm. */
  lemma CalmStep(s: State, t: Tid, yes: bool)
    requires Calm(s, t) && Enabled(s, Next(t, TaskOf(s, t), yes)) && !Rests(TaskOf(s, t))
    ensures var s' := Apply(s, Next(t, TaskOf(s, t), yes));
            Calm(s', t) && Kept(s, s') && Work(s', t) < Work(s, t) && TaskOf(s', t) != Idle
  {
    hide Inv, Enabled, Apply, Next, Turning, Only, Kept, Work, Turns, Clear;
    TurnStep(s, t, yes);
    TurnKeeps(s, t, yes);
    StepKeeps(s, Next(t, TaskOf(s, t), yes));
    NextOnly(s, t, yes);
    StillCalm(s, t, Apply(s, Next(t, TaskOf(s, t), yes)));
  }

  lemma StillCalm(s: State, t: Tid, s': State)
    requires Busy(s) <= {t} && Only(s, t, s')
    ensures Busy(s') <= {t}
  {
    forall u | u in Busy(s')
      ensures u == t
    {
      assert u != t ==> TaskOf(s', u) == TaskOf(s, u) && u in Busy(s);
    }
  }

  lemma KeptOn(a: State, b: State, c: State)
    requires Kept(a, b) && Kept(b, c)
    ensures Kept(a, c)
  {
  }

  lemma CalmPop(s: State, t: Tid, yes: bool)
    requires Calm(s, t) && Enabled(s, Next(t, TaskOf(s, t), yes)) && Rests(TaskOf(s, t))
    requires s.global == [] ==> TaskOf(s, t).Popping?
    ensures var s' := Apply(s, Next(t, TaskOf(s, t), yes)); Calm(s', t) && Kept(s, s') && Work(s', t) < Work(s, t)
  {
    var k := TaskOf(s, t);
    var s' := Apply(s, Next(t, k, yes));
    PopsNext(s, t, yes);
    StepKeeps(s, Next(t, k, yes));
    NextOnly(s, t, yes);
    StillCalm(s, t, s');
    hide Inv, Enabled, Apply, Next, Turning, Only, Work;
  }

  lemma EmptyStep(s: State, t: Tid, yes: bool) returns (st: Step, s': State)
    requires Calm(s, t) && !(TaskOf(s, t) == Idle && s.global == [])
    ensures st.t == t && Answers(st, yes) && Enabled(s, st) && s' == Apply(s, st)
    ensures Calm(s', t) && Only(s, t, s') && Kept(s, s') && Work(s', t) < Work(s, t)
  {
    st := Next(t, TaskOf(s, t), yes);
    NeverBlocked(s, t, yes);
    hide Inv, Enabled, Apply, Work, Answers, Clear, Turning, Kept, Only, Next, Busy;
    NextOnly(s, t, yes);
    s' := Apply(s, st);
    if Rests(TaskOf(s, t)) {
      CalmPop(s, t, yes);
    } else {
      CalmStep(s, t, yes);
    }
  }

  lemma StayAlone(s: State, t: Tid, pick: nat -> bool, from: nat)
    ensures Alone(s, t, [], s) && Obeys([], pick, from) && Only(s, t, s) && Kept(s, s)
  {
  }

  lemma OnlyOn(a: State, t: Tid, b: State, c: State)
    requires Only(a, t, b) && Only(b, t, c)
    ensures Only(a, t, c)
  {
  }

  lemma {:induction false} Empty(s: State, t: Tid, pick: nat -> bool, from: nat) returns (steps: seq<Step>, s': State)
    requires Calm(s, t)
    ensures Alone(s, t, steps, s') && Obeys(steps, pick, from)
    ensures Calm(s', t) && TaskOf(s', t) == Idle && s'.global == [] && Only(s, t, s') && Kept(s, s')
    decreases Work(s, t)
  {
    hide Enabled, Apply, Work, Answers, Kept, Calm, Only, Alone, Obeys;
    if TaskOf(s, t) == Idle && s.global == [] {
      steps, s' := [], s;
      StayAlone(s, t, pick, from);
    } else {
      var st, m := EmptyStep(s, t, pick(from));
      var more;
      more, s' := Empty(m, t, pick, from + 1);
      steps := [st] + more;
      First(s, t, st, more, s');
      ObeysFirst(st, more, pick, from);
      OnlyOn(s, t, m, s');
      KeptOn(s, m, s');
    }
  }

  /** What becomes of a service when its queue is served to the end. */
  predicate Served(sv: Service, sv': Service) {
    && sv'.registered == sv.registered && sv'.release == sv.release && sv'.init == sv.init && sv'.pushed == sv.pushed
    && sv'.ref == sv.ref && sv'.msgs == []
    && sv'.dispatched == (if sv.registered then sv.dispatched + sv.msgs else sv.dispatched)
    && sv'.dropped == (if sv.registered then sv.dropped else sv.dropped + sv.msgs)
    && sv'.freed == !sv.registered && (sv.registered ==> !sv'.inGlobal)
  }

  ghost predicate AllServed(s: State, s': State) {
    s'.services.Keys == s.services.Keys && forall c :: c in s.services ==> Served(s.services[c], s'.services[c])
  }

  lemma RestServed(s: State, s': State, t: Tid)
    requires Inv(s) && Busy(s) == {} && Calm(s', t) && TaskOf(s', t) == Idle && s'.global == [] && Kept(s, s')
    ensures Busy(s') == {} && AllServed(s, s')
  {
    hide Inv;
    assert t !in Busy(s');
    forall c | c in s.services
      ensures Served(s.services[c], s'.services[c])
    {
      RestView(s, c);
      RestView(s', c);
      assert KeptOne(s.services[c], s'.services[c]);
      Sums(s.services[c], s'.services[c]);
    }
  }

  lemma Sums(sv: Service, sv': Service)
    requires KeptOne(sv, sv') && sv'.msgs == [] && (sv.registered ==> sv.dropped == [])
    requires sv.pushed == sv.dispatched + sv.dropped + sv.msgs && sv'.pushed == sv'.dispatched + sv'.dropped + sv'.msgs
    ensures sv.registered ==> sv'.dispatched == sv.dispatched + sv.msgs
    ensures !sv.registered ==> sv'.dropped == sv.dropped + sv.msgs
  {
    if sv.registered {
      assert sv.dispatched + sv.msgs == sv.pushed == sv'.dispatched;
    } else {
      assert sv.pushed == sv.dispatched + (sv.dropped + sv.msgs) == sv.dispatched + sv'.dropped;
      assert sv.dropped + sv.msgs == sv.pushed[|sv.dispatched|..] == sv'.dropped;
    }
  }

  /** When all threads rest, a worker left alone dispatches every message of every registered service, drops those of
      the deleted ones and frees their queues, all in order; it changes nothing else. */
  lemma WorkerEmpties(states: seq<State>, steps: seq<Step>, t: Tid, pick: nat -> bool)
      returns (states': seq<State>, more: seq<Step>)
    requires IsRun(states, steps) && Busy(states[|steps|]) == {}
    ensures IsRun(states', steps + more) && states <= states' && By(more, t) && Obeys(more, pick, 0)
    ensures var s, s' := states[|steps|], states'[|steps + more|];
            s'.global == [] && TaskOf(s', t) == Idle && Busy(s') == {} && Only(s, t, s') && AllServed(s, s')
  {
    var s := states[|steps|];
    RunKeeps(states, steps, |steps|);
    RestIsCalm(s, t);
    hide IsRun, Path, Inv, Obeys, Only, Kept, AllServed;
    var s';
    more, s' := Empty(s, t, pick, 0);
    states' := Continue(states, steps, more, s');
    RestServed(s, s', t);
  }

  // ------------------------------------------------------------------------------------------------
  // Every run can be completed
  // ------------------------------------------------------------------------------------------------

  /** Threads that wait at the empty list go to sleep. */
  lemma {:induction false} SleepAll(s: State, pick: nat -> bool, from: nat, ts: set<Tid>)
      returns (steps: seq<Step>, s': State)
    requires s.global == [] && Busy(s) == {} && forall t :: t in s.tasks && s.tasks[t] != Idle ==> t in ts
    ensures Path(s, steps, s') && Obeys(steps, pick, from) && s'.global == [] && s'.services == s.services
    ensures forall t :: t in s'.tasks ==> s'.tasks[t] == Idle
    decreases |ts|
  {
    if ts == {} {
      steps, s' := [], s;
    } else {
      var t :| t in ts;
      Sleeps(s, t);
      var m := Apply(s, Pop(t));
      hide Enabled, Apply;
      var more;
      more, s' := SleepAll(m, pick, from + 1, ts - {t});
      hide Busy;
      steps := [Pop(t)] + more;
      assert steps[1..] == more;
      ObeysThen([Pop(t)], more, pick, from);
    }
  }

  lemma Sleeps(s: State, t: Tid)
    requires s.global == [] && Busy(s) == {}
    ensures Enabled(s, Pop(t)) && Apply(s, Pop(t)) == s.(tasks := s.tasks[t := Idle])
    ensures Busy(Apply(s, Pop(t))) == {}
  {
    assert t in s.tasks && !Rests(s.tasks[t]) ==> t in Busy(s);
    var m := s.(tasks := s.tasks[t := Idle]);
    assert Busy(m) <= Busy(s);
  }

  /** Nothing is left to do for a service. */
  predicate AtRest(sv: Service) {
    && sv.msgs == [] && (sv.registered ==> sv.dispatched == sv.pushed)
    && (!sv.registered ==> sv.freed && sv.pushed == sv.dispatched + sv.dropped)
  }

  lemma ServedRests(sv: Service, sv': Service)
    requires Served(sv, sv') && sv.pushed == sv.dispatched + sv.dropped + sv.msgs
    requires sv.registered ==> sv.dropped == []
    ensures Grown(sv, sv') && AtRest(sv')
  {
    assert sv.dispatched + sv.dropped + sv.msgs == sv.dispatched + (sv.dropped + sv.msgs);
  }

  lemma AllAtRest(s: State, s': State)
    requires Inv(s) && Busy(s) == {} && AllServed(s, s')
    ensures Grows(s, s') && forall c :: c in s'.services ==> AtRest(s'.services[c])
  {
    hide Inv, Busy, Served, Grown, AtRest;
    forall c | c in s'.services
      ensures Grown(s.services[c], s'.services[c]) && AtRest(s'.services[c])
    {
      RestView(s, c);
      ServedRests(s.services[c], s'.services[c]);
    }
  }

  lemma SameServices(a: State, b: State, c: State)
    requires Grows(a, b) && c.services == b.services
    ensures Grows(a, c)
  {
  }

  lemma CompleteFrom(s: State, w: Tid, pick: nat -> bool) returns (steps: seq<Step>, s': State)
    requires Inv(s)
    ensures Path(s, steps, s') && Obeys(steps, pick, 0)
    ensures s'.global == [] && (forall t :: t in s'.tasks ==> s'.tasks[t] == Idle) && Grows(s, s')
    ensures forall c :: c in s'.services ==> AtRest(s'.services[c])
  {
    hide Path, Inv, Obeys, Only, Kept, Grows, AtRest, Calm, AllServed;
    var a, s1 := SettleAll(s, pick, 0);
    RestIsCalm(s1, w);
    var b, s2 := Empty(s1, w, pick, |a|);
    RestServed(s1, s2, w);
    AllAtRest(s1, s2);
    GrowsOn(s, s1, s2);
    var d;
    d, s' := SleepAll(s2, pick, |a| + |b|, s2.tasks.Keys);
    SameServices(s, s2, s');
    PathThen(s, a, s1, b, s2);
    PathThen(s, a + b, s2, d, s');
    ObeysThen(a, b, pick, 0);
    ObeysThen(a + b, d, pick, 0);
    steps := a + b + d;
  }

  /** Every run can be completed, whatever services and dispatch loops decide: all threads come to rest, the list is
      empty, every message that a registered service has accepted is dispatched, and every deleted context's queue is
      freed with its messages dispatched or dropped. */
  lemma Completes(states: seq<State>, steps: seq<Step>, w: Tid, pick: nat -> bool)
      returns (states': seq<State>, more: seq<Step>)
    requires IsRun(states, steps)
    ensures IsRun(states', steps + more) && states <= states' && Obeys(more, pick, 0)
    ensures var s, s' := states[|steps|], states'[|steps + more|];
            && s'.global == [] && (forall t :: t in s'.tasks ==> s'.tasks[t] == Idle) && Grows(s, s')
            && forall c :: c in s'.services ==> AtRest(s'.services[c])
  {
    var s := states[|steps|];
    RunKeeps(states, steps, |steps|);
    hide IsRun, Path, Inv, Obeys, Grows, AtRest;
    var s';
    more, s' := CompleteFrom(s, w, pick);
    states' := Continue(states, steps, more, s');
  }
}
