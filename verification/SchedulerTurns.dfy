/** What one thread gets done when it is left alone, operation by operation: launch, send, retire, dispatch, drop. */
module SchedulerTurns {
  import opened Scheduler
  import opened SchedulerLaunch

  // ------------------------------------------------------------------------------------------------
  // Continuations
  // ------------------------------------------------------------------------------------------------

  /** The steps lead from s to s'. */
  predicate Path(s: State, steps: seq<Step>, s': State)
    decreases |steps|
  {
    if steps == [] then s == s' else Enabled(s, steps[0]) && Path(Apply(s, steps[0]), steps[1..], s')
  }

  predicate By(steps: seq<Step>, t: Tid) {
    forall i :: 0 <= i < |steps| ==> steps[i].t == t
  }

  /** The steps lead from s to s', and thread t takes all of them. */
  predicate Alone(s: State, t: Tid, steps: seq<Step>, s': State) {
    Path(s, steps, s') && By(steps, t)
  }

  lemma {:induction false} PathThen(s: State, a: seq<Step>, m: State, b: seq<Step>, s': State)
    requires Path(s, a, m) && Path(m, b, s')
    ensures Path(s, a + b, s')
    decreases |a|
  {
    hide Enabled, Apply;
    if a == [] {
      assert a + b == b;
    } else {
      PathThen(Apply(s, a[0]), a[1..], m, b, s');
      assert (a + b)[1..] == a[1..] + b;
    }
  }

  lemma Then(s: State, t: Tid, steps: seq<Step>, m: State, st: Step)
    requires Alone(s, t, steps, m) && Enabled(m, st) && st.t == t
    ensures Alone(s, t, steps + [st], Apply(m, st))
  {
    hide Enabled, Apply;
    var s' := Apply(m, st);
    assert [st][1..] == [];
    assert Path(s', [], s');
    assert Path(m, [st], s');
    PathThen(s, steps, m, [st], s');
  }

  lemma First(s: State, t: Tid, st: Step, more: seq<Step>, s': State)
    requires st.t == t && Enabled(s, st) && Alone(Apply(s, st), t, more, s')
    ensures Alone(s, t, [st] + more, s')
  {
    hide Enabled, Apply;
    assert ([st] + more)[1..] == more;
  }

  /** A continuation of a run is a run. */
  lemma {:induction false} Continue(states: seq<State>, steps: seq<Step>, more: seq<Step>, s': State)
      returns (states': seq<State>)
    requires IsRun(states, steps) && Path(states[|steps|], more, s')
    ensures IsRun(states', steps + more) && states <= states' && states'[|steps + more|] == s'
    decreases |more|
  {
    hide Enabled, Apply;
    if more == [] {
      assert steps + more == steps;
      states' := states;
    } else {
      var s1 := Apply(states[|steps|], more[0]);
      RunOn(states, steps, more[0]);
      assert (states + [s1])[|steps + [more[0]]|] == s1;
      states' := Continue(states + [s1], steps + [more[0]], more[1..], s');
      assert steps + [more[0]] + more[1..] == steps + more;
    }
  }

  // ------------------------------------------------------------------------------------------------
  // One service and one thread
  // ------------------------------------------------------------------------------------------------

  /** The state s but for one service, the global list and one thread. */
  function At(s: State, c: Id, sv: Service, global: seq<Id>, t: Tid, k: Task): State {
    State(s.services[c := sv], global, s.tasks[t := k])
  }

  predicate Rests(k: Task) {
    k.Idle? || k.Popping?
  }

  /** Thread t alone gets from s to where it is at k, with the service c and the list as given. */
  predicate Gets(s: State, t: Tid, steps: seq<Step>, c: Id, sv: Service, g: seq<Id>, k: Task) {
    Alone(s, t, steps, At(s, c, sv, g, t, k))
  }

  lemma Goes(s: State, t: Tid, steps: seq<Step>, c: Id, sv: Service, g: seq<Id>, k: Task, st: Step,
             sv': Service, g': seq<Id>, k': Task)
    requires Gets(s, t, steps, c, sv, g, k) && st.t == t && Enabled(At(s, c, sv, g, t, k), st)
    requires var m := At(s, c, sv, g, t, k);
             if g' == g then Apply(m, st) == Put(m, c, sv', t, k')
             else g' == g + [c] && Apply(m, st) == PutList(m, c, sv', t, k')
    ensures Gets(s, t, steps + [st], c, sv', g', k')
  {
    hide Enabled, Apply, Alone;
    var m := At(s, c, sv, g, t, k);
    assert m.services[c := sv'] == s.services[c := sv'];
    assert m.tasks[t := k'] == s.tasks[t := k'];
    Then(s, t, steps, m, st);
  }

  lemma GetsFound(s: State, t: Tid, steps: seq<Step>, c: Id, sv: Service, g: seq<Id>)
    requires Gets(s, t, steps, c, sv, g, Holding(c)) && sv.registered
    ensures Gets(s, t, steps + [Find(t)], c, sv.(ref := sv.ref + 1), g, Ready(c))
  {
    hide Alone;
    Goes(s, t, steps, c, sv, g, Holding(c), Find(t), sv.(ref := sv.ref + 1), g, Ready(c));
  }

  lemma GetsGone(s: State, t: Tid, steps: seq<Step>, c: Id, sv: Service, g: seq<Id>)
    requires Gets(s, t, steps, c, sv, g, Holding(c)) && !sv.registered
    ensures Gets(s, t, steps + [Find(t)], c, sv, g, Discarding(c, true))
  {
    hide Alone;
    Goes(s, t, steps, c, sv, g, Holding(c), Find(t), sv, g, Discarding(c, true));
  }

  lemma GetsMessage(s: State, t: Tid, steps: seq<Step>, c: Id, sv: Service, g: seq<Id>)
    requires Gets(s, t, steps, c, sv, g, Ready(c)) && sv.msgs != []
    ensures Gets(s, t, steps + [MqPop(t)], c, sv.(msgs := sv.msgs[1..]), g, Dispatching(c, sv.msgs[0]))
  {
    hide Alone;
    Goes(s, t, steps, c, sv, g, Ready(c), MqPop(t), sv.(msgs := sv.msgs[1..]), g, Dispatching(c, sv.msgs[0]));
  }

  lemma GetsNothing(s: State, t: Tid, steps: seq<Step>, c: Id, sv: Service, g: seq<Id>)
    requires Gets(s, t, steps, c, sv, g, Ready(c)) && sv.msgs == []
    ensures Gets(s, t, steps + [MqPop(t)], c, sv.(inGlobal := false), g, Releasing(c, PopNext))
  {
    hide Alone;
    Goes(s, t, steps, c, sv, g, Ready(c), MqPop(t), sv.(inGlobal := false), g, Releasing(c, PopNext));
  }

  lemma GetsDone(s: State, t: Tid, steps: seq<Step>, c: Id, sv: Service, g: seq<Id>, m: Message)
    requires Gets(s, t, steps, c, sv, g, Dispatching(c, m))
    ensures Gets(s, t, steps + [Dispatch(t, false)], c, sv.(dispatched := sv.dispatched + [m]), g, Finished(c))
  {
    hide Alone;
    Goes(s, t, steps, c, sv, g, Dispatching(c, m), Dispatch(t, false),
         sv.(dispatched := sv.dispatched + [m]), g, Finished(c));
  }

  lemma GetsBack(s: State, t: Tid, steps: seq<Step>, c: Id, sv: Service, g: seq<Id>)
    requires Gets(s, t, steps, c, sv, g, Discarding(c, true)) && !sv.release
    ensures Gets(s, t, steps + [MqRelease(t)], c, sv, g + [c], Popping)
  {
    hide Alone;
    Goes(s, t, steps, c, sv, g, Discarding(c, true), MqRelease(t), sv, g + [c], Popping);
  }

  lemma GetsDropping(s: State, t: Tid, steps: seq<Step>, c: Id, sv: Service, g: seq<Id>, worker: bool)
    requires Gets(s, t, steps, c, sv, g, Discarding(c, worker)) && sv.release
    ensures Gets(s, t, steps + [MqRelease(t)], c, sv, g, Dropping(c, worker))
  {
    hide Alone;
    Goes(s, t, steps, c, sv, g, Discarding(c, worker), MqRelease(t), sv, g, Dropping(c, worker));
  }

  lemma GetsDropped(s: State, t: Tid, steps: seq<Step>, c: Id, sv: Service, g: seq<Id>, worker: bool)
    requires Gets(s, t, steps, c, sv, g, Dropping(c, worker)) && sv.msgs != []
    ensures Gets(s, t, steps + [Drop(t)],
                 c, sv.(msgs := sv.msgs[1..], dropped := sv.dropped + [sv.msgs[0]]), g, Dropping(c, worker))
  {
    hide Alone;
    Goes(s, t, steps, c, sv, g, Dropping(c, worker), Drop(t),
         sv.(msgs := sv.msgs[1..], dropped := sv.dropped + [sv.msgs[0]]), g, Dropping(c, worker));
  }

  lemma GetsFreed(s: State, t: Tid, steps: seq<Step>, c: Id, sv: Service, g: seq<Id>, worker: bool)
    requires Gets(s, t, steps, c, sv, g, Dropping(c, worker)) && sv.msgs == []
    ensures Gets(s, t, steps + [Drop(t)], c, sv.(inGlobal := false, freed := true), g, AfterQueue(worker))
  {
    hide Alone;
    Goes(s, t, steps, c, sv, g, Dropping(c, worker), Drop(t),
         sv.(inGlobal := false, freed := true), g, AfterQueue(worker));
  }

  lemma GetsReleased(s: State, t: Tid, steps: seq<Step>, c: Id, sv: Service, g: seq<Id>, th: Then)
    requires Gets(s, t, steps, c, sv, g, Releasing(c, th)) && sv.ref != 1
    ensures Gets(s, t, steps + [Release(t)], c, sv.(ref := sv.ref - 1), g, After(th))
  {
    hide Alone;
    Goes(s, t, steps, c, sv, g, Releasing(c, th), Release(t), sv.(ref := sv.ref - 1), g, After(th));
  }

  lemma GetsLast(s: State, t: Tid, steps: seq<Step>, c: Id, sv: Service, g: seq<Id>, th: Then)
    requires Gets(s, t, steps, c, sv, g, Releasing(c, th)) && sv.ref == 1
    ensures Gets(s, t, steps + [Release(t)], c, sv.(ref := 0), g, Deleting(c, th))
  {
    hide Alone;
    Goes(s, t, steps, c, sv, g, Releasing(c, th), Release(t), sv.(ref := 0), g, Deleting(c, th));
  }

  lemma GetsDeleted(s: State, t: Tid, steps: seq<Step>, c: Id, sv: Service, g: seq<Id>, th: Then)
    requires Gets(s, t, steps, c, sv, g, Deleting(c, th))
    ensures Gets(s, t, steps + [Delete(t)],
                 c, sv.(release := true), (if sv.inGlobal then g else g + [c]), AfterDelete(th))
  {
    hide Alone;
    Goes(s, t, steps, c, sv, g, Deleting(c, th), Delete(t), sv.(release := true),
         (if sv.inGlobal then g else g + [c]), AfterDelete(th));
  }

  lemma GetsPushed(s: State, t: Tid, steps: seq<Step>, c: Id, sv: Service, g: seq<Id>, m: Message)
    requires Gets(s, t, steps, c, sv, g, Sending(c, m))
    ensures Gets(s, t, steps + [Push(t)],
                 c, sv.(msgs := sv.msgs + [m], pushed := sv.pushed + [m], inGlobal := true),
                 (if sv.inGlobal then g else g + [c]), Releasing(c, Finish))
  {
    hide Alone;
    Goes(s, t, steps, c, sv, g, Sending(c, m), Push(t),
         sv.(msgs := sv.msgs + [m], pushed := sv.pushed + [m], inGlobal := true),
         (if sv.inGlobal then g else g + [c]), Releasing(c, Finish));
  }

  lemma GetsInit(s: State, t: Tid, steps: seq<Step>, c: Id, sv: Service, g: seq<Id>)
    requires Gets(s, t, steps, c, sv, g, Creating(c))
    ensures Gets(s, t, steps + [InitOk(t)], c, sv, g, Releasing(c, Launch(c)))
  {
    hide Alone;
    Goes(s, t, steps, c, sv, g, Creating(c), InitOk(t), sv, g, Releasing(c, Launch(c)));
  }

  lemma GetsNoInit(s: State, t: Tid, steps: seq<Step>, c: Id, sv: Service, g: seq<Id>)
    requires Gets(s, t, steps, c, sv, g, Creating(c))
    ensures Gets(s, t, steps + [InitFail(t)], c, sv, g, Releasing(c, Unregister(c)))
  {
    hide Alone;
    Goes(s, t, steps, c, sv, g, Creating(c), InitFail(t), sv, g, Releasing(c, Unregister(c)));
  }

  lemma GetsMarked(s: State, t: Tid, steps: seq<Step>, c: Id, sv: Service, g: seq<Id>)
    requires Gets(s, t, steps, c, sv, g, Marking(c))
    ensures Gets(s, t, steps + [Mark(t)], c, sv.(init := true), g, Launching(c, true))
  {
    hide Alone;
    Goes(s, t, steps, c, sv, g, Marking(c), Mark(t), sv.(init := true), g, Launching(c, true));
  }

  lemma GetsLaunched(s: State, t: Tid, steps: seq<Step>, c: Id, sv: Service, g: seq<Id>)
    requires Gets(s, t, steps, c, sv, g, Launching(c, true))
    ensures Gets(s, t, steps + [PushLaunched(t)], c, sv, g + [c], Reporting(c))
  {
    hide Alone;
    Goes(s, t, steps, c, sv, g, Launching(c, true), PushLaunched(t), sv, g + [c], Reporting(c));
  }

  lemma GetsReported(s: State, t: Tid, steps: seq<Step>, c: Id, sv: Service, g: seq<Id>)
    requires Gets(s, t, steps, c, sv, g, Reporting(c))
    ensures Gets(s, t, steps + [Report(t)], c, sv, g, Returned(c))
  {
    hide Alone;
    Goes(s, t, steps, c, sv, g, Reporting(c), Report(t), sv, g, Returned(c));
  }

  lemma GetsHandle(s: State, t: Tid, steps: seq<Step>, c: Id, sv: Service, g: seq<Id>)
    requires Gets(s, t, steps, c, sv, g, Returned(c))
    ensures Gets(s, t, steps + [ReadHandle(t)], c, sv, g, Idle)
  {
    hide Alone;
    Goes(s, t, steps, c, sv, g, Returned(c), ReadHandle(t), sv, g, Idle);
  }

  lemma GetsRetired(s: State, t: Tid, steps: seq<Step>, c: Id, sv: Service, g: seq<Id>)
    requires Gets(s, t, steps, c, sv, g, Unregistering(c)) && sv.registered
    ensures Gets(s, t, steps + [RetireOwn(t)], c, sv.(registered := false), g, Releasing(c, Discard(c)))
  {
    hide Alone;
    Goes(s, t, steps, c, sv, g, Unregistering(c), RetireOwn(t), sv.(registered := false), g, Releasing(c, Discard(c)));
  }

  // ------------------------------------------------------------------------------------------------
  // A worker's turn
  // ------------------------------------------------------------------------------------------------

  /** A worker that pops the global list takes its head. */
  lemma TakesHead(s: State, t: Tid, c: Id)
    requires Rests(TaskOf(s, t)) && s.global != [] && s.global[0] == c && c in s.services
    ensures Gets(s, t, [] + [Pop(t)], c, s.services[c], s.global[1..], Holding(c))
  {
    var s' := At(s, c, s.services[c], s.global[1..], t, Holding(c));
    assert s'.services == s.services;
    assert Apply(s, Pop(t)) == s';
    Then(s, t, [], s, Pop(t));
  }

  /** A worker that takes a registered service with messages dispatches the first of them. */
  lemma DispatchTurn(s: State, t: Tid, c: Id)
    requires Rests(TaskOf(s, t)) && s.global != [] && s.global[0] == c && c in s.services
    requires s.services[c].registered && s.services[c].msgs != []
    ensures var sv := s.services[c];
            var sv' := sv.(ref := sv.ref + 1, msgs := sv.msgs[1..], dispatched := sv.dispatched + [sv.msgs[0]]);
            Gets(s, t, [] + [Pop(t)] + [Find(t)] + [MqPop(t)] + [Dispatch(t, false)],
                 c, sv', s.global[1..], Finished(c))
  {
    hide Gets;
    var sv, g := s.services[c], s.global[1..];
    TakesHead(s, t, c);
    var sv1 := sv.(ref := sv.ref + 1);
    GetsFound(s, t, [] + [Pop(t)], c, sv, g);
    GetsMessage(s, t, [] + [Pop(t)] + [Find(t)], c, sv1, g);
    var sv2 := sv1.(msgs := sv.msgs[1..]);
    GetsDone(s, t, [] + [Pop(t)] + [Find(t)] + [MqPop(t)], c, sv2, g, sv.msgs[0]);
  }

  /** A worker that takes a registered service without messages makes its queue idle and looks for the next one. */
  lemma IdleTurn(s: State, t: Tid, c: Id)
    requires Rests(TaskOf(s, t)) && s.global != [] && s.global[0] == c && c in s.services
    requires s.services[c].registered && s.services[c].msgs == [] && s.services[c].ref > 0
    ensures Gets(s, t, [] + [Pop(t)] + [Find(t)] + [MqPop(t)] + [Release(t)],
                 c, s.services[c].(inGlobal := false), s.global[1..], Popping)
  {
    hide Gets;
    var sv, g := s.services[c], s.global[1..];
    TakesHead(s, t, c);
    var sv1 := sv.(ref := sv.ref + 1);
    GetsFound(s, t, [] + [Pop(t)], c, sv, g);
    GetsNothing(s, t, [] + [Pop(t)] + [Find(t)], c, sv1, g);
    var sv2 := sv1.(inGlobal := false);
    GetsReleased(s, t, [] + [Pop(t)] + [Find(t)] + [MqPop(t)], c, sv2, g, PopNext);
    assert sv2.(ref := sv2.ref - 1) == sv.(inGlobal := false);
  }

  /** A queue whose context is still to be deleted goes back to the end of the list. */
  lemma BackTurn(s: State, t: Tid, c: Id)
    requires Rests(TaskOf(s, t)) && s.global != [] && s.global[0] == c && c in s.services
    requires !s.services[c].registered && !s.services[c].release
    ensures Gets(s, t, [] + [Pop(t)] + [Find(t)] + [MqRelease(t)], c, s.services[c], s.global[1..] + [c], Popping)
  {
    hide Gets;
    var sv, g := s.services[c], s.global[1..];
    TakesHead(s, t, c);
    GetsGone(s, t, [] + [Pop(t)], c, sv, g);
    GetsBack(s, t, [] + [Pop(t)] + [Find(t)], c, sv, g);
  }

  lemma {:induction false} DropAll(s: State, t: Tid, steps: seq<Step>, c: Id, sv: Service, g: seq<Id>, worker: bool)
      returns (steps': seq<Step>)
    requires Gets(s, t, steps, c, sv, g, Dropping(c, worker))
    ensures Gets(s, t, steps', c, sv.(msgs := [], dropped := sv.dropped + sv.msgs, inGlobal := false, freed := true), g,
                 AfterQueue(worker))
    decreases |sv.msgs|
  {
    hide Gets;
    if sv.msgs == [] {
      GetsFreed(s, t, steps, c, sv, g, worker);
      steps' := steps + [Drop(t)];
      assert sv.dropped + sv.msgs == sv.dropped;
    } else {
      GetsDropped(s, t, steps, c, sv, g, worker);
      var sv1 := sv.(msgs := sv.msgs[1..], dropped := sv.dropped + [sv.msgs[0]]);
      steps' := DropAll(s, t, steps + [Drop(t)], c, sv1, g, worker);
      assert sv1.dropped + sv1.msgs == sv.dropped + sv.msgs;
    }
  }

  /** A worker that takes the queue of a deleted context drops its messages and frees it. */
  lemma DropTurn(s: State, t: Tid, c: Id) returns (steps: seq<Step>)
    requires Rests(TaskOf(s, t)) && s.global != [] && s.global[0] == c && c in s.services
    requires !s.services[c].registered && s.services[c].release
    ensures var sv := s.services[c];
            Gets(s, t, steps, c, sv.(msgs := [], dropped := sv.dropped + sv.msgs, inGlobal := false, freed := true),
                 s.global[1..], Popping)
  {
    hide Gets;
    var sv, g := s.services[c], s.global[1..];
    TakesHead(s, t, c);
    GetsGone(s, t, [] + [Pop(t)], c, sv, g);
    GetsDropping(s, t, [] + [Pop(t)] + [Find(t)], c, sv, g, true);
    steps := DropAll(s, t, [] + [Pop(t)] + [Find(t)] + [MqRelease(t)], c, sv, g, true);
  }

  /** A worker that is done with a service goes on with the next one in the list, and puts the one served at the end. */
  lemma NextTurn(s: State, t: Tid, c: Id)
    requires TaskOf(s, t) == Finished(c) && c in s.services && s.services[c].ref > 1
    requires s.global != [] ==> s.global[0] in s.services
    ensures var sv := s.services[c];
            var sv' := sv.(ref := sv.ref - 1);
            if s.global == [] then Gets(s, t, [] + [PopOther(t)] + [Release(t)], c, sv', [], Holding(c))
            else Gets(s, t, [] + [PopOther(t)] + [PushBack(t)] + [Release(t)], c, sv', s.global[1..] + [c],
                      Holding(s.global[0]))
  {
    hide Gets;
    var sv := s.services[c];
    assert s.services[c := sv] == s.services;
    NextPop(s, t, c);
    if s.global == [] {
      GetsReleased(s, t, [] + [PopOther(t)], c, sv, [], Hold(c));
    } else {
      var nq, g := s.global[0], s.global[1..];
      NextPush(s, t, [] + [PopOther(t)], c, sv, g, nq);
      GetsReleased(s, t, [] + [PopOther(t)] + [PushBack(t)], c, sv, g + [c], Hold(nq));
    }
  }

  lemma NextPop(s: State, t: Tid, c: Id)
    requires TaskOf(s, t) == Finished(c) && c in s.services && (s.global != [] ==> s.global[0] in s.services)
    ensures if s.global == [] then Gets(s, t, [] + [PopOther(t)], c, s.services[c], [], Releasing(c, Hold(c)))
            else Gets(s, t, [] + [PopOther(t)], c, s.services[c], s.global[1..], Swapping(c, s.global[0]))
  {
    assert s.services[c := s.services[c]] == s.services;
    Then(s, t, [], s, PopOther(t));
  }

  lemma NextPush(s: State, t: Tid, steps: seq<Step>, c: Id, sv: Service, g: seq<Id>, nq: Id)
    requires Gets(s, t, steps, c, sv, g, Swapping(c, nq))
    ensures Gets(s, t, steps + [PushBack(t)], c, sv, g + [c], Releasing(c, Hold(nq)))
  {
    hide Alone;
    Goes(s, t, steps, c, sv, g, Swapping(c, nq), PushBack(t), sv, g + [c], Releasing(c, Hold(nq)));
  }

  // ------------------------------------------------------------------------------------------------
  // Launching, sending and retiring
  // ------------------------------------------------------------------------------------------------

  lemma Starts(s: State, t: Tid, st: Step, c: Id, sv: Service, k: Task)
    requires st.t == t && Enabled(s, st) && Apply(s, st) == Put(s, c, sv, t, k)
    ensures Gets(s, t, [] + [st], c, sv, s.global, k)
  {
    hide Enabled, Apply;
    Then(s, t, [], s, st);
  }

  /** A launch whose init function succeeds registers an initialised service and lists its queue. */
  lemma LaunchTurn(s: State, t: Tid, c: Id)
    requires TaskOf(s, t) == Idle && c !in s.services
    ensures Gets(s, t, [] + [Create(t, c)] + [InitOk(t)] + [Release(t)] + [Mark(t)] + [PushLaunched(t)] + [Report(t)]
                       + [ReadHandle(t)],
                 c, Service(1, true, true, false, false, [], [], [], [], true), s.global + [c], Idle)
  {
    hide Gets;
    var sv, g := NewService(), s.global;
    Starts(s, t, Create(t, c), c, sv, Creating(c));
    var a := [] + [Create(t, c)];
    GetsInit(s, t, a, c, sv, g);
    GetsReleased(s, t, a + [InitOk(t)], c, sv, g, Launch(c));
    var sv1 := sv.(ref := 1);
    GetsMarked(s, t, a + [InitOk(t)] + [Release(t)], c, sv1, g);
    var b, sv2 := a + [InitOk(t)] + [Release(t)] + [Mark(t)], sv1.(init := true);
    GetsLaunched(s, t, b, c, sv2, g);
    GetsReported(s, t, b + [PushLaunched(t)], c, sv2, g + [c]);
    GetsHandle(s, t, b + [PushLaunched(t)] + [Report(t)], c, sv2, g + [c]);
  }

  /** A launch whose init function fails leaves no service and no queue. */
  lemma FailedLaunchTurn(s: State, t: Tid, c: Id)
    requires TaskOf(s, t) == Idle && c !in s.services
    ensures Gets(s, t, [] + [Create(t, c)] + [InitFail(t)] + [Release(t)] + [RetireOwn(t)] + [Release(t)] + [Delete(t)]
                       + [MqRelease(t)] + [Drop(t)],
                 c, Service(0, false, false, true, true, [], [], [], [], false), s.global, Idle)
  {
    hide Gets;
    var sv, g := NewService(), s.global;
    Starts(s, t, Create(t, c), c, sv, Creating(c));
    var a := [] + [Create(t, c)];
    GetsNoInit(s, t, a, c, sv, g);
    GetsReleased(s, t, a + [InitFail(t)], c, sv, g, Unregister(c));
    var b, sv1 := a + [InitFail(t)] + [Release(t)], sv.(ref := 1);
    GetsRetired(s, t, b, c, sv1, g);
    GetsLast(s, t, b + [RetireOwn(t)], c, sv1.(registered := false), g, Discard(c));
    FailedLaunchEnd(s, t, b + [RetireOwn(t)] + [Release(t)], c, sv1.(registered := false).(ref := 0), g);
  }

  lemma FailedLaunchEnd(s: State, t: Tid, steps: seq<Step>, c: Id, sv: Service, g: seq<Id>)
    requires Gets(s, t, steps, c, sv, g, Deleting(c, Discard(c))) && sv.inGlobal && sv.msgs == []
    ensures Gets(s, t, steps + [Delete(t)] + [MqRelease(t)] + [Drop(t)],
                 c, sv.(release := true, inGlobal := false, freed := true), g, Idle)
  {
    hide Gets;
    GetsDeleted(s, t, steps, c, sv, g, Discard(c));
    var sv1 := sv.(release := true);
    GetsDropping(s, t, steps + [Delete(t)], c, sv1, g, false);
    GetsFreed(s, t, steps + [Delete(t)] + [MqRelease(t)], c, sv1, g, false);
  }

  /** A send to a registered service puts the message last in its queue, and an idle queue last in the list. */
  lemma SendTurn(s: State, t: Tid, c: Id, m: Message)
    requires TaskOf(s, t) == Idle && c in s.services && s.services[c].registered && s.services[c].ref > 0
    ensures var sv := s.services[c];
            Gets(s, t, [] + [Grab(t, c, m)] + [Push(t)] + [Release(t)],
                 c, sv.(msgs := sv.msgs + [m], pushed := sv.pushed + [m], inGlobal := true),
                 if sv.inGlobal then s.global else s.global + [c], Idle)
  {
    hide Gets;
    var sv, g := s.services[c], s.global;
    Starts(s, t, Grab(t, c, m), c, sv.(ref := sv.ref + 1), Sending(c, m));
    var a, sv1 := [] + [Grab(t, c, m)], sv.(ref := sv.ref + 1);
    GetsPushed(s, t, a, c, sv1, g, m);
    var sv2 := sv1.(msgs := sv.msgs + [m], pushed := sv.pushed + [m], inGlobal := true);
    GetsReleased(s, t, a + [Push(t)], c, sv2, if sv.inGlobal then g else g + [c], Finish);
    assert sv2.(ref := sv2.ref - 1) == sv.(msgs := sv.msgs + [m], pushed := sv.pushed + [m], inGlobal := true);
  }

  /** Retiring a service nobody else refers to deletes its context and sees its queue into the list. */
  lemma RetireTurn(s: State, t: Tid, c: Id)
    requires TaskOf(s, t) == Idle && c in s.services && s.services[c].registered
    ensures var sv := s.services[c];
            if sv.ref == 1 then
              Gets(s, t, [] + [Retire(t, c)] + [Release(t)] + [Delete(t)],
                   c, sv.(registered := false, ref := 0, release := true),
                   if sv.inGlobal then s.global else s.global + [c], Idle)
            else
              Gets(s, t, [] + [Retire(t, c)] + [Release(t)], c, sv.(registered := false, ref := sv.ref - 1), s.global,
                   Idle)
  {
    hide Gets;
    var sv, g := s.services[c], s.global;
    Starts(s, t, Retire(t, c), c, sv.(registered := false), Releasing(c, Finish));
    var a, sv1 := [] + [Retire(t, c)], sv.(registered := false);
    if sv.ref == 1 {
      GetsLast(s, t, a, c, sv1, g, Finish);
      GetsDeleted(s, t, a + [Release(t)], c, sv1.(ref := 0), g, Finish);
    } else {
      GetsReleased(s, t, a, c, sv1, g, Finish);
    }
  }
}
