/** What skynet_context_new does after it has given up its reference, and the assertion of dispatch_message.

    The launching thread still writes ctx->init, reports through the context and reads its handle, without holding a
    reference.  The context is then kept alive by its registration alone. */
module SchedulerLaunch {
  import opened Scheduler

  // ------------------------------------------------------------------------------------------------
  // The context after the release
  // ------------------------------------------------------------------------------------------------

  /** In every run a context that a launching thread still has to use has been deleted if and only if it has been
      retired, no thread has a reference to it any more, and none is still about to delete it. */
  lemma LaunchExact(states: seq<State>, steps: seq<Step>, i: nat, t: Tid, c: Id)
    requires IsRun(states, steps) && i < |states| && Touches(TaskOf(states[i], t), c)
    ensures c in states[i].services
    ensures var s := states[i];
            var sv := s.services[c];
            && (sv.release <==> !sv.registered && Referrers(s, c) == {} && Deleters(s, c) == {})
            && (sv.registered ==> sv.ref > 0)
  {
    var s := states[i];
    RunKeeps(states, steps, i);
    KnownNow(s, t);
    assert Good(ViewOf(s, c));
  }

  /** A step that takes c out of the handle table. */
  predicate Retires(s: State, st: Step, c: Id) {
    (st.Retire? && st.c == c) || (st.RetireOwn? && TaskOf(s, st.t) == Unregistering(c))
  }

  lemma StaysRegistered(s: State, st: Step, c: Id)
    requires Enabled(s, st) && c in s.services && s.services[c].registered && !Retires(s, st, c)
    ensures c in Apply(s, st).services && Apply(s, st).services[c].registered
  {
  }

  /** A registered context stays registered until a step retires it. */
  lemma {:induction false} RegisteredUntilRetired(states: seq<State>, steps: seq<Step>, i: nat, j: nat, c: Id)
    requires IsRun(states, steps) && i <= j < |states| && c in states[i].services && states[i].services[c].registered
    requires forall m :: i <= m < j ==> !Retires(states[m], steps[m], c)
    ensures c in states[j].services && states[j].services[c].registered
  {
    hide Enabled, Apply, Retires;
    if i < j {
      RegisteredUntilRetired(states, steps, i, j - 1, c);
      StaysRegistered(states[j - 1], steps[j - 1], c);
    }
  }

  /** Without a retirement since the context was registered, a launching thread never uses a deleted context. */
  lemma LaunchSafe(states: seq<State>, steps: seq<Step>, i: nat, j: nat, t: Tid, c: Id)
    requires IsRun(states, steps) && i <= j < |states| && c in states[i].services && states[i].services[c].registered
    requires forall m :: i <= m < j ==> !Retires(states[m], steps[m], c)
    requires Touches(TaskOf(states[j], t), c)
    ensures c in states[j].services && !states[j].services[c].release && states[j].services[c].ref > 0
  {
    hide Enabled, Apply, Retires;
    RegisteredUntilRetired(states, steps, i, j, c);
    LaunchExact(states, steps, j, t, c);
  }

  lemma RunOn(states: seq<State>, steps: seq<Step>, st: Step)
    requires IsRun(states, steps) && Enabled(states[|steps|], st)
    ensures IsRun(states + [Apply(states[|steps|], st)], steps + [st])
  {
    hide Enabled, Apply;
    var ss, ts := states + [Apply(states[|steps|], st)], steps + [st];
    forall i | 0 <= i < |ts|
      ensures Enabled(ss[i], ts[i]) && ss[i + 1] == Apply(ss[i], ts[i])
    {
      if i < |steps| {
        assert ss[i] == states[i] && ss[i + 1] == states[i + 1] && ts[i] == steps[i];
      }
    }
  }

  /** With a retirement there is no safety: from every state of every run in which a launching thread still has to use a
      registered context that nobody refers to, another thread can retire, release and delete it before that. */
  lemma RetirementBreaks(states: seq<State>, steps: seq<Step>, t: Tid, u: Tid, c: Id)
      returns (states': seq<State>, steps': seq<Step>)
    requires IsRun(states, steps) && Touches(TaskOf(states[|steps|], t), c) && c in states[|steps|].services
    requires states[|steps|].services[c].registered && Referrers(states[|steps|], c) == {}
    requires u != t && TaskOf(states[|steps|], u) == Idle
    ensures IsRun(states', steps') && |steps'| == |steps| + 3 && states' == states + states'[|states|..]
    ensures var s := states'[|steps'|];
            TaskOf(s, t) == TaskOf(states[|steps|], t) && c in s.services && s.services[c].release
  {
    var s0 := states[|steps|];
    LaunchExact(states, steps, |steps|, t, c);
    RefsCounted(states, steps, c);
    var s1, s2, s3 := Teardown(s0, t, u, c);
    hide Enabled, Apply, IsRun, Referrers;
    RunOn(states, steps, Retire(u, c));
    RunOn(states + [s1], steps + [Retire(u, c)], Release(u));
    RunOn(states + [s1] + [s2], steps + [Retire(u, c)] + [Release(u)], Delete(u));
    states' := states + [s1] + [s2] + [s3];
    steps' := steps + [Retire(u, c)] + [Release(u)] + [Delete(u)];
  }

  lemma RefsCounted(states: seq<State>, steps: seq<Step>, c: Id)
    requires IsRun(states, steps) && c in states[|steps|].services
    ensures var s := states[|steps|];
            s.services[c].ref == |Referrers(s, c)| + if s.services[c].registered then 1 else 0
  {
    var s := states[|steps|];
    RunKeeps(states, steps, |steps|);
    assert Good(ViewOf(s, c));
  }

  lemma Teardown(s: State, t: Tid, u: Tid, c: Id) returns (s1: State, s2: State, s3: State)
    requires c in s.services && s.services[c].registered && s.services[c].ref == 1 && u != t && TaskOf(s, u) == Idle
    ensures Enabled(s, Retire(u, c)) && s1 == Apply(s, Retire(u, c))
    ensures Enabled(s1, Release(u)) && s2 == Apply(s1, Release(u))
    ensures Enabled(s2, Delete(u)) && s3 == Apply(s2, Delete(u))
    ensures TaskOf(s3, t) == TaskOf(s, t) && c in s3.services && s3.services[c].release
  {
    s1 := Apply(s, Retire(u, c));
    s2 := Apply(s1, Release(u));
    s3 := Apply(s2, Delete(u));
  }

  /** A run of two threads in which ctx->init is about to be written after the context has been freed. */
  lemma UnsafeLaunch() returns (states: seq<State>, steps: seq<Step>)
    ensures IsRun(states, steps)
    ensures var s := states[|steps|];
            TaskOf(s, 0) == Marking(0) && 0 in s.services && s.services[0].release
  {
    var s1 := Apply(START, Create(0, 0));
    assert IsRun([START], []);
    RunOn([START], [], Create(0, 0));
    var s2 := Apply(s1, InitOk(0));
    RunOn([START] + [s1], [] + [Create(0, 0)], InitOk(0));
    var s3 := Apply(s2, Release(0));
    RunOn([START] + [s1] + [s2], [] + [Create(0, 0)] + [InitOk(0)], Release(0));
    var ss, ts := [START] + [s1] + [s2] + [s3], [] + [Create(0, 0)] + [InitOk(0)] + [Release(0)];
    assert s3.tasks == map[0 := Marking(0)];
    assert Referrers(s3, 0) == {};
    states, steps := RetirementBreaks(ss, ts, 0, 1, 0);
  }

  // ------------------------------------------------------------------------------------------------
  // A message is dispatched to initialised contexts only
  // ------------------------------------------------------------------------------------------------

  /** The thread is launching c and has not given its queue away. */
  predicate Makes(k: Task, c: Id) {
    match k
    case Creating(q) => q == c
    case Releasing(_, th) => (th.Launch? || th.Unregister?) && th.q == c
    case Deleting(_, th) => (th.Launch? || th.Unregister?) && th.q == c
    case Marking(q) => q == c
    case Launching(q, _) => q == c
    case Unregistering(q) => q == c
    case _ => false
  }

  /** The thread is serving the queue of c. */
  predicate Serves(k: Task, c: Id) {
    match k
    case Ready(q) => q == c
    case Dispatching(q, _) => q == c
    case Finished(q) => q == c
    case Swapping(q, _) => q == c
    case _ => false
  }

  /** A context released on the way to its launch is the one being launched. */
  predicate Sound(k: Task) {
    ((k.Releasing? || k.Deleting?) && (k.then_.Launch? || k.then_.Unregister?)) ==> k.then_.q == k.c
  }

  /** What the task of one thread says about a context. */
  predicate TaskInit(k: Task, c: Id, sv: Service) {
    && (Serves(k, c) ==> sv.init)
    && (k == Launching(c, true) ==> sv.init)
    && (k == Launching(c, false) ==> sv.release)
  }

  ghost predicate Launched(s: State, c: Id)
    requires c in s.services
  {
    var sv := s.services[c];
    && (forall t :: t in s.tasks ==> TaskInit(s.tasks[t], c, sv))
    && (sv.registered && !sv.init ==> exists t :: t in s.tasks && Makes(s.tasks[t], c))
  }

  ghost predicate InitInv(s: State) {
    && (forall t :: t in s.tasks ==> Sound(s.tasks[t]))
    && forall c :: c in s.services ==> Launched(s, c)
  }

  lemma MakerOwns(k: Task, c: Id)
    ensures Makes(k, c) ==> Owns(k, c)
    ensures Serves(k, c) ==> Owns(k, c) && !Makes(k, c)
  {
  }

  /** A registered context whose queue has been found by a worker is initialised. */
  lemma FoundIsInit(s: State, t: Tid, c: Id)
    requires Inv(s) && InitInv(s) && TaskOf(s, t) == Holding(c) && c in s.services && s.services[c].registered
    ensures s.services[c].init
  {
    assert Launched(s, c);
    if !s.services[c].init {
      var u :| u in s.tasks && Makes(s.tasks[u], c);
      MakerOwns(s.tasks[u], c);
      RoleOf(s, t, c);
      RoleOf(s, u, c);
      OneOf(ViewOf(s, c), t);
    }
  }

  /** How a step of thread t from k to k' may change a context. */
  predicate Allowed(k: Task, k': Task, c: Id, sv: Service, sv': Service) {
    && Sound(k')
    && (sv.init ==> sv'.init) && (sv.release ==> sv'.release) && (sv'.registered ==> sv.registered)
    && TaskInit(k', c, sv')
    && (Makes(k, c) ==> Makes(k', c) || sv'.init || !sv'.registered)
  }

  lemma AllowedKeeps(s: State, s': State, t: Tid, k': Task, c: Id)
    requires c in s.services && c in s'.services && s'.tasks == s.tasks[t := k'] && Launched(s, c)
    requires Allowed(TaskOf(s, t), k', c, s.services[c], s'.services[c])
    ensures Launched(s', c)
  {
    hide Makes, Serves;
    var sv, sv' := s.services[c], s'.services[c];
    forall u | u in s'.tasks
      ensures TaskInit(s'.tasks[u], c, sv')
    {
      if u != t {
        assert TaskInit(s.tasks[u], c, sv);
      }
    }
    if sv'.registered && !sv'.init {
      var u :| u in s.tasks && Makes(s.tasks[u], c);
      if u == t {
        assert Makes(k', c);
        assert s'.tasks[t] == k';
      } else {
        assert s'.tasks[u] == s.tasks[u];
      }
    }
  }

  /** What the invariants say about the thread that takes a step and about one context. */
  ghost predicate Before(s: State, st: Step, c: Id) {
    && c in s.services && TaskInit(TaskOf(s, st.t), c, s.services[c]) && Sound(TaskOf(s, st.t))
    && (s.services[c].release ==> !s.services[c].registered)
    && (TaskOf(s, st.t) == Holding(c) && s.services[c].registered ==> s.services[c].init)
  }

  ghost predicate StepAllowed(s: State, st: Step, c: Id)
    requires Enabled(s, st) && c in s.services
  {
    var s' := Apply(s, st);
    c in s'.services && st.t in s'.tasks && Allowed(TaskOf(s, st.t), s'.tasks[st.t], c, s.services[c], s'.services[c])
  }

  lemma OneThread(s: State, st: Step)
    requires Enabled(s, st)
    ensures var s' := Apply(s, st);
            st.t in s'.tasks && s'.tasks == s.tasks[st.t := s'.tasks[st.t]]
  {
  }

  lemma LaunchStep(s: State, st: Step, c: Id)
    requires Enabled(s, st) && Before(s, st, c) && (st.Create? || st.InitOk? || st.InitFail?)
    ensures StepAllowed(s, st, c)
  {
  }

  lemma SendStep(s: State, st: Step, c: Id)
    requires Enabled(s, st) && Before(s, st, c) && (st.Grab? || st.Push?)
    ensures StepAllowed(s, st, c)
  {
  }

  lemma RetireStep(s: State, st: Step, c: Id)
    requires Enabled(s, st) && Before(s, st, c) && (st.Retire? || st.RetireOwn?)
    ensures StepAllowed(s, st, c)
  {
  }

  lemma MarkStep(s: State, st: Step, c: Id)
    requires Enabled(s, st) && Before(s, st, c) && (st.Mark? || st.Report? || st.ReadHandle?)
    ensures StepAllowed(s, st, c)
  {
  }

  lemma PopStep(s: State, st: Step, c: Id)
    requires Enabled(s, st) && Before(s, st, c) && (st.Pop? || st.PopOther? || st.PushBack?)
    ensures StepAllowed(s, st, c)
  {
  }

  lemma DropStep(s: State, st: Step, c: Id)
    requires Enabled(s, st) && Before(s, st, c) && (st.MqRelease? || st.Drop?)
    ensures StepAllowed(s, st, c)
  {
  }

  lemma ServeStep(s: State, st: Step, c: Id)
    requires Enabled(s, st) && Before(s, st, c) && (st.MqPop? || st.Dispatch?)
    ensures StepAllowed(s, st, c)
  {
  }

  lemma ReleaseStep(s: State, st: Step, c: Id)
    requires Enabled(s, st) && Before(s, st, c) && (st.Release?)
    ensures StepAllowed(s, st, c)
  {
  }

  lemma DeleteStep(s: State, st: Step, c: Id)
    requires Enabled(s, st) && Before(s, st, c) && (st.Delete?)
    ensures StepAllowed(s, st, c)
  {
  }

  lemma PushStep(s: State, st: Step, c: Id)
    requires Enabled(s, st) && Before(s, st, c) && (st.PushLaunched?)
    ensures StepAllowed(s, st, c)
  {
  }

  lemma FindStep(s: State, st: Step, c: Id)
    requires Enabled(s, st) && Before(s, st, c) && st.Find?
    ensures StepAllowed(s, st, c)
  {
  }

  lemma BeforeStep(s: State, st: Step, c: Id)
    requires Inv(s) && InitInv(s) && Enabled(s, st) && c in s.services
    ensures Before(s, st, c)
  {
    hide Inv, Enabled, Makes, Serves;
    TaskNow(s, st.t, c);
    hide InitInv, TaskInit, Sound;
    if s.services[c].release {
      ReleasedIsRetired(s, c);
    }
    if TaskOf(s, st.t) == Holding(c) && s.services[c].registered {
      FoundIsInit(s, st.t, c);
    }
  }

  lemma TaskNow(s: State, t: Tid, c: Id)
    requires InitInv(s) && c in s.services
    ensures TaskInit(TaskOf(s, t), c, s.services[c]) && Sound(TaskOf(s, t))
  {
    hide Makes;
    assert Launched(s, c);
    assert t in s.tasks ==> TaskInit(s.tasks[t], c, s.services[c]) && Sound(s.tasks[t]);
  }

  lemma ReleasedIsRetired(s: State, c: Id)
    requires Inv(s) && c in s.services && s.services[c].release
    ensures !s.services[c].registered
  {
    assert Good(ViewOf(s, c));
  }

  lemma NewLaunched(s: State, t: Tid, c: Id)
    requires Inv(s) && Enabled(s, Create(t, c))
    ensures Launched(Apply(s, Create(t, c)), c)
  {
    var s' := Apply(s, Create(t, c));
    assert s'.tasks[t] == Creating(c) && Makes(s'.tasks[t], c);
    forall u | u in s'.tasks
      ensures TaskInit(s'.tasks[u], c, s'.services[c])
    {
      if u != t {
        assert KnownTask(s.tasks[u], s.services.Keys);
        MakerOwns(s.tasks[u], c);
        assert !Owns(s.tasks[u], c);
      }
    }
  }

  lemma InitKeeps(s: State, st: Step)
    requires Inv(s) && InitInv(s) && Enabled(s, st)
    ensures InitInv(Apply(s, st))
  {
    OneThread(s, st);
    var s' := Apply(s, st);
    NewOnlyCreated(s, st);
    hide Inv, Launched, Sound, Enabled, Apply, InitInv;
    forall c | c in s'.services
      ensures Launched(s', c)
    {
      if c in s.services {
        AnyAllowed(s, st, c);
        LaunchedNow(s, c);
        AllowedKeeps(s, s', st.t, s'.tasks[st.t], c);
      } else {
        NewLaunched(s, st.t, c);
      }
    }
    TasksSound(s, st);
    AllLaunched(s');
  }

  lemma LaunchedNow(s: State, c: Id)
    requires InitInv(s) && c in s.services
    ensures Launched(s, c)
  {
  }

  lemma AllLaunched(s: State)
    requires (forall t :: t in s.tasks ==> Sound(s.tasks[t])) && forall c :: c in s.services ==> Launched(s, c)
    ensures InitInv(s)
  {
    hide Sound, Launched;
  }

  lemma NewOnlyCreated(s: State, st: Step)
    requires Enabled(s, st)
    ensures forall c :: c in Apply(s, st).services && c !in s.services ==> st == Create(st.t, c)
  {
  }

  lemma AnyAllowed(s: State, st: Step, c: Id)
    requires Inv(s) && InitInv(s) && Enabled(s, st) && c in s.services
    ensures StepAllowed(s, st, c)
  {
    hide Inv, InitInv, Enabled, Apply, Before, StepAllowed;
    BeforeStep(s, st, c);
    match st
    case Create(_, _) => LaunchStep(s, st, c);
    case InitOk(_) => LaunchStep(s, st, c);
    case InitFail(_) => LaunchStep(s, st, c);
    case Grab(_, _, _) => SendStep(s, st, c);
    case Push(_) => SendStep(s, st, c);
    case Release(_) => ReleaseStep(s, st, c);
    case Delete(_) => DeleteStep(s, st, c);
    case Retire(_, _) => RetireStep(s, st, c);
    case RetireOwn(_) => RetireStep(s, st, c);
    case Mark(_) => MarkStep(s, st, c);
    case PushLaunched(_) => PushStep(s, st, c);
    case Report(_) => MarkStep(s, st, c);
    case ReadHandle(_) => MarkStep(s, st, c);
    case Pop(_) => PopStep(s, st, c);
    case Find(_) => FindStep(s, st, c);
    case MqRelease(_) => DropStep(s, st, c);
    case Drop(_) => DropStep(s, st, c);
    case MqPop(_) => ServeStep(s, st, c);
    case Dispatch(_, _) => ServeStep(s, st, c);
    case PopOther(_) => PopStep(s, st, c);
    case PushBack(_) => PopStep(s, st, c);
  }

  lemma TasksSound(s: State, st: Step)
    requires InitInv(s) && Enabled(s, st)
    ensures forall t :: t in Apply(s, st).tasks ==> Sound(Apply(s, st).tasks[t])
  {
    hide Launched;
    OneThread(s, st);
    StepSound(s, st);
    hide Apply, Enabled, Sound;
  }

  lemma StepSound(s: State, st: Step)
    requires Enabled(s, st) && (st.t in s.tasks ==> Sound(s.tasks[st.t]))
    ensures st.t in Apply(s, st).tasks && Sound(Apply(s, st).tasks[st.t])
  {
  }

  lemma {:induction false} RunInit(states: seq<State>, steps: seq<Step>, i: nat)
    requires IsRun(states, steps) && i < |states|
    ensures InitInv(states[i])
  {
    hide Inv, InitInv, Enabled, Apply;
    if i == 0 {
      NothingLaunched();
    } else {
      RunKeeps(states, steps, i - 1);
      RunInit(states, steps, i - 1);
      InitKeeps(states[i - 1], steps[i - 1]);
    }
  }

  lemma NothingLaunched()
    ensures InitInv(START)
  {
  }

  /** In every run the assertion of dispatch_message holds: a context that is given a message has been initialised. */
  lemma DispatchAssertion(states: seq<State>, steps: seq<Step>, i: nat, t: Tid, c: Id, m: Message)
    requires IsRun(states, steps) && i < |states| && TaskOf(states[i], t) == Dispatching(c, m)
    ensures c in states[i].services && states[i].services[c].init
  {
    var s := states[i];
    RunKeeps(states, steps, i);
    RunInit(states, steps, i);
    KnownNow(s, t);
    assert Owns(TaskOf(s, t), c);
    assert Launched(s, c);
    assert TaskInit(s.tasks[t], c, s.services[c]);
  }
}
