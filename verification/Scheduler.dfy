/** The two-level message scheduler of skynet_mq.c and skynet_server.c as a transition system.

    Every step is one critical section or atomic operation of the source; any number of threads, each at its own point
    of a send, a retirement, a service launch or a dispatch, interleave in every possible way. */
module Scheduler {

  type Id = nat  // a service: its context, its handle and its message queue
  type Tid = nat // a thread of control
  type Message = nat

  /** struct skynet_context and struct message_queue of one service, and the history of its messages. */
  datatype Service = Service(
    ref: int,
    registered: bool, // in the handle table, which holds one reference
    inGlobal: bool,
    release: bool,
    freed: bool,      // the queue's memory has been returned
    msgs: seq<Message>,
    pushed: seq<Message>,
    dispatched: seq<Message>,
    dropped: seq<Message>,
    init: bool)       // ctx->init

  /** What a thread does once it has released a context. */
  datatype Then =
    | Finish
    | PopNext          // return skynet_globalmq_pop()
    | Hold(q: Id)      // return a queue to dispatch next
    | Launch(q: Id)    // skynet_context_new, init succeeded: mark the context, push the queue, report
    | Unregister(q: Id) // skynet_context_new, init failed: retire the handle
    | Discard(q: Id)   // skynet_context_new, init failed: release the queue

  /** Where a thread is. */
  datatype Task =
    | Idle
    | Popping                          // about to pop the global list
    | Holding(q: Id)                   // has a queue, about to look its handle up
    | Discarding(q: Id, worker: bool)  // about to call skynet_mq_release; a worker pops the global list afterwards
    | Dropping(q: Id, worker: bool)    // in _drop_queue
    | Ready(q: Id)                     // has queue and context, about to call skynet_mq_pop
    | Dispatching(q: Id, msg: Message) // about to run the callback
    | Finished(q: Id)                  // loop over, about to pop the next queue
    | Swapping(q: Id, nq: Id)          // has both, about to push q back
    | Sending(c: Id, msg: Message)     // has the context, about to call skynet_mq_push
    | Creating(q: Id)                  // in the service's init function
    | Releasing(c: Id, then_: Then)    // about to decrement the reference count
    | Deleting(c: Id, then_: Then)     // the count reached 0, about to call skynet_mq_mark_release
    | Marking(q: Id)                   // the release has not deleted the context, about to set ctx->init
    | Launching(q: Id, alive: bool)    // about to push the queue; `alive` if the release has not deleted the context
    | Reporting(q: Id)                 // about to read the context in skynet_error
    | Returned(q: Id)                  // about to read the context's handle in cmd_launch
    | Unregistering(q: Id)

  datatype State = State(services: map<Id, Service>, global: seq<Id>, tasks: map<Tid, Task>)

  function TaskOf(s: State, t: Tid): Task {
    if t in s.tasks then s.tasks[t] else Idle
  }

  /** Resuming after a context has been released. */
  function After(th: Then): Task {
    match th
    case Finish => Idle
    case PopNext => Popping
    case Hold(q) => Holding(q)
    case Launch(q) => Marking(q)
    case Unregister(q) => Unregistering(q)
    case Discard(q) => Discarding(q, false)
  }

  /** The same when the release has deleted the context: skynet_context_release returns NULL. */
  function AfterDelete(th: Then): Task {
    if th.Launch? then Launching(th.q, false) else After(th)
  }

  function AfterQueue(worker: bool): Task {
    if worker then Popping else Idle
  }

  // ------------------------------------------------------------------------------------------------
  // Steps
  // ------------------------------------------------------------------------------------------------

  datatype Step =
    | Create(t: Tid, c: Id)                // skynet_context_new up to init
    | InitOk(t: Tid)
    | InitFail(t: Tid)
    | Grab(t: Tid, c: Id, m: Message)      // skynet_context_push: skynet_handle_grab
    | Push(t: Tid)                         // skynet_mq_push
    | Release(t: Tid)                      // skynet_context_release
    | Delete(t: Tid)                       // delete_context: skynet_mq_mark_release
    | Retire(t: Tid, c: Id)                // skynet_handle_retire
    | RetireOwn(t: Tid)                    // the same, after a failed init
    | Mark(t: Tid)                         // ctx->init = true
    | PushLaunched(t: Tid)                 // skynet_globalmq_push by skynet_context_new
    | Report(t: Tid)                       // skynet_error(ret, ...)
    | ReadHandle(t: Tid)                   // inst->handle in cmd_launch
    | Pop(t: Tid)                          // skynet_globalmq_pop
    | Find(t: Tid)                         // skynet_context_message_dispatch: skynet_handle_grab
    | MqRelease(t: Tid)                    // skynet_mq_release
    | Drop(t: Tid)                         // one round of _drop_queue
    | MqPop(t: Tid)                        // skynet_mq_pop
    | Dispatch(t: Tid, again: bool)        // the callback; `again` if the loop goes on
    | PopOther(t: Tid)                     // skynet_globalmq_pop at the end of a dispatch
    | PushBack(t: Tid)                     // skynet_globalmq_push of the queue just served

  function Put(s: State, c: Id, sv: Service, t: Tid, k: Task): State {
    s.(services := s.services[c := sv], tasks := s.tasks[t := k])
  }

  function PutList(s: State, c: Id, sv: Service, t: Tid, k: Task): State {
    Put(s, c, sv, t, k).(global := s.global + [c])
  }

  predicate Enabled(s: State, st: Step) {
    var k := TaskOf(s, st.t);
    match st
    case Create(t, c) => k.Idle? && c !in s.services
    case InitOk(t) => k.Creating? && k.q in s.services
    case InitFail(t) => k.Creating? && k.q in s.services
    case Grab(t, c, m) => k.Idle? && c in s.services && s.services[c].registered
    case Push(t) => k.Sending? && k.c in s.services
    case Release(t) => k.Releasing? && k.c in s.services
    case Delete(t) => k.Deleting? && k.c in s.services
    case Retire(t, c) => k.Idle? && c in s.services && s.services[c].registered
    case RetireOwn(t) => k.Unregistering? && k.q in s.services
    case Mark(t) => k.Marking? && k.q in s.services
    case PushLaunched(t) => k.Launching? && k.q in s.services
    case Report(t) => k.Reporting? && k.q in s.services
    case ReadHandle(t) => k.Returned? && k.q in s.services
    case Pop(t) => (k.Idle? || k.Popping?) && (s.global != [] ==> s.global[0] in s.services)
    case Find(t) => k.Holding? && k.q in s.services
    case MqRelease(t) => k.Discarding? && k.q in s.services
    case Drop(t) => k.Dropping? && k.q in s.services
    case MqPop(t) => k.Ready? && k.q in s.services
    case Dispatch(t, again) => k.Dispatching? && k.q in s.services
    case PopOther(t) => k.Finished? && k.q in s.services && (s.global != [] ==> s.global[0] in s.services)
    case PushBack(t) => k.Swapping? && k.q in s.services
  }

  function NewService(): Service {
    Service(2, true, true, false, false, [], [], [], [], false)
  }

  function Apply(s: State, st: Step): State
    requires Enabled(s, st)
  {
    var k := TaskOf(s, st.t);
    match st
    case Create(t, c) => Put(s, c, NewService(), t, Creating(c))
    case InitOk(t) => Put(s, k.q, s.services[k.q], t, Releasing(k.q, Launch(k.q)))
    case InitFail(t) => Put(s, k.q, s.services[k.q], t, Releasing(k.q, Unregister(k.q)))
    case Grab(t, c, m) =>
      var sv := s.services[c];
      Put(s, c, sv.(ref := sv.ref + 1), t, Sending(c, m))
    case Push(t) =>
      var sv := s.services[k.c];
      var sv' := sv.(msgs := sv.msgs + [k.msg], pushed := sv.pushed + [k.msg], inGlobal := true);
      if sv.inGlobal then Put(s, k.c, sv', t, Releasing(k.c, Finish))
      else PutList(s, k.c, sv', t, Releasing(k.c, Finish))
    case Release(t) =>
      var sv := s.services[k.c];
      Put(s, k.c, sv.(ref := sv.ref - 1), t, if sv.ref - 1 == 0 then Deleting(k.c, k.then_) else After(k.then_))
    case Delete(t) =>
      var sv := s.services[k.c];
      if sv.inGlobal then Put(s, k.c, sv.(release := true), t, AfterDelete(k.then_))
      else PutList(s, k.c, sv.(release := true), t, AfterDelete(k.then_))
    case Retire(t, c) => Put(s, c, s.services[c].(registered := false), t, Releasing(c, Finish))
    case RetireOwn(t) =>
      var sv := s.services[k.q];
      if sv.registered then Put(s, k.q, sv.(registered := false), t, Releasing(k.q, Discard(k.q)))
      else Put(s, k.q, sv, t, Discarding(k.q, false))
    case Mark(t) => Put(s, k.q, s.services[k.q].(init := true), t, Launching(k.q, true))
    case PushLaunched(t) => PutList(s, k.q, s.services[k.q], t, if k.alive then Reporting(k.q) else Idle)
    case Report(t) => Put(s, k.q, s.services[k.q], t, Returned(k.q))
    case ReadHandle(t) => Put(s, k.q, s.services[k.q], t, Idle)
    case Pop(t) =>
      if s.global == [] then s.(tasks := s.tasks[t := Idle])
      else s.(global := s.global[1..], tasks := s.tasks[t := Holding(s.global[0])])
    case Find(t) =>
      var sv := s.services[k.q];
      if sv.registered then Put(s, k.q, sv.(ref := sv.ref + 1), t, Ready(k.q))
      else Put(s, k.q, sv, t, Discarding(k.q, true))
    case MqRelease(t) =>
      var sv := s.services[k.q];
      if sv.release then Put(s, k.q, sv, t, Dropping(k.q, k.worker)) else PutList(s, k.q, sv, t, AfterQueue(k.worker))
    case Drop(t) =>
      var sv := s.services[k.q];
      if sv.msgs == [] then Put(s, k.q, sv.(inGlobal := false, freed := true), t, AfterQueue(k.worker))
      else Put(s, k.q, sv.(msgs := sv.msgs[1..], dropped := sv.dropped + [sv.msgs[0]]), t, k)
    case MqPop(t) =>
      var sv := s.services[k.q];
      if sv.msgs == [] then Put(s, k.q, sv.(inGlobal := false), t, Releasing(k.q, PopNext))
      else Put(s, k.q, sv.(msgs := sv.msgs[1..]), t, Dispatching(k.q, sv.msgs[0]))
    case Dispatch(t, again) =>
      var sv := s.services[k.q];
      Put(s, k.q, sv.(dispatched := sv.dispatched + [k.msg]), t, if again then Ready(k.q) else Finished(k.q))
    case PopOther(t) =>
      if s.global == [] then s.(tasks := s.tasks[t := Releasing(k.q, Hold(k.q))])
      else s.(global := s.global[1..], tasks := s.tasks[t := Swapping(k.q, s.global[0])])
    case PushBack(t) => PutList(s, k.q, s.services[k.q], t, Releasing(k.q, Hold(k.nq)))
  }

  // ------------------------------------------------------------------------------------------------
  // Who holds what
  // ------------------------------------------------------------------------------------------------

  predicate KeepsThen(th: Then, c: Id) {
    match th
    case Finish => false
    case PopNext => false
    case Hold(q) => q == c
    case Launch(q) => q == c
    case Unregister(q) => q == c
    case Discard(q) => q == c
  }

  /** The thread has exclusive use of the queue of c. */
  predicate Owns(k: Task, c: Id) {
    match k
    case Idle => false
    case Popping => false
    case Holding(q) => q == c
    case Discarding(q, _) => q == c
    case Dropping(q, _) => q == c
    case Ready(q) => q == c
    case Dispatching(q, _) => q == c
    case Finished(q) => q == c
    case Swapping(q, nq) => q == c || nq == c
    case Sending(_, _) => false
    case Creating(q) => q == c
    case Releasing(_, th) => KeepsThen(th, c)
    case Deleting(_, th) => KeepsThen(th, c)
    case Marking(q) => q == c
    case Launching(q, _) => q == c
    case Reporting(_) => false
    case Returned(_) => false
    case Unregistering(q) => q == c
  }

  /** The thread still has to use the context of c, to which it has given up its reference. */
  predicate Touches(k: Task, c: Id) {
    (k.Marking? || (k.Launching? && k.alive) || k.Reporting? || k.Returned?) && k.q == c
  }

  /** The thread has a reference to the context of c. */
  predicate Refers(k: Task, c: Id) {
    match k
    case Ready(q) => q == c
    case Dispatching(q, _) => q == c
    case Finished(q) => q == c
    case Swapping(q, _) => q == c
    case Sending(d, _) => d == c
    case Creating(q) => q == c
    case Releasing(d, _) => d == c
    case _ => false
  }

  predicate Deletes(k: Task, c: Id) {
    k.Deleting? && k.c == c
  }

  ghost function Owners(s: State, c: Id): set<Tid> { set t | t in s.tasks && Owns(s.tasks[t], c) }

  ghost function Referrers(s: State, c: Id): set<Tid> { set t | t in s.tasks && Refers(s.tasks[t], c) }

  ghost function Deleters(s: State, c: Id): set<Tid> { set t | t in s.tasks && Deletes(s.tasks[t], c) }

  ghost function Droppers(s: State, c: Id): set<Tid> {
    set t | t in s.tasks && s.tasks[t].Dropping? && s.tasks[t].q == c
  }

  /** The messages that threads have taken from the queue of c and are about to dispatch. */
  ghost function Hands(s: State, c: Id): map<Tid, Message> {
    map t | t in s.tasks && s.tasks[t].Dispatching? && s.tasks[t].q == c :: s.tasks[t].msg
  }

  ghost function Listed(global: seq<Id>, c: Id): nat { multiset(global)[c] }

  /** All that concerns one service. */
  datatype View = View(sv: Service, owners: set<Tid>, refs: set<Tid>, dels: set<Tid>, drops: set<Tid>,
                       hands: map<Tid, Message>, listed: nat)

  ghost function ViewOf(s: State, c: Id): View
    requires c in s.services
  {
    View(s.services[c], Owners(s, c), Referrers(s, c), Deleters(s, c), Droppers(s, c), Hands(s, c), Listed(s.global, c))
  }

  /** The invariant, service by service: flags, counts and ownership... */
  ghost predicate Counts(sv: Service, owners: set<Tid>, refs: set<Tid>, dels: set<Tid>, drops: set<Tid>, listed: nat) {
    // the reference count counts the references
    && sv.ref == |refs| + (if sv.registered then 1 else 0)
    // the context is deleted once, when the count reaches 0
    && |dels| == (if sv.ref == 0 && !sv.release then 1 else 0)
    && (sv.release ==> sv.ref == 0)
    // the queue is in the global list, or with one thread, unless it is idle or freed
    && |owners| + listed == (if !sv.freed && (sv.inGlobal || sv.release) then 1 else 0)
    // an idle queue is empty
    && (!sv.inGlobal && !sv.release ==> sv.msgs == [])
    && (sv.freed ==> sv.release && sv.msgs == [])
    && (drops != {} ==> sv.release && !sv.freed)
    && drops <= owners
  }

  /** ...and the messages: none is lost, duplicated or reordered. */
  ghost predicate Story(sv: Service, hands: map<Tid, Message>) {
    && (hands == map[] ==> sv.pushed == sv.dispatched + sv.dropped + sv.msgs)
    && (forall t :: t in hands ==> sv.pushed == sv.dispatched + sv.dropped + ([hands[t]] + sv.msgs))
    && (sv.dropped != [] ==> sv.release)
  }

  ghost predicate Good(v: View) {
    && Counts(v.sv, v.owners, v.refs, v.dels, v.drops, v.listed)
    // a message being dispatched is with the queue's owner, who has a reference
    && v.hands.Keys <= v.owners * v.refs
    && Story(v.sv, v.hands)
  }

  /** A thread names existing services, and never swaps a queue for itself. */
  ghost predicate KnownTask(k: Task, ids: set<Id>) {
    && (forall c :: Owns(k, c) || Refers(k, c) || Deletes(k, c) || Touches(k, c) ==> c in ids)
    && (k.Swapping? ==> k.q != k.nq)
  }

  ghost predicate Known(s: State) {
    && (forall t :: t in s.tasks ==> KnownTask(s.tasks[t], s.services.Keys))
    && (forall c :: c in s.global ==> c in s.services)
  }

  ghost predicate Inv(s: State) {
    Known(s) && forall c :: c in s.services ==> Good(ViewOf(s, c))
  }

  // ------------------------------------------------------------------------------------------------
  // Effects of a step on one service
  // ------------------------------------------------------------------------------------------------

  ghost function With(ts: set<Tid>, t: Tid, present: bool): set<Tid> {
    if present then ts + {t} else ts - {t}
  }

  ghost predicate Drops(k: Task, c: Id) { k.Dropping? && k.q == c }

  ghost predicate Carries(k: Task, c: Id) { k.Dispatching? && k.q == c }

  /** The view of c after thread t has moved to k. */
  ghost function Moved(v: View, t: Tid, k: Task, c: Id, sv: Service, listed: nat): View {
    View(sv, With(v.owners, t, Owns(k, c)), With(v.refs, t, Refers(k, c)), With(v.dels, t, Deletes(k, c)),
         With(v.drops, t, Drops(k, c)), if Carries(k, c) then v.hands[t := k.msg] else v.hands - {t}, listed)
  }

  lemma ViewMoved(s: State, s': State, t: Tid, k: Task, c: Id)
    requires s'.tasks == s.tasks[t := k] && c in s.services && c in s'.services
    ensures ViewOf(s', c) == Moved(ViewOf(s, c), t, k, c, s'.services[c], Listed(s'.global, c))
  {
    hide Owners, Referrers, Deleters, Droppers, Hands, Owns, Refers, Deletes, Drops, Carries, With;
    OwnersMoved(s, s', t, k, c);
    ReferrersMoved(s, s', t, k, c);
    OthersMoved(s, s', t, k, c);
    HandsMoved(s, s', t, k, c);
  }

  lemma OwnersMoved(s: State, s': State, t: Tid, k: Task, c: Id)
    requires s'.tasks == s.tasks[t := k]
    ensures Owners(s', c) == With(Owners(s, c), t, Owns(k, c))
  {
    hide Owns;
  }

  lemma ReferrersMoved(s: State, s': State, t: Tid, k: Task, c: Id)
    requires s'.tasks == s.tasks[t := k]
    ensures Referrers(s', c) == With(Referrers(s, c), t, Refers(k, c))
  {
    hide Refers;
  }

  lemma OthersMoved(s: State, s': State, t: Tid, k: Task, c: Id)
    requires s'.tasks == s.tasks[t := k]
    ensures Deleters(s', c) == With(Deleters(s, c), t, Deletes(k, c))
    ensures Droppers(s', c) == With(Droppers(s, c), t, Drops(k, c))
  {
  }

  lemma HandsMoved(s: State, s': State, t: Tid, k: Task, c: Id)
    requires s'.tasks == s.tasks[t := k]
    ensures Hands(s', c) == if Carries(k, c) then Hands(s, c)[t := k.msg] else Hands(s, c) - {t}
  {
  }

  /** Thread t is in the sets of the view exactly as its task says. */
  ghost predicate Role(v: View, t: Tid, k: Task, c: Id) {
    && (t in v.owners <==> Owns(k, c)) && (t in v.refs <==> Refers(k, c)) && (t in v.dels <==> Deletes(k, c))
    && (t in v.drops <==> Drops(k, c)) && (t in v.hands <==> Carries(k, c))
    && (Carries(k, c) ==> v.hands[t] == k.msg)
  }

  lemma RoleOf(s: State, t: Tid, c: Id)
    requires c in s.services
    ensures Role(ViewOf(s, c), t, TaskOf(s, t), c)
  {
  }

  /** The step is none of c's business. */
  ghost predicate SameRole(k: Task, k': Task, c: Id) {
    && Owns(k, c) == Owns(k', c) && Refers(k, c) == Refers(k', c) && Deletes(k, c) == Deletes(k', c)
    && Drops(k, c) == Drops(k', c) && !Carries(k, c) && !Carries(k', c)
  }

  lemma Unconcerned(s: State, s': State, t: Tid, k': Task, c: Id)
    requires s'.tasks == s.tasks[t := k'] && c in s.services && c in s'.services
    requires s'.services[c] == s.services[c] && Listed(s'.global, c) == Listed(s.global, c)
    requires SameRole(TaskOf(s, t), k', c)
    ensures ViewOf(s', c) == ViewOf(s, c)
  {
    ViewMoved(s, s', t, k', c);
    RoleOf(s, t, c);
    hide ViewOf;
  }

  /** A step that concerns only service c keeps the invariant if it keeps it for c. */
  lemma StepAt(s: State, s': State, t: Tid, k': Task, c: Id)
    requires Inv(s)
    requires s'.tasks == s.tasks[t := k'] && s'.services.Keys == s.services.Keys + {c}
    requires forall d :: d in s.services && d != c ==>
                           s'.services[d] == s.services[d] && Listed(s'.global, d) == Listed(s.global, d)
    requires forall d :: d in s.services && d != c ==> SameRole(TaskOf(s, t), k', d)
    requires KnownTask(k', s'.services.Keys) && forall d :: d in s'.global ==> d in s'.services
    requires Good(ViewOf(s', c))
    ensures Inv(s')
  {
    hide Good, ViewOf, SameRole, Listed;
    forall d | d in s'.services
      ensures Good(ViewOf(s', d))
    {
      if d != c {
        Unconcerned(s, s', t, k', d);
      }
    }
    hide Owns, Refers, Deletes;
    forall u | u in s'.tasks
      ensures KnownTask(s'.tasks[u], s'.services.Keys)
    {
      if u != t {
        assert KnownTask(s.tasks[u], s.services.Keys);
      }
    }
  }

  // ------------------------------------------------------------------------------------------------
  // Each step keeps the invariant of the service it concerns
  // ------------------------------------------------------------------------------------------------

  lemma Size(ts: set<Tid>, t: Tid)
    ensures t in ts ==> |ts| >= 1 && |ts - {t}| == |ts| - 1
    ensures t !in ts ==> |ts + {t}| == |ts| + 1
  {
  }

  lemma OnlyOne(ts: set<Tid>, t: Tid)
    requires t in ts && |ts| <= 1
    ensures ts == {t}
  {
    assert |ts - {t}| == 0;
  }

  /** The view when the thread's part in c stays as it was, except as given. */
  lemma Stays(v: View, t: Tid, k: Task, k': Task, c: Id)
    requires Role(v, t, k, c)
    ensures Owns(k, c) == Owns(k', c) ==> With(v.owners, t, Owns(k', c)) == v.owners
    ensures Refers(k, c) == Refers(k', c) ==> With(v.refs, t, Refers(k', c)) == v.refs
    ensures Deletes(k, c) == Deletes(k', c) ==> With(v.dels, t, Deletes(k', c)) == v.dels
    ensures Drops(k, c) == Drops(k', c) ==> With(v.drops, t, Drops(k', c)) == v.drops
    ensures !Carries(k, c) ==> v.hands - {t} == v.hands
  {
    hide Owns, Refers, Deletes, Drops, Carries;
  }

  lemma StorySame(sv: Service, sv': Service, hands: map<Tid, Message>)
    requires Story(sv, hands) && (sv.release ==> sv'.release)
    requires sv'.msgs == sv.msgs && sv'.pushed == sv.pushed
    requires sv'.dispatched == sv.dispatched && sv'.dropped == sv.dropped
    ensures Story(sv', hands)
  {
  }

  /** Taking a reference: skynet_handle_grab. */
  lemma GoodGrab(v: View, t: Tid, k: Task, k': Task, c: Id)
    requires Good(v) && Role(v, t, k, c) && v.sv.registered
    requires (k.Idle? && k'.Sending? && k'.c == c) || (k == Holding(c) && k' == Ready(c))
    ensures Good(Moved(v, t, k', c, v.sv.(ref := v.sv.ref + 1), v.listed))
  {
    Stays(v, t, k, k', c);
    Size(v.refs, t);
    var v' := Moved(v, t, k', c, v.sv.(ref := v.sv.ref + 1), v.listed);
    assert v' == v.(sv := v'.sv, refs := v.refs + {t});
    StorySame(v.sv, v'.sv, v.hands);
    hide Story, Role, Moved, Owns, Refers;
  }

  /** Appending a message: skynet_mq_push. */
  lemma GoodPush(v: View, t: Tid, c: Id, m: Message)
    requires Good(v) && Role(v, t, Sending(c, m), c)
    ensures var sv' := v.sv.(msgs := v.sv.msgs + [m], pushed := v.sv.pushed + [m], inGlobal := true);
            Good(Moved(v, t, Releasing(c, Finish), c, sv', if v.sv.inGlobal then v.listed else v.listed + 1))
  {
    Stays(v, t, Sending(c, m), Releasing(c, Finish), c);
    Size(v.refs, t);
    var sv' := v.sv.(msgs := v.sv.msgs + [m], pushed := v.sv.pushed + [m], inGlobal := true);
    StoryPush(v.sv, v.hands, m);
    var v' := Moved(v, t, Releasing(c, Finish), c, sv', if v.sv.inGlobal then v.listed else v.listed + 1);
    assert v' == v.(sv := sv', listed := v'.listed);
    hide Story;
  }

  lemma StoryPush(sv: Service, hands: map<Tid, Message>, m: Message)
    requires Story(sv, hands)
    ensures Story(sv.(msgs := sv.msgs + [m], pushed := sv.pushed + [m], inGlobal := true), hands)
  {
    var d := sv.dispatched + sv.dropped;
    assert d + (sv.msgs + [m]) == d + sv.msgs + [m];
    forall u | u in hands
      ensures sv.pushed + [m] == d + ([hands[u]] + (sv.msgs + [m]))
    {
      assert [hands[u]] + (sv.msgs + [m]) == [hands[u]] + sv.msgs + [m];
      assert d + ([hands[u]] + sv.msgs + [m]) == d + ([hands[u]] + sv.msgs) + [m];
    }
  }

  lemma AfterRole(th: Then, c: Id)
    ensures Owns(After(th), c) == Owns(AfterDelete(th), c) == KeepsThen(th, c)
    ensures !Refers(After(th), c) && !Deletes(After(th), c) && !Drops(After(th), c) && !Carries(After(th), c)
    ensures !Refers(AfterDelete(th), c) && !Deletes(AfterDelete(th), c)
    ensures !Drops(AfterDelete(th), c) && !Carries(AfterDelete(th), c)
    ensures Touches(After(th), c) || Touches(AfterDelete(th), c) ==> KeepsThen(th, c)
  {
  }

  /** Giving a reference up: skynet_context_release. */
  lemma GoodRelease(v: View, t: Tid, c: Id, th: Then)
    requires Good(v) && Role(v, t, Releasing(c, th), c)
    ensures Good(Moved(v, t, if v.sv.ref - 1 == 0 then Deleting(c, th) else After(th), c,
                       v.sv.(ref := v.sv.ref - 1), v.listed))
  {
    hide After, KeepsThen, Story, Counts, Role, Owns, Refers, Deletes, Drops, Carries, Moved;
    var k' := if v.sv.ref - 1 == 0 then Deleting(c, th) else After(th);
    var sv' := v.sv.(ref := v.sv.ref - 1);
    MovedRelease(v, t, c, th, sv');
    CountsRelease(v, t);
    StorySame(v.sv, sv', v.hands);
  }

  lemma MovedRelease(v: View, t: Tid, c: Id, th: Then, sv': Service)
    requires Role(v, t, Releasing(c, th), c) && sv'.ref == v.sv.ref - 1
    ensures t in v.refs && t !in v.dels && t !in v.hands
    ensures Moved(v, t, if sv'.ref == 0 then Deleting(c, th) else After(th), c, sv', v.listed) ==
            v.(sv := sv', refs := v.refs - {t}, dels := if sv'.ref == 0 then v.dels + {t} else v.dels)
  {
    AfterRole(th, c);
    hide After, KeepsThen;
    Stays(v, t, Releasing(c, th), if sv'.ref == 0 then Deleting(c, th) else After(th), c);
  }

  lemma CountsRelease(v: View, t: Tid)
    requires Counts(v.sv, v.owners, v.refs, v.dels, v.drops, v.listed) && t in v.refs && t !in v.dels
    ensures var sv' := v.sv.(ref := v.sv.ref - 1);
            Counts(sv', v.owners, v.refs - {t}, if sv'.ref == 0 then v.dels + {t} else v.dels, v.drops, v.listed)
  {
    Size(v.refs, t);
    Size(v.dels, t);
  }

  /** Marking the queue for release: delete_context. */
  lemma GoodDelete(v: View, t: Tid, c: Id, th: Then)
    requires Good(v) && Role(v, t, Deleting(c, th), c)
    ensures Good(Moved(v, t, AfterDelete(th), c, v.sv.(release := true),
                       if v.sv.inGlobal then v.listed else v.listed + 1))
  {
    AfterRole(th, c);
    hide After, AfterDelete, KeepsThen;
    Stays(v, t, Deleting(c, th), AfterDelete(th), c);
    Size(v.dels, t);
    var v' := Moved(v, t, AfterDelete(th), c, v.sv.(release := true), if v.sv.inGlobal then v.listed else v.listed + 1);
    assert v' == v.(sv := v'.sv, dels := v.dels - {t}, listed := v'.listed);
    StorySame(v.sv, v'.sv, v.hands);
    hide Story, Role, Moved, Owns, Refers;
  }

  /** Taking over the handle table's reference: skynet_handle_retire. */
  lemma GoodRetire(v: View, t: Tid, k: Task, c: Id)
    requires Good(v) && Role(v, t, k, c) && v.sv.registered && (k == Idle || k == Unregistering(c))
    ensures Good(Moved(v, t, Releasing(c, if k == Idle then Finish else Discard(c)), c,
                       v.sv.(registered := false), v.listed))
  {
    var k' := Releasing(c, if k == Idle then Finish else Discard(c));
    Stays(v, t, k, k', c);
    Size(v.refs, t);
    var v' := Moved(v, t, k', c, v.sv.(registered := false), v.listed);
    assert v' == v.(sv := v'.sv, refs := v.refs + {t});
    StorySame(v.sv, v'.sv, v.hands);
    hide Story, Role, Moved, Owns, Refers;
  }

  /** Handing an owned queue to the global list. */
  lemma GoodPushGlobal(v: View, t: Tid, k: Task, k': Task, c: Id)
    requires Good(v) && Role(v, t, k, c) && Owns(k, c) && !Owns(k', c)
    requires Refers(k, c) == Refers(k', c) && Deletes(k, c) == Deletes(k', c)
    requires !Drops(k, c) && !Drops(k', c) && !Carries(k, c) && !Carries(k', c)
    ensures Good(Moved(v, t, k', c, v.sv, v.listed + 1))
  {
    Stays(v, t, k, k', c);
    hide Owns, Refers;
    Size(v.owners, t);
    var v' := Moved(v, t, k', c, v.sv, v.listed + 1);
    assert v' == v.(owners := v.owners - {t}, listed := v.listed + 1);
    assert v.hands.Keys <= v.owners - {t};
  }

  /** Taking a queue from the global list. */
  lemma GoodPopGlobal(v: View, t: Tid, k: Task, k': Task, c: Id)
    requires Good(v) && Role(v, t, k, c) && v.listed >= 1 && !Owns(k, c) && Owns(k', c)
    requires !Refers(k, c) && !Refers(k', c) && !Deletes(k, c) && !Deletes(k', c)
    requires !Drops(k, c) && !Drops(k', c) && !Carries(k, c) && !Carries(k', c)
    ensures Good(Moved(v, t, k', c, v.sv, v.listed - 1))
  {
    Stays(v, t, k, k', c);
    hide Owns, Refers;
    Size(v.owners, t);
    var v' := Moved(v, t, k', c, v.sv, v.listed - 1);
    assert v' == v.(owners := v.owners + {t}, listed := v.listed - 1);
  }

  /** A queue marked for release is dropped by its owner. */
  lemma GoodStartDrop(v: View, t: Tid, c: Id, w: bool)
    requires Good(v) && Role(v, t, Discarding(c, w), c) && v.sv.release
    ensures Good(Moved(v, t, Dropping(c, w), c, v.sv, v.listed))
  {
    Stays(v, t, Discarding(c, w), Dropping(c, w), c);
    Size(v.owners, t);
    assert Moved(v, t, Dropping(c, w), c, v.sv, v.listed) == v.(drops := v.drops + {t});
  }

  /** Dropping one message, or freeing the empty queue: _drop_queue. */
  lemma GoodDrop(v: View, t: Tid, c: Id, w: bool)
    requires Good(v) && Role(v, t, Dropping(c, w), c)
    ensures var sv := v.sv;
            if sv.msgs == [] then Good(Moved(v, t, AfterQueue(w), c, sv.(inGlobal := false, freed := true), v.listed))
            else Good(Moved(v, t, Dropping(c, w), c,
                            sv.(msgs := sv.msgs[1..], dropped := sv.dropped + [sv.msgs[0]]), v.listed))
  {
    Size(v.owners, t);
    OnlyOne(v.owners, t);
    assert v.drops == {t} && v.refs == {} && v.hands == map[];
    Stays(v, t, Dropping(c, w), AfterQueue(w), c);
    Stays(v, t, Dropping(c, w), Dropping(c, w), c);
    var sv := v.sv;
    if sv.msgs == [] {
      var sv' := sv.(inGlobal := false, freed := true);
      assert Moved(v, t, AfterQueue(w), c, sv', v.listed) == v.(sv := sv', owners := {}, drops := {});
    } else {
      var sv' := sv.(msgs := sv.msgs[1..], dropped := sv.dropped + [sv.msgs[0]]);
      assert Moved(v, t, Dropping(c, w), c, sv', v.listed) == v.(sv := sv');
      assert sv.msgs == [sv.msgs[0]] + sv.msgs[1..];
      assert sv.dispatched + (sv.dropped + [sv.msgs[0]]) + sv.msgs[1..] == sv.dispatched + sv.dropped + sv.msgs;
    }
  }

  /** Taking the next message, or finding none: skynet_mq_pop. */
  lemma GoodMqPop(v: View, t: Tid, c: Id)
    requires Good(v) && Role(v, t, Ready(c), c)
    ensures var sv := v.sv;
            if sv.msgs == [] then Good(Moved(v, t, Releasing(c, PopNext), c, sv.(inGlobal := false), v.listed))
            else Good(Moved(v, t, Dispatching(c, sv.msgs[0]), c, sv.(msgs := sv.msgs[1..]), v.listed))
  {
    Size(v.owners, t);
    Size(v.refs, t);
    OnlyOne(v.owners, t);
    assert v.hands.Keys <= {t} && v.hands == map[] && v.drops == {};
    var sv := v.sv;
    if sv.msgs == [] {
      Stays(v, t, Ready(c), Releasing(c, PopNext), c);
      var sv' := sv.(inGlobal := false);
      assert Moved(v, t, Releasing(c, PopNext), c, sv', v.listed) == v.(sv := sv', owners := {});
    } else {
      var k' := Dispatching(c, sv.msgs[0]);
      Stays(v, t, Ready(c), k', c);
      var sv' := sv.(msgs := sv.msgs[1..]);
      assert Moved(v, t, k', c, sv', v.listed) == v.(sv := sv', hands := map[t := sv.msgs[0]]);
      assert [sv.msgs[0]] + sv.msgs[1..] == sv.msgs;
    }
  }

  /** The callback has run. */
  lemma GoodDispatch(v: View, t: Tid, c: Id, m: Message, k': Task)
    requires Good(v) && Role(v, t, Dispatching(c, m), c) && (k' == Ready(c) || k' == Finished(c))
    ensures Good(Moved(v, t, k', c, v.sv.(dispatched := v.sv.dispatched + [m]), v.listed))
  {
    Size(v.owners, t);
    Size(v.refs, t);
    OnlyOne(v.owners, t);
    Stays(v, t, Dispatching(c, m), k', c);
    assert v.hands.Keys <= {t} && v.hands - {t} == map[];
    var sv := v.sv;
    var sv' := sv.(dispatched := sv.dispatched + [m]);
    assert Moved(v, t, k', c, sv', v.listed) == v.(sv := sv', hands := map[]);
    assert sv.dropped == [];
    assert sv.dispatched + [m] + sv.dropped + sv.msgs == sv.dispatched + sv.dropped + ([m] + sv.msgs);
  }

  // ------------------------------------------------------------------------------------------------
  // The invariant holds in every run
  // ------------------------------------------------------------------------------------------------

  lemma ListedPush(g: seq<Id>, c: Id, d: Id)
    ensures Listed(g + [c], d) == Listed(g, d) + if c == d then 1 else 0
  {
  }

  lemma ListedPop(g: seq<Id>, d: Id)
    requires g != []
    ensures Listed(g, d) == Listed(g[1..], d) + if g[0] == d then 1 else 0
  {
    assert g == [g[0]] + g[1..];
  }

  /** A step of thread t to k' that changes service c alone, and leaves the global list. */
  lemma QuietStep(s: State, t: Tid, k': Task, c: Id, sv': Service)
    requires Inv(s) && c in s.services
    requires forall d :: d != c ==> SameRole(TaskOf(s, t), k', d)
    requires KnownTask(k', s.services.Keys)
    requires var v := ViewOf(s, c);
             Role(v, t, TaskOf(s, t), c) ==> Good(Moved(v, t, k', c, sv', v.listed))
    ensures Inv(Put(s, c, sv', t, k'))
  {
    hide Good, SameRole, Moved, ViewOf, KnownTask, Role, Listed, Inv, TaskOf;
    var s' := Put(s, c, sv', t, k');
    SameKeys(s.services, c, sv');
    GlobalKnown(s);
    ViewMoved(s, s', t, k', c);
    RoleOf(s, t, c);
    ListedView(s, c);
    StepAt(s, s', t, k', c);
  }

  lemma SameKeys(m: map<Id, Service>, c: Id, sv: Service)
    requires c in m
    ensures m[c := sv].Keys == m.Keys == m.Keys + {c}
  {
  }

  lemma GlobalKnown(s: State)
    requires Inv(s)
    ensures forall d :: d in s.global ==> d in s.services
  {
  }

  lemma ListedView(s: State, c: Id)
    requires c in s.services
    ensures ViewOf(s, c).listed == Listed(s.global, c) && ViewOf(s, c).sv == s.services[c]
  {
  }

  /** The same, with c appended to the global list. */
  lemma ListingStep(s: State, t: Tid, k': Task, c: Id, sv': Service)
    requires Inv(s) && c in s.services
    requires forall d :: d != c ==> SameRole(TaskOf(s, t), k', d)
    requires KnownTask(k', s.services.Keys)
    requires var v := ViewOf(s, c);
             Role(v, t, TaskOf(s, t), c) ==> Good(Moved(v, t, k', c, sv', v.listed + 1))
    ensures Inv(PutList(s, c, sv', t, k'))
  {
    hide Good, SameRole, Moved, ViewOf, KnownTask, Role, Listed, Inv, TaskOf;
    var s' := PutList(s, c, sv', t, k');
    SameKeys(s.services, c, sv');
    GlobalKnown(s);
    ViewMoved(s, s', t, k', c);
    RoleOf(s, t, c);
    ListedView(s, c);
    forall d { ListedPush(s.global, c, d); }
    StepAt(s, s', t, k', c);
  }

  /** The same, with the head of the global list taken. */
  lemma TakingStep(s: State, s': State, t: Tid, k': Task)
    requires Inv(s) && s.global != []
    requires s' == s.(global := s.global[1..], tasks := s.tasks[t := k'])
    requires forall d :: d != s.global[0] ==> SameRole(TaskOf(s, t), k', d)
    requires KnownTask(k', s.services.Keys)
    requires var c := s.global[0];
             c in s.services && var v := ViewOf(s, c);
             v.listed >= 1 && Role(v, t, TaskOf(s, t), c) ==> Good(Moved(v, t, k', c, v.sv, v.listed - 1))
    ensures Inv(s')
  {
    hide Good, SameRole, Moved, ViewOf, KnownTask, Role, Listed, Inv, TaskOf;
    GlobalKnown(s);
    var c := s.global[0];
    ViewMoved(s, s', t, k', c);
    RoleOf(s, t, c);
    ListedView(s, c);
    forall d { ListedPop(s.global, d); }
    StepAt(s, s', t, k', c);
  }

  /** A step in which every service sees the thread as before. */
  lemma SilentStep(s: State, s': State, t: Tid, k': Task)
    requires Inv(s)
    requires s' == s.(tasks := s.tasks[t := k'])
    requires forall d :: SameRole(TaskOf(s, t), k', d)
    requires KnownTask(k', s.services.Keys)
    ensures Inv(s')
  {
    hide Good, SameRole, ViewOf, KnownTask, Listed;
    forall d | d in s'.services
      ensures Good(ViewOf(s', d))
    {
      Unconcerned(s, s', t, k', d);
    }
  }

  lemma CreateKeeps(s: State, t: Tid, c: Id)
    requires Inv(s) && Enabled(s, Create(t, c))
    ensures Inv(Apply(s, Create(t, c)))
  {
    hide Good, ViewOf, Listed;
    var s' := Apply(s, Create(t, c));
    NewView(s, s', t, c);
    NewGood(t);
    StepAt(s, s', t, Creating(c), c);
  }

  /** Nobody knows a service before it is created. */
  lemma NewView(s: State, s': State, t: Tid, c: Id)
    requires Known(s) && c !in s.services && s' == Put(s, c, NewService(), t, Creating(c)) && TaskOf(s, t) == Idle
    ensures ViewOf(s', c) == View(NewService(), {t}, {t}, {}, {}, map[], 0)
  {
    assert forall u :: u in s.tasks ==> KnownTask(s.tasks[u], s.services.Keys);
    OwnersMoved(s, s', t, Creating(c), c);
    ReferrersMoved(s, s', t, Creating(c), c);
    OthersMoved(s, s', t, Creating(c), c);
    HandsMoved(s, s', t, Creating(c), c);
    Strangers(s, c);
    assert Listed(s'.global, c) == 0;
    hide Owners, Referrers, Deleters, Droppers, Hands;
  }

  lemma Strangers(s: State, c: Id)
    requires Known(s) && c !in s.services
    ensures Owners(s, c) == {} && Referrers(s, c) == {} && Deleters(s, c) == {} && Droppers(s, c) == {}
    ensures Hands(s, c) == map[]
  {
    assert forall u :: u in s.tasks ==> KnownTask(s.tasks[u], s.services.Keys);
    assert forall u :: u in s.tasks ==> !Owns(s.tasks[u], c) && !Refers(s.tasks[u], c);
  }

  lemma NewGood(t: Tid)
    ensures Good(View(NewService(), {t}, {t}, {}, {}, map[], 0))
  {
  }

  lemma SilentKeeps(s: State, st: Step)
    requires Inv(s) && Enabled(s, st)
    requires st.InitOk? || st.InitFail?
    ensures Inv(Apply(s, st))
  {
    hide Good, ViewOf;
    var s' := Apply(s, st);
    assert s'.services == s.services;
    KnownNow(s, st.t);
    SilentStep(s, s', st.t, s'.tasks[st.t]);
  }

  lemma KnownNow(s: State, t: Tid)
    requires Known(s)
    ensures KnownTask(TaskOf(s, t), s.services.Keys)
  {
  }

  lemma GrabKeeps(s: State, st: Step)
    requires Inv(s) && Enabled(s, st) && st.Grab?
    ensures Inv(Apply(s, st))
  {
    hide Good, ViewOf, Moved;
    var c, k' := st.c, Sending(st.c, st.m);
    var sv := s.services[c];
    var v := ViewOf(s, c);
    ListedView(s, c);
    if Role(v, st.t, Idle, c) {
      GoodGrab(v, st.t, Idle, k', c);
    }
    QuietStep(s, st.t, k', c, sv.(ref := sv.ref + 1));
  }

  lemma PushKeeps(s: State, st: Step)
    requires Inv(s) && Enabled(s, st) && st.Push?
    ensures Inv(Apply(s, st))
  {
    hide Good, ViewOf, Moved;
    var t, k := st.t, TaskOf(s, st.t);
    var c, m := k.c, k.msg;
    var sv, v := s.services[c], ViewOf(s, c);
    ListedView(s, c);
    if Role(v, t, k, c) {
      GoodPush(v, t, c, m);
    }
    var sv' := sv.(msgs := sv.msgs + [m], pushed := sv.pushed + [m], inGlobal := true);
    if sv.inGlobal {
      QuietStep(s, t, Releasing(c, Finish), c, sv');
    } else {
      ListingStep(s, t, Releasing(c, Finish), c, sv');
    }
  }

  /** What a thread keeps while it releases a context is what it has afterwards. */
  lemma ThenKnown(s: State, t: Tid)
    requires Known(s)
    ensures var k := TaskOf(s, t);
            k.Releasing? || k.Deleting? ==>
              && KnownTask(After(k.then_), s.services.Keys) && KnownTask(AfterDelete(k.then_), s.services.Keys)
              && (forall d :: d != k.c ==> SameRole(k, After(k.then_), d))
              && (forall d :: d != k.c ==> SameRole(k, AfterDelete(k.then_), d))
              && (k.Releasing? && k.c in s.services ==>
                    KnownTask(Deleting(k.c, k.then_), s.services.Keys)
                    && forall d :: d != k.c ==> SameRole(k, Deleting(k.c, k.then_), d))
  {
    hide After, AfterDelete;
    KnownNow(s, t);
    var k := TaskOf(s, t);
    if k.Releasing? || k.Deleting? {
      forall d { AfterRole(k.then_, d); }
      AfterPlain(k.then_);
    }
  }

  lemma AfterPlain(th: Then)
    ensures !After(th).Swapping? && !AfterDelete(th).Swapping?
  {
  }

  lemma ReleaseKeeps(s: State, st: Step)
    requires Inv(s) && Enabled(s, st) && st.Release?
    ensures Inv(Apply(s, st))
  {
    hide Good, ViewOf, Moved, SameRole, KnownTask, Role, After, AfterDelete;
    var t, k := st.t, TaskOf(s, st.t);
    var c, th := k.c, k.then_;
    var sv, v := s.services[c], ViewOf(s, c);
    ListedView(s, c);
    ThenKnown(s, t);
    if Role(v, t, k, c) {
      GoodRelease(v, t, c, th);
    }
    QuietStep(s, t, if sv.ref - 1 == 0 then Deleting(c, th) else After(th), c, sv.(ref := sv.ref - 1));
  }

  lemma DeleteKeeps(s: State, st: Step)
    requires Inv(s) && Enabled(s, st) && st.Delete?
    ensures Inv(Apply(s, st))
  {
    hide Good, ViewOf, Moved, SameRole, KnownTask, Role, After, AfterDelete;
    var t, k := st.t, TaskOf(s, st.t);
    var c, th := k.c, k.then_;
    var sv, v := s.services[c], ViewOf(s, c);
    ListedView(s, c);
    ThenKnown(s, t);
    if Role(v, t, k, c) {
      GoodDelete(v, t, c, th);
    }
    if sv.inGlobal {
      QuietStep(s, t, AfterDelete(th), c, sv.(release := true));
    } else {
      ListingStep(s, t, AfterDelete(th), c, sv.(release := true));
    }
  }

  lemma RetireKeeps(s: State, st: Step)
    requires Inv(s) && Enabled(s, st) && (st.Retire? || st.RetireOwn?)
    ensures Inv(Apply(s, st))
  {
    hide Good, ViewOf, Moved;
    var t, k := st.t, TaskOf(s, st.t);
    var c := if st.Retire? then st.c else k.q;
    var sv, v := s.services[c], ViewOf(s, c);
    ListedView(s, c);
    KnownNow(s, t);
    if sv.registered {
      if Role(v, t, k, c) {
        GoodRetire(v, t, k, c);
      }
      QuietStep(s, t, Releasing(c, if st.Retire? then Finish else Discard(c)), c, sv.(registered := false));
    } else {
      assert s.services[c := sv] == s.services;
      SilentStep(s, Apply(s, st), t, Discarding(c, false));
    }
  }

  /** Setting ctx->init: the thread keeps the queue. */
  lemma GoodMark(v: View, t: Tid, c: Id)
    requires Good(v) && Role(v, t, Marking(c), c)
    ensures Good(Moved(v, t, Launching(c, true), c, v.sv.(init := true), v.listed))
  {
    Stays(v, t, Marking(c), Launching(c, true), c);
    var sv' := v.sv.(init := true);
    assert Moved(v, t, Launching(c, true), c, sv', v.listed) == v.(sv := sv');
    StorySame(v.sv, sv', v.hands);
  }

  lemma MarkKeeps(s: State, st: Step)
    requires Inv(s) && Enabled(s, st) && (st.Mark? || st.Report? || st.ReadHandle?)
    ensures Inv(Apply(s, st))
  {
    hide Good, ViewOf, Moved;
    var t, k := st.t, TaskOf(s, st.t);
    var c := k.q;
    var sv, v := s.services[c], ViewOf(s, c);
    ListedView(s, c);
    KnownNow(s, t);
    if st.Mark? {
      if Role(v, t, k, c) {
        GoodMark(v, t, c);
      }
      QuietStep(s, t, Launching(c, true), c, sv.(init := true));
    } else {
      assert s.services[c := sv] == s.services;
      SilentStep(s, Apply(s, st), t, if st.Report? then Returned(c) else Idle);
    }
  }

  lemma PushLaunchedKeeps(s: State, st: Step)
    requires Inv(s) && Enabled(s, st) && (st.PushLaunched? || st.PushBack?)
    ensures Inv(Apply(s, st))
  {
    hide Good, ViewOf, Moved;
    var t, k := st.t, TaskOf(s, st.t);
    var c := k.q;
    var k' := if !st.PushLaunched? then Releasing(c, Hold(k.nq)) else if k.alive then Reporting(c) else Idle;
    var sv, v := s.services[c], ViewOf(s, c);
    ListedView(s, c);
    KnownNow(s, t);
    if Role(v, t, k, c) {
      GoodPushGlobal(v, t, k, k', c);
    }
    ListingStep(s, t, k', c, sv);
  }

  lemma PopKeeps(s: State, st: Step)
    requires Inv(s) && Enabled(s, st) && (st.Pop? || st.PopOther?)
    ensures Inv(Apply(s, st))
  {
    hide Good, ViewOf, Moved;
    var t, k := st.t, TaskOf(s, st.t);
    KnownNow(s, t);
    if s.global == [] {
      SilentStep(s, Apply(s, st), t, if st.Pop? then Idle else Releasing(k.q, Hold(k.q)));
    } else {
      var c := s.global[0];
      var v := ViewOf(s, c);
      if st.PopOther? {
        OwnedNotListed(s, t, k.q);
      }
      var k' := if st.Pop? then Holding(c) else Swapping(k.q, c);
      if v.listed >= 1 && Role(v, t, k, c) {
        GoodPopGlobal(v, t, k, k', c);
      }
      TakingStep(s, Apply(s, st), t, k');
    }
  }

  /** A queue that a thread has is not in the global list. */
  lemma OwnedNotListed(s: State, t: Tid, c: Id)
    requires Inv(s) && Owns(TaskOf(s, t), c)
    ensures c !in s.global
  {
    KnownNow(s, t);
    RoleOf(s, t, c);
    var v := ViewOf(s, c);
    assert Good(v);
    Size(v.owners, t);
    assert Listed(s.global, c) == 0;
  }

  lemma FindKeeps(s: State, st: Step)
    requires Inv(s) && Enabled(s, st) && st.Find?
    ensures Inv(Apply(s, st))
  {
    hide Good, ViewOf, Moved;
    var t, k := st.t, TaskOf(s, st.t);
    var c := k.q;
    var sv, v := s.services[c], ViewOf(s, c);
    ListedView(s, c);
    if sv.registered {
      if Role(v, t, k, c) {
        GoodGrab(v, t, k, Ready(c), c);
      }
      QuietStep(s, t, Ready(c), c, sv.(ref := sv.ref + 1));
    } else {
      assert s.services[c := sv] == s.services;
      SilentStep(s, Apply(s, st), t, Discarding(c, true));
    }
  }

  lemma DropKeeps(s: State, st: Step)
    requires Inv(s) && Enabled(s, st) && (st.MqRelease? || st.Drop?)
    ensures Inv(Apply(s, st))
  {
    hide Good, ViewOf, Moved;
    var t, k := st.t, TaskOf(s, st.t);
    var c, w := k.q, k.worker;
    var sv, v := s.services[c], ViewOf(s, c);
    ListedView(s, c);
    if st.Drop? {
      if Role(v, t, k, c) {
        GoodDrop(v, t, c, w);
      }
      if sv.msgs == [] {
        QuietStep(s, t, AfterQueue(w), c, sv.(inGlobal := false, freed := true));
      } else {
        QuietStep(s, t, k, c, sv.(msgs := sv.msgs[1..], dropped := sv.dropped + [sv.msgs[0]]));
      }
    } else if sv.release {
      if Role(v, t, k, c) {
        GoodStartDrop(v, t, c, w);
      }
      QuietStep(s, t, Dropping(c, w), c, sv);
    } else {
      if Role(v, t, k, c) {
        GoodPushGlobal(v, t, k, AfterQueue(w), c);
      }
      ListingStep(s, t, AfterQueue(w), c, sv);
    }
  }

  lemma DispatchKeeps(s: State, st: Step)
    requires Inv(s) && Enabled(s, st) && (st.MqPop? || st.Dispatch?)
    ensures Inv(Apply(s, st))
  {
    if st.Dispatch? {
      CallbackKeeps(s, st);
    } else {
      MqPopKeeps(s, st);
    }
  }

  lemma CallbackKeeps(s: State, st: Step)
    requires Inv(s) && Enabled(s, st) && st.Dispatch?
    ensures Inv(Apply(s, st))
  {
    hide Good, ViewOf, Moved;
    var t, k := st.t, TaskOf(s, st.t);
    var c := k.q;
    var sv, v := s.services[c], ViewOf(s, c);
    ListedView(s, c);
    var k' := if st.again then Ready(c) else Finished(c);
    if Role(v, t, k, c) {
      GoodDispatch(v, t, c, k.msg, k');
    }
    QuietStep(s, t, k', c, sv.(dispatched := sv.dispatched + [k.msg]));
  }

  lemma MqPopKeeps(s: State, st: Step)
    requires Inv(s) && Enabled(s, st) && st.MqPop?
    ensures Inv(Apply(s, st))
  {
    hide Good, ViewOf, Moved;
    var t, k := st.t, TaskOf(s, st.t);
    var c := k.q;
    var sv, v := s.services[c], ViewOf(s, c);
    ListedView(s, c);
    if Role(v, t, k, c) {
      GoodMqPop(v, t, c);
    }
    if sv.msgs == [] {
      QuietStep(s, t, Releasing(c, PopNext), c, sv.(inGlobal := false));
    } else {
      QuietStep(s, t, Dispatching(c, sv.msgs[0]), c, sv.(msgs := sv.msgs[1..]));
    }
  }

  /** Every step of every thread keeps the invariant. */
  lemma StepKeeps(s: State, st: Step)
    requires Inv(s) && Enabled(s, st)
    ensures Inv(Apply(s, st))
  {
    hide Inv, Enabled, Apply;
    match st
    case Create(t, c) => CreateKeeps(s, t, c);
    case InitOk(_) => SilentKeeps(s, st);
    case InitFail(_) => SilentKeeps(s, st);
    case Grab(_, _, _) => GrabKeeps(s, st);
    case Push(_) => PushKeeps(s, st);
    case Release(_) => ReleaseKeeps(s, st);
    case Delete(_) => DeleteKeeps(s, st);
    case Retire(_, _) => RetireKeeps(s, st);
    case RetireOwn(_) => RetireKeeps(s, st);
    case Mark(_) => MarkKeeps(s, st);
    case PushLaunched(_) => PushLaunchedKeeps(s, st);
    case Report(_) => MarkKeeps(s, st);
    case ReadHandle(_) => MarkKeeps(s, st);
    case Pop(_) => PopKeeps(s, st);
    case Find(_) => FindKeeps(s, st);
    case MqRelease(_) => DropKeeps(s, st);
    case Drop(_) => DropKeeps(s, st);
    case MqPop(_) => DispatchKeeps(s, st);
    case Dispatch(_, _) => DispatchKeeps(s, st);
    case PopOther(_) => PopKeeps(s, st);
    case PushBack(_) => PushLaunchedKeeps(s, st);
  }

  /** The state before anything has been launched. */
  const START := State(map[], [], map[])

  /** A run of any length: the states passed through, and the steps taken. */
  ghost predicate IsRun(states: seq<State>, steps: seq<Step>) {
    && |states| == |steps| + 1 && states[0] == START
    && forall i :: 0 <= i < |steps| ==> Enabled(states[i], steps[i]) && states[i + 1] == Apply(states[i], steps[i])
  }

  lemma {:induction false} RunKeeps(states: seq<State>, steps: seq<Step>, i: nat)
    requires IsRun(states, steps) && i < |states|
    ensures Inv(states[i])
  {
    hide Inv, Enabled, Apply;
    if i == 0 {
      StartGood();
    } else {
      RunKeeps(states, steps, i - 1);
      StepKeeps(states[i - 1], steps[i - 1]);
    }
  }

  lemma StartGood()
    ensures Inv(START)
  {
  }

  // ------------------------------------------------------------------------------------------------
  // What that means
  // ------------------------------------------------------------------------------------------------

  /** In every run each queue is with one thread at most, or once in the global list, but not both; so no two threads
      ever dispatch messages of the same service. */
  lemma OneOwner(states: seq<State>, steps: seq<Step>, i: nat, t: Tid, u: Tid, c: Id)
    requires IsRun(states, steps) && i < |states|
    requires Owns(TaskOf(states[i], t), c)
    ensures Owns(TaskOf(states[i], u), c) ==> t == u
    ensures c !in states[i].global
  {
    var s := states[i];
    RunKeeps(states, steps, i);
    OwnedNotListed(s, t, c);
    KnownNow(s, t);
    RoleOf(s, t, c);
    RoleOf(s, u, c);
    OneOf(ViewOf(s, c), t);
  }

  lemma OneOf(v: View, t: Tid)
    requires Good(v) && t in v.owners
    ensures v.owners == {t}
  {
    Size(v.owners, t);
    OnlyOne(v.owners, t);
  }

  /** The global list never holds a queue twice. */
  lemma ListedOnce(states: seq<State>, steps: seq<Step>, i: nat, a: nat, b: nat)
    requires IsRun(states, steps) && i < |states| && a < b < |states[i].global|
    ensures states[i].global[a] != states[i].global[b]
  {
    var s := states[i];
    RunKeeps(states, steps, i);
    var g := s.global;
    Twice(g, a, b);
    assert Good(ViewOf(s, g[a]));
  }

  lemma Twice(g: seq<Id>, a: nat, b: nat)
    requires a < b < |g|
    ensures g[a] == g[b] ==> Listed(g, g[a]) >= 2
  {
    assert g == g[..b] + [g[b]] + g[b + 1..];
    assert g[..b][a] == g[a];
    assert g[a] in multiset(g[..b]);
  }

  /** In every run a queue with messages is in the global list or with a thread: no wake-up is lost. */
  lemma NeverStranded(states: seq<State>, steps: seq<Step>, i: nat, c: Id)
    requires IsRun(states, steps) && i < |states| && c in states[i].services
    requires states[i].services[c].msgs != []
    ensures c in states[i].global || exists t :: t in states[i].tasks && Owns(states[i].tasks[t], c)
  {
    var s := states[i];
    RunKeeps(states, steps, i);
    var v := ViewOf(s, c);
    assert Good(v);
    if c !in s.global {
      assert Listed(s.global, c) == 0;
      var t :| t in v.owners;
    }
  }

  /** In every run the messages accepted by a service are, in the order accepted: those dispatched, then one that a
      thread may be about to dispatch, then those dropped after the context is gone, then those still queued. */
  lemma FirstInFirstOut(states: seq<State>, steps: seq<Step>, i: nat, c: Id)
    requires IsRun(states, steps) && i < |states| && c in states[i].services
    ensures var s := states[i];
            var sv := s.services[c];
            && (sv.dropped != [] ==> sv.release)
            && (forall t :: t in s.tasks && Carries(s.tasks[t], c) ==>
                              sv.pushed == sv.dispatched + [s.tasks[t].msg] + sv.msgs && sv.dropped == [])
            && ((forall t :: t in s.tasks ==> !Carries(s.tasks[t], c)) ==>
                  sv.pushed == sv.dispatched + sv.dropped + sv.msgs)
  {
    var s := states[i];
    RunKeeps(states, steps, i);
    var v := ViewOf(s, c);
    assert Good(v);
    hide IsRun, Inv, Good, Counts;
    Untouched(v);
    forall t | t in s.tasks && Carries(s.tasks[t], c)
      ensures v.sv.pushed == v.sv.dispatched + [s.tasks[t].msg] + v.sv.msgs && v.sv.dropped == []
    {
      InHand(v, t);
    }
  }

  lemma InHand(v: View, t: Tid)
    requires Good(v) && t in v.hands
    ensures v.sv.pushed == v.sv.dispatched + [v.hands[t]] + v.sv.msgs && v.sv.dropped == []
  {
    Size(v.refs, t);
    var sv := v.sv;
    assert sv.dropped == [];
    assert sv.dispatched + sv.dropped + ([v.hands[t]] + sv.msgs) == sv.dispatched + [v.hands[t]] + sv.msgs;
  }

  lemma Untouched(v: View)
    requires Good(v)
    ensures v.sv.dropped != [] ==> v.sv.release
    ensures v.hands == map[] ==> v.sv.pushed == v.sv.dispatched + v.sv.dropped + v.sv.msgs
  {
  }

  /** In every run a context to which a thread has a reference is not deleted, and a queue in use is not freed; the
      count is that of the references. */
  lemma NothingFreedInUse(states: seq<State>, steps: seq<Step>, i: nat, t: Tid, c: Id)
    requires IsRun(states, steps) && i < |states|
    requires var k := TaskOf(states[i], t); Owns(k, c) || Refers(k, c) || Deletes(k, c)
    ensures c in states[i].services
    ensures var sv := states[i].services[c];
            && !sv.freed
            && (Refers(TaskOf(states[i], t), c) ==> !sv.release && sv.ref > 0)
            && (Deletes(TaskOf(states[i], t), c) ==> !sv.release && sv.ref == 0 && Deleters(states[i], c) == {t})
            && sv.ref == |Referrers(states[i], c)| + if sv.registered then 1 else 0
  {
    var s := states[i];
    RunKeeps(states, steps, i);
    KnownNow(s, t);
    RoleOf(s, t, c);
    var v := ViewOf(s, c);
    assert Good(v);
    Size(v.owners, t);
    Size(v.refs, t);
    Size(v.dels, t);
    if Deletes(TaskOf(s, t), c) {
      OnlyOne(v.dels, t);
    }
  }

  /** In every run, skynet_globalmq_push finds the queue outside the list, as its assertion demands. */
  lemma PushAssertion(states: seq<State>, steps: seq<Step>, i: nat, c: Id)
    requires IsRun(states, steps) && i < |steps| && states[i + 1].global == states[i].global + [c]
    ensures c !in states[i].global
  {
    var s, s' := states[i], states[i + 1];
    RunKeeps(states, steps, i + 1);
    hide Enabled, Apply;
    assert s'.global[|s.global|] == c;
    assert Good(ViewOf(s', c));
    ListedPush(s.global, c, c);
    assert Listed(s.global, c) == 0;
  }

  /** Once no thread is active and the list is empty, every accepted message has been dispatched, or dropped because its
      service was gone, and every released queue has been freed. */
  lemma Quiescent(states: seq<State>, steps: seq<Step>, i: nat, c: Id)
    requires IsRun(states, steps) && i < |states| && c in states[i].services
    requires states[i].global == [] && forall t :: t in states[i].tasks ==> states[i].tasks[t] == Idle
    ensures var sv := states[i].services[c];
            && sv.msgs == [] && sv.pushed == sv.dispatched + sv.dropped
            && (sv.release ==> sv.freed) && (!sv.release ==> sv.dropped == [] && sv.registered)
  {
    var s := states[i];
    RunKeeps(states, steps, i);
    var v := ViewOf(s, c);
    assert Good(v);
    assert v.owners == {} && v.refs == {} && v.dels == {} && v.hands == map[];
    assert Listed(s.global, c) == 0;
  }
}
