/** The order in which queues leave the global list, and where the messages of a service come from, over whole runs. */
module SchedulerHistory {
  import opened Scheduler

  // ------------------------------------------------------------------------------------------------
  // First in, first out
  // ------------------------------------------------------------------------------------------------

  /** The queue that a step hands to skynet_globalmq_push, by the rule of each caller. */
  function Listings(s: State, st: Step): seq<Id>
    requires Enabled(s, st)
  {
    var k := TaskOf(s, st.t);
    match st
    case Push(_) => if s.services[k.c].inGlobal then [] else [k.c]
    case Delete(_) => if s.services[k.c].inGlobal then [] else [k.c]
    case PushLaunched(_) => [k.q]
    case MqRelease(_) => if s.services[k.q].release then [] else [k.q]
    case PushBack(_) => [k.q]
    case _ => []
  }

  /** The queue that a thread has from skynet_globalmq_pop, read off where it is afterwards. */
  function Gains(st: Step, k': Task): seq<Id> {
    if st.Pop? && k'.Holding? then [k'.q] else if st.PopOther? && k'.Swapping? then [k'.nq] else []
  }

  /** All queues pushed to the list in the first n steps, in order... */
  ghost function Pushes(states: seq<State>, steps: seq<Step>, n: nat): seq<Id>
    requires IsRun(states, steps) && n <= |steps|
  {
    if n == 0 then [] else Pushes(states, steps, n - 1) + Listings(states[n - 1], steps[n - 1])
  }

  /** ...and all taken from it. */
  ghost function Pops(states: seq<State>, steps: seq<Step>, n: nat): seq<Id>
    requires IsRun(states, steps) && n <= |steps|
  {
    if n == 0 then [] else Pops(states, steps, n - 1) + Gains(steps[n - 1], TaskOf(states[n], steps[n - 1].t))
  }

  lemma OneInOut(s: State, st: Step)
    requires Enabled(s, st)
    ensures s.global + Listings(s, st) == Gains(st, TaskOf(Apply(s, st), st.t)) + Apply(s, st).global
  {
  }

  /** In every run the queues pushed to the global list are, in order, those taken from it and those still in it. */
  lemma {:induction false} QueueOrder(states: seq<State>, steps: seq<Step>, n: nat)
    requires IsRun(states, steps) && n <= |steps|
    ensures Pushes(states, steps, n) == Pops(states, steps, n) + states[n].global
  {
    hide Enabled, Apply, Listings, Gains;
    if n > 0 {
      QueueOrder(states, steps, n - 1);
      var s, st := states[n - 1], steps[n - 1];
      OneInOut(s, st);
      var taken, got := Pops(states, steps, n - 1), Gains(st, TaskOf(states[n], st.t));
      assert taken + s.global + Listings(s, st) == taken + (s.global + Listings(s, st));
      assert taken + (got + states[n].global) == taken + got + states[n].global;
    }
  }

  /** A thread that pops a list that is not empty gets a queue, and the list loses its head. */
  lemma PopTakes(states: seq<State>, steps: seq<Step>, i: nat)
    requires IsRun(states, steps) && i < |steps| && (steps[i].Pop? || steps[i].PopOther?)
    ensures var g, t := states[i].global, steps[i].t;
            if g == [] then states[i + 1].global == [] && Gains(steps[i], TaskOf(states[i + 1], t)) == []
            else Gains(steps[i], TaskOf(states[i + 1], t)) == [g[0]] && states[i + 1].global == g[1..]
  {
  }

  // ------------------------------------------------------------------------------------------------
  // Where messages come from and go to
  // ------------------------------------------------------------------------------------------------

  /** The message that a step puts into the queue of c. */
  function Puts(s: State, st: Step, c: Id): seq<Message> {
    var k := TaskOf(s, st.t);
    if st.Push? && k.Sending? && k.c == c then [k.msg] else []
  }

  /** The message that a step gives to the callback of c. */
  function Runs(s: State, st: Step, c: Id): seq<Message> {
    var k := TaskOf(s, st.t);
    if st.Dispatch? && k.Dispatching? && k.q == c then [k.msg] else []
  }

  ghost function AllPut(states: seq<State>, steps: seq<Step>, n: nat, c: Id): seq<Message>
    requires IsRun(states, steps) && n <= |steps|
  {
    if n == 0 then [] else AllPut(states, steps, n - 1, c) + Puts(states[n - 1], steps[n - 1], c)
  }

  ghost function AllRun(states: seq<State>, steps: seq<Step>, n: nat, c: Id): seq<Message>
    requires IsRun(states, steps) && n <= |steps|
  {
    if n == 0 then [] else AllRun(states, steps, n - 1, c) + Runs(states[n - 1], steps[n - 1], c)
  }

  lemma OnePushed(s: State, st: Step, c: Id)
    requires Enabled(s, st) && c in s.services
    ensures c in Apply(s, st).services && Apply(s, st).services[c].pushed == s.services[c].pushed + Puts(s, st, c)
  {
  }

  lemma OneRun(s: State, st: Step, c: Id)
    requires Enabled(s, st) && c in s.services
    ensures c in Apply(s, st).services
    ensures Apply(s, st).services[c].dispatched == s.services[c].dispatched + Runs(s, st, c)
  {
  }

  /** A service begins without history. */
  lemma NoneYet(s: State, st: Step, c: Id)
    requires Enabled(s, st) && c !in s.services
    ensures Puts(s, st, c) == [] && Runs(s, st, c) == []
    ensures c in Apply(s, st).services ==>
              Apply(s, st).services[c].pushed == [] && Apply(s, st).services[c].dispatched == []
  {
  }

  /** In every run the history of a service is that of the steps: what was pushed to it is what senders had for it, in
      the order of their pushes, and what it has dispatched is what was given to its callback. */
  lemma {:induction false} Histories(states: seq<State>, steps: seq<Step>, n: nat, c: Id)
    requires IsRun(states, steps) && n <= |steps|
    ensures c in states[n].services ==>
              && states[n].services[c].pushed == AllPut(states, steps, n, c)
              && states[n].services[c].dispatched == AllRun(states, steps, n, c)
    ensures c !in states[n].services ==> AllPut(states, steps, n, c) == [] && AllRun(states, steps, n, c) == []
  {
    hide Enabled, Apply, Puts, Runs;
    if n > 0 {
      Histories(states, steps, n - 1, c);
      if c in states[n - 1].services {
        OnePushed(states[n - 1], steps[n - 1], c);
        OneRun(states[n - 1], steps[n - 1], c);
      } else {
        NoneYet(states[n - 1], steps[n - 1], c);
      }
    }
  }

  /** What a thread is sending is what it set out to send, to the service it looked up. */
  lemma {:induction false} SentAsGrabbed(states: seq<State>, steps: seq<Step>, n: nat, t: Tid, c: Id, m: Message)
      returns (j: nat)
    requires IsRun(states, steps) && n <= |steps| && TaskOf(states[n], t) == Sending(c, m)
    ensures j < n && steps[j] == Grab(t, c, m) && forall i :: j < i < n ==> steps[i].t != t
  {
    hide Enabled, Apply;
    assert n > 0;
    var s, st := states[n - 1], steps[n - 1];
    StartsSending(s, st, t, c, m);
    if st == Grab(t, c, m) {
      j := n - 1;
    } else {
      j := SentAsGrabbed(states, steps, n - 1, t, c, m);
    }
  }

  lemma StartsSending(s: State, st: Step, t: Tid, c: Id, m: Message)
    requires Enabled(s, st) && TaskOf(Apply(s, st), t) == Sending(c, m)
    ensures st == Grab(t, c, m) || (st.t != t && TaskOf(s, t) == Sending(c, m))
  {
  }
}
