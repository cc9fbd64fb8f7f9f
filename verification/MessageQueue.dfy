/** The data structures under the scheduler's locks: the ring buffer of a message queue and the linked global list of
    skynet_mq.c. */
module MessageQueue {
  import opened Scheduler
  import opened Digits

  const DEFAULT_QUEUE_SIZE := 64
  const MQ_OVERLOAD := 1024

  /** The threshold after doubling it as often as a queue of this length needs. */
  function Doubled(threshold: nat, length: nat): (r: nat)
    requires threshold > 0
    ensures r >= length && r >= threshold
    ensures r > threshold ==> r < 2 * length
    decreases if length > threshold then length - threshold else 0
  {
    if length > threshold then Doubled(threshold * 2, length) else threshold
  }

  /** The elements from head to tail of a ring. */
  function Ring<T>(q: seq<T>, head: nat, tail: nat): seq<T>
    requires head <= |q| && tail <= |q|
  {
    if head <= tail then q[head..tail] else q[head..] + q[..tail]
  }

  lemma Wrapped(head: nat, i: nat, cap: nat)
    requires head < cap && i < cap
    ensures (head + i) % cap == if head + i < cap then head + i else head + i - cap
  {
    if head + i < cap {
      SmallMod(head + i, cap);
    } else {
      SmallMod(head + i - cap, cap);
      assert (head + i) % cap == (head + i - cap) % cap;
    }
  }

  /** Taking the element at the head. */
  lemma RingPop<T>(q: seq<T>, head: nat, tail: nat)
    requires head < |q| && tail < |q| && head != tail
    ensures Ring(q, head, tail) == [q[head]] + Ring(q, if head + 1 >= |q| then 0 else head + 1, tail)
  {
  }

  /** Writing one element at the tail, in a ring with room for it. */
  lemma RingWrite<T>(q: seq<T>, head: nat, tail: nat, m: T)
    requires head < |q| && tail < |q|
    ensures var q' := q[tail := m];
            var tail' := if tail + 1 >= |q| then 0 else tail + 1;
            if tail' == head then q'[head..] + q'[..head] == Ring(q, head, tail) + [m]
            else Ring(q', head, tail') == Ring(q, head, tail) + [m]
  {
    var q' := q[tail := m];
    if tail + 1 >= |q| {
      assert q'[head..] == q[head..tail] + [m];
      assert q'[..0] == [];
    } else if head <= tail {
      assert q'[head..tail + 1] == q[head..tail] + [m];
    } else {
      assert q'[head..] == q[head..];
      assert q'[..tail + 1] == q[..tail] + [m];
    }
  }

  /** struct message_queue, without the scheduling flags. */
  class Mq {
    var cap: nat
    var head: nat
    var tail: nat
    var overload: nat
    var threshold: nat
    var queue: array<Message>

    ghost predicate Valid()
      reads this, queue
    {
      cap > 0 && queue.Length == cap && head < cap && tail < cap && threshold > 0
    }

    ghost function Contents(): seq<Message>
      requires Valid()
      reads this, queue
    {
      Ring(queue[..], head, tail)
    }

    constructor ()
      ensures Valid() && fresh(queue) && Contents() == []
      ensures overload == 0 && threshold == MQ_OVERLOAD
    {
      cap := DEFAULT_QUEUE_SIZE;
      head := 0;
      tail := 0;
      overload := 0;
      threshold := MQ_OVERLOAD;
      queue := new Message[DEFAULT_QUEUE_SIZE];
    }

    /** skynet_mq_length. */
    method Length() returns (n: nat)
      requires Valid()
      ensures n == |Contents()|
    {
      n := if head <= tail then tail - head else tail + cap - head;
    }

    /** skynet_mq_overload: read and clear. */
    method Overload() returns (n: nat)
      modifies this`overload
      ensures n == old(overload) && overload == 0
    {
      n := overload;
      overload := 0;
    }

    /** skynet_mq_pop: the oldest message, if any; the overload report is the length when it exceeds the threshold. */
    method Pop() returns (empty: bool, m: Message)
      requires Valid()
      modifies this
      ensures Valid() && queue == old(queue)
      ensures empty <==> old(Contents()) == []
      ensures empty ==> Contents() == [] && threshold == MQ_OVERLOAD && overload == old(overload)
      ensures !empty ==> old(Contents()) == [m] + Contents()
      ensures !empty ==> threshold == Doubled(old(threshold), |Contents()|)
      ensures !empty ==> overload == if |Contents()| > old(threshold) then |Contents()| else old(overload)
    {
      if head == tail {
        threshold := MQ_OVERLOAD;
        return true, 0;
      }
      RingPop(queue[..], head, tail);
      empty, m := false, queue[head];
      head := head + 1;
      if head >= cap {
        head := 0;
      }
      Escalate(if head <= tail then tail - head else tail + cap - head);
    }

    /** skynet_mq_pop's loop: report the length and double the threshold until it is high enough. */
    method Escalate(length: nat)
      requires threshold > 0
      modifies `overload, `threshold
      ensures threshold == Doubled(old(threshold), length)
      ensures overload == if length > old(threshold) then length else old(overload)
    {
      while length > threshold
        invariant threshold > 0 && Doubled(threshold, length) == Doubled(old(threshold), length)
        invariant threshold >= old(threshold)
        invariant overload == if threshold > old(threshold) then length else old(overload)
        invariant length <= old(threshold) ==> threshold == old(threshold)
        decreases if length > threshold then length - threshold else 0
      {
        overload := length;
        threshold := threshold * 2;
      }
    }

    /** expand_queue: called on a full ring, whose head has just met its tail. */
    method Expand()
      requires cap > 0 && queue.Length == cap && head == tail < cap && threshold > 0
      modifies this
      ensures Valid() && fresh(queue) && cap == 2 * old(cap)
      ensures Contents() == old(queue[head..] + queue[..head])
      ensures overload == old(overload) && threshold == old(threshold)
    {
      var bigger := new Message[cap * 2];
      ghost var all := queue[head..] + queue[..head];
      for i := 0 to cap
        invariant bigger[..i] == all[..i]
        invariant cap == old(cap) && head == old(head) && queue == old(queue) && queue[..] == old(queue[..])
        invariant overload == old(overload) && threshold == old(threshold) && fresh(bigger)
      {
        Wrapped(head, i, cap);
        bigger[i] := queue[(head + i) % cap];
        assert all[i] == bigger[i];
      }
      head := 0;
      tail := cap;
      cap := cap * 2;
      queue := bigger;
    }

    /** skynet_mq_push. */
    method Push(m: Message)
      requires Valid()
      modifies this, queue
      ensures Valid() && (queue == old(queue) || fresh(queue))
      ensures Contents() == old(Contents()) + [m]
      ensures overload == old(overload) && threshold == old(threshold)
    {
      RingWrite(queue[..], head, tail, m);
      ghost var before := queue[..];
      queue[tail] := m;
      assert queue[..] == before[tail := m];
      tail := tail + 1;
      if tail >= cap {
        tail := 0;
      }
      if head == tail {
        Expand();
      }
    }
  }

  /** struct global_queue and the next links of the queues: first-in first-out. */
  class GlobalQueue {
    var head: int // -1 for NULL
    var tail: int
    var next: map<Id, Id> // a queue without an entry has next == NULL
    ghost var list: seq<Id>

    ghost predicate Valid()
      reads this
    {
      && (forall i, j :: 0 <= i < j < |list| ==> list[i] != list[j])
      && (if list == [] then head == tail == -1 else head == list[0] && tail == list[|list| - 1])
      && (forall i :: 0 <= i < |list| - 1 ==> list[i] in next && next[list[i]] == list[i + 1])
      && (forall q :: q in next ==> q in list && q != list[|list| - 1])
    }

    constructor ()
      ensures Valid() && list == []
    {
      head, tail, next, list := -1, -1, map[], [];
    }

    /** skynet_globalmq_push; the assertion queue->next == NULL holds. */
    method Push(q: Id)
      requires Valid() && q !in list
      modifies this
      ensures Valid() && list == old(list) + [q]
    {
      assert q !in next;
      if tail != -1 {
        next := next[tail := q];
        tail := q;
      } else {
        head, tail := q, q;
      }
      list := list + [q];
    }

    /** skynet_globalmq_pop; -1 for NULL. */
    method Pop() returns (q: int)
      requires Valid()
      modifies this
      ensures Valid()
      ensures if old(list) == [] then q == -1 && list == [] else q == old(list)[0] && list == old(list)[1..]
    {
      q := head;
      if q != -1 {
        if q in next {
          head := next[q];
        } else {
          assert |list| == 1;
          head, tail := -1, -1;
        }
        next := next - {q};
        list := list[1..];
      }
    }
  }
}
