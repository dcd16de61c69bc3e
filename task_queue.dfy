/** The thread-safe task queue of include/cooper/task_queue.h (class thread_queue).

    The queue is a FIFO with a capacity and a count of outstanding tasks. A
    successful put counts one more task; a get removes an item but leaves the
    count alone; only task_done lowers it. Locking and condition variables are
    not modelled: a blocking operation requires the condition it waits for,
    and the operations other threads perform while a caller waits are an input. */
module TaskQueue {

  /** The largest value of the container's size_type (a 64-bit size_t). */
  const MAX_CAPACITY: nat := 0xFFFF_FFFF_FFFF_FFFF

  /** A value of size_type. */
  type SizeT = n: nat | n <= MAX_CAPACITY

  datatype Option<T> = None | Some(value: T)

  // ---------------------------------------------------------------------
  // The abstract queue and its operations

  /** The whole state of a queue: its items (head first), its capacity and
      its number of outstanding tasks. */
  datatype Queue<T> = Queue(items: seq<T>, cap: SizeT, nTasks: nat)

  /** A put does not have to wait: there is room for one more item. The
      capacity may have been set below the size, so this is not `!=`. */
  predicate HasRoom<T>(q: Queue<T>) {
    |q.items| < q.cap
  }

  /** queue_item: the value goes to the tail and counts as one more task. */
  function Enqueue<T>(q: Queue<T>, v: T): (r: Queue<T>)
    ensures |r.items| == |q.items| + 1
    ensures r.items[..|q.items|] == q.items && r.items[|q.items|] == v
    ensures r.cap == q.cap && r.nTasks == q.nTasks + 1
  {
    q.(items := q.items + [v], nTasks := q.nTasks + 1)
  }

  /** deque_item, state part: the head is removed; the task count stays. */
  function Dequeue<T>(q: Queue<T>): (r: Queue<T>)
    requires q.items != []
    ensures [q.items[0]] + r.items == q.items
    ensures r.cap == q.cap && r.nTasks == q.nTasks
  {
    q.(items := q.items[1..])
  }

  /** task_done: one outstanding task fewer, never below zero. */
  function MarkDone<T>(q: Queue<T>): (r: Queue<T>)
    ensures r.items == q.items && r.cap == q.cap
    ensures q.nTasks > 0 ==> r.nTasks + 1 == q.nTasks
    ensures q.nTasks == 0 ==> r == q
  {
    if q.nTasks == 0 then q else q.(nTasks := q.nTasks - 1)
  }

  /** A non-blocking operation some thread performs on the queue. */
  datatype Op<T> = PutOp(v: T) | GetOp | DoneOp | CapacityOp(cap: SizeT)

  /** The effect of one operation: try_put, try_get, task_done or capacity(n). */
  function Apply<T>(q: Queue<T>, op: Op<T>): (r: Queue<T>)
    ensures r.cap == (if op.CapacityOp? then op.cap else q.cap)
    ensures op.PutOp? ==> (r.items == q.items + [op.v] <==> HasRoom(q)) && (HasRoom(q) || r == q)
    ensures op.GetOp? ==> r.nTasks == q.nTasks && (q.items == [] ==> r == q)
    ensures op.GetOp? && q.items != [] ==> [q.items[0]] + r.items == q.items
    ensures op.DoneOp? || op.CapacityOp? ==> r.items == q.items
  {
    match op
    case PutOp(v) => if HasRoom(q) then Enqueue(q, v) else q
    case GetOp => if q.items != [] then Dequeue(q) else q
    case DoneOp => MarkDone(q)
    case CapacityOp(c) => q.(cap := c)
  }

  /** The queue after the operations, performed in order. */
  function Run<T>(q: Queue<T>, ops: seq<Op<T>>): Queue<T>
    decreases |ops|
  {
    if ops == [] then q else Run(Apply(q, ops[0]), ops[1..])
  }

  /** The values that the puts among `ops` placed into the queue, in order. */
  function Accepted<T>(q: Queue<T>, ops: seq<Op<T>>): seq<T>
    decreases |ops|
  {
    if ops == [] then []
    else
      (if ops[0].PutOp? && HasRoom(q) then [ops[0].v] else [])
      + Accepted(Apply(q, ops[0]), ops[1..])
  }

  /** The values that the gets among `ops` returned, in order. */
  function Taken<T>(q: Queue<T>, ops: seq<Op<T>>): seq<T>
    decreases |ops|
  {
    if ops == [] then []
    else
      (if ops[0].GetOp? && q.items != [] then [q.items[0]] else [])
      + Taken(Apply(q, ops[0]), ops[1..])
  }

  /** How many task_done calls among `ops` found an outstanding task. */
  function Completed<T>(q: Queue<T>, ops: seq<Op<T>>): nat
    decreases |ops|
  {
    if ops == [] then 0
    else
      (if ops[0].DoneOp? && q.nTasks > 0 then 1 else 0)
      + Completed(Apply(q, ops[0]), ops[1..])
  }

  /** How many task_done calls there are among `ops`. */
  function DoneCalls<T>(ops: seq<Op<T>>): nat {
    if ops == [] then 0 else (if ops[0].DoneOp? then 1 else 0) + DoneCalls(ops[1..])
  }

  /** One operation another thread performs while wait() blocks, and
      whether the waiter wakes (a notify or a spurious wake-up), gets the
      lock back and re-checks its predicate right after it. */
  datatype Step<T> = Step(op: Op<T>, recheck: bool)

  /** The operations of the steps, in order. */
  function Ops<T>(steps: seq<Step<T>>): (ops: seq<Op<T>>)
    ensures |ops| == |steps|
    ensures forall i :: 0 <= i < |steps| ==> ops[i] == steps[i].op
  {
    seq(|steps|, i requires 0 <= i < |steps| => steps[i].op)
  }

  /** wait() returns after the first `j` steps: its predicate is checked
      there (on entry, or after a step that wakes it) and finds no
      outstanding task. */
  predicate WaitReturnsAt<T>(q: Queue<T>, steps: seq<Step<T>>, j: nat)
    requires j <= |steps|
  {
    && Run(q, Ops(steps[..j])).nTasks == 0
    && (j == 0 || steps[j - 1].recheck)
  }

  /** A count that drops to zero and rises again before the waiter gets the
      lock back does not end the wait: with one outstanding task, a
      task_done followed by a put, and the waiter re-checking only after
      the put, wait() has not returned after either step. */
  lemma WaitMissesTransientZero<T>(q: Queue<T>, x: T)
    requires q.nTasks == 1 && HasRoom(q)
    ensures var steps := [Step(DoneOp, false), Step(PutOp(x), true)];
            && Run(q, Ops(steps[..1])).nTasks == 0
            && !WaitReturnsAt(q, steps, 0)
            && !WaitReturnsAt(q, steps, 1)
            && !WaitReturnsAt(q, steps, 2)
  {
    var steps := [Step(DoneOp, false), Step(PutOp(x), true)];
    assert Ops(steps[..1]) == [DoneOp];
    assert Ops(steps[..2]) == [DoneOp, PutOp(x)];
    RunSnoc(q, [DoneOp], PutOp(x));
    assert [DoneOp] + [PutOp(x)] == [DoneOp, PutOp(x)];
  }

  /** One try_put per value, in order. */
  function Puts<T>(vs: seq<T>): (ops: seq<Op<T>>)
    ensures |ops| == |vs|
    ensures forall i :: 0 <= i < |vs| ==> ops[i] == PutOp(vs[i])
  {
    seq(|vs|, i requires 0 <= i < |vs| => PutOp(vs[i]))
  }

  // ---------------------------------------------------------------------
  // Properties of the abstract queue

  /** Running one more operation is applying it to the state reached so far. */
  lemma {:induction false} RunSnoc<T>(q: Queue<T>, ops: seq<Op<T>>, op: Op<T>)
    ensures Run(q, ops + [op]) == Apply(Run(q, ops), op)
    decreases |ops|
  {
    if ops != [] {
      assert (ops + [op])[1..] == ops[1..] + [op];
      RunSnoc(Apply(q, ops[0]), ops[1..], op);
    }
  }

  /** FIFO: what the gets returned followed by what is still queued is
      exactly what was queued at the start followed by what the puts added. */
  lemma {:induction false} Fifo<T>(q: Queue<T>, ops: seq<Op<T>>)
    ensures Taken(q, ops) + Run(q, ops).items == q.items + Accepted(q, ops)
    decreases |ops|
  {
    if ops != [] {
      var q' := Apply(q, ops[0]);
      Fifo(q', ops[1..]);
      var rest := Taken(q', ops[1..]);
      var added := Accepted(q', ops[1..]);
      if ops[0].PutOp? && HasRoom(q) {
        assert Taken(q, ops) == rest;
        assert Accepted(q, ops) == [ops[0].v] + added;
        assert q'.items == q.items + [ops[0].v];
        assert q.items + ([ops[0].v] + added) == (q.items + [ops[0].v]) + added;
      } else if ops[0].GetOp? && q.items != [] {
        assert Taken(q, ops) == [q.items[0]] + rest;
        assert Accepted(q, ops) == added;
        assert q.items == [q.items[0]] + q'.items;
        assert [q.items[0]] + rest + Run(q', ops[1..]).items
            == [q.items[0]] + (rest + Run(q', ops[1..]).items);
      } else {
        assert Taken(q, ops) == rest;
        assert Accepted(q, ops) == added;
        assert q'.items == q.items;
      }
    }
  }

  /** Gets return values in exactly the order in which they were queued. */
  lemma TakenInPutOrder<T>(q: Queue<T>, ops: seq<Op<T>>)
    ensures Taken(q, ops) <= q.items + Accepted(q, ops)
  {
    Fifo(q, ops);
  }

  /** Task accounting: every accepted put adds one outstanding task, every
      task_done that finds one removes it, and nothing else changes the count;
      task_done calls that found none were no-ops. */
  lemma {:induction false} TaskAccounting<T>(q: Queue<T>, ops: seq<Op<T>>)
    ensures Run(q, ops).nTasks == q.nTasks + |Accepted(q, ops)| - Completed(q, ops)
    ensures Completed(q, ops) <= DoneCalls(ops)
    decreases |ops|
  {
    if ops != [] {
      TaskAccounting(Apply(q, ops[0]), ops[1..]);
    }
  }

  /** Puts into a queue with room for all of them are all accepted. */
  lemma {:induction false} PutsFill<T>(q: Queue<T>, vs: seq<T>)
    requires |q.items| + |vs| <= q.cap
    ensures Run(q, Puts(vs)) == Queue(q.items + vs, q.cap, q.nTasks + |vs|)
    ensures Accepted(q, Puts(vs)) == vs
    decreases |vs|
  {
    if vs != [] {
      var q' := Enqueue(q, vs[0]);
      assert Puts(vs)[1..] == Puts(vs[1..]);
      PutsFill(q', vs[1..]);
      assert q.items + vs == q'.items + vs[1..];
    } else {
      assert Puts(vs) == [];
    }
  }

  /** Backpressure: a queue of capacity n accepts n puts, refuses the next
      one, and has room again after one get. */
  lemma Backpressure<T>(n: SizeT, vs: seq<T>)
    requires |vs| == n && n > 0
    ensures var full := Run(Queue([], n, 0), Puts(vs));
            && Accepted(Queue([], n, 0), Puts(vs)) == vs
            && full == Queue(vs, n, n)
            && !HasRoom(full)
            && Apply(full, GetOp) == Queue(vs[1..], n, n)
            && HasRoom(Apply(full, GetOp))
  {
    PutsFill(Queue([], n, 0), vs);
  }

  /** After the capacity is set at or below the size, no put succeeds and
      the items stay as they are until a get or a new capacity. */
  lemma {:induction false} ShrunkCapacityRefusesPuts<T>(q: Queue<T>, ops: seq<Op<T>>)
    requires q.cap <= |q.items|
    requires forall i :: 0 <= i < |ops| ==> ops[i].PutOp? || ops[i].DoneOp?
    ensures Accepted(q, ops) == []
    ensures Run(q, ops).items == q.items && Run(q, ops).cap == q.cap
    decreases |ops|
  {
    if ops != [] {
      ShrunkCapacityRefusesPuts(Apply(q, ops[0]), ops[1..]);
    }
  }

  // ---------------------------------------------------------------------
  // The "not full" wake-up of deque_item

  /** deque_item signals "not full" when the count its caller hands it
      equals the capacity. */
  predicate SignalsNotFull(n: nat, cap: SizeT) {
    n == cap
  }

  /** Removing the head of `q` opens a slot for a put blocked on a full queue. */
  predicate OpensSlot<T>(q: Queue<T>)
    requires q.items != []
  {
    !HasRoom(q) && HasRoom(Dequeue(q))
  }

  /** get() as written: it reads the size on entry, waits while the queue is
      empty (other threads meanwhile bring it to `woke`), and hands the size
      read on entry to deque_item. */
  function GetSignalsAsWritten<T>(entry: Queue<T>, woke: Queue<T>): (signals: bool)
    requires woke.items != []
    ensures entry.items == [] && woke.cap > 0 ==> !signals
    ensures |entry.items| == |woke.items| && woke.cap == entry.cap ==> (signals <==> OpensSlot(woke))
  {
    SignalsNotFull(|entry.items|, woke.cap)
  }

  /** A consumer waits on an empty queue of capacity 1; one put fills it
      (a second put now blocks on "not full"); the consumer's removal opens
      the slot, yet as written deque_item sends no wake-up. */
  lemma GetAfterWaitMissesWakeup<T>(x: T)
    ensures var entry := Queue([], 1, 0);
            var woke := Run(entry, [PutOp(x)]);
            && woke.items == [x]
            && OpensSlot(woke)
            && !GetSignalsAsWritten(entry, woke)
  {
  }

  /** get() handing deque_item the size at removal, as deque_item documents:
      it signals exactly when the removal opens a slot. */
  function GetSignals<T>(woke: Queue<T>): (signals: bool)
    requires woke.items != []
    ensures signals <==> OpensSlot(woke)
  {
    SignalsNotFull(|woke.items|, woke.cap)
  }

  // ---------------------------------------------------------------------
  // The queue object

  /** thread_queue<T>: the state that the source keeps under its lock. */
  class ThreadQueue<T> {
    var items: seq<T>
    var cap: SizeT
    var nTasks: nat

    /** The abstract value of the object. */
    ghost function State(): Queue<T>
      reads this
    {
      Queue(items, cap, nTasks)
    }

    /** The default constructor: empty, no tasks, the largest capacity. */
    constructor Default()
      ensures State() == Queue([], MAX_CAPACITY, 0)
    {
      items := [];
      cap := MAX_CAPACITY;
      nTasks := 0;
    }

    /** The sized constructor: empty, no tasks, the given capacity. */
    constructor (cap: SizeT)
      ensures State() == Queue([], cap, 0)
    {
      items := [];
      this.cap := cap;
      nTasks := 0;
    }

    /** queue_item: unconditional insert at the tail, one more task. */
    method QueueItem(v: T)
      modifies this
      ensures items == old(items) + [v]
      ensures nTasks == old(nTasks) + 1
      ensures cap == old(cap)
    {
      items := items + [v];
      nTasks := nTasks + 1;
    }

    /** deque_item: unconditional removal of the head; the task count stays.
        `wakesPutter` says whether it signals "not full", judged by the size
        at removal (see GetSignals). */
    method DequeItem() returns (v: T, wakesPutter: bool)
      requires items != []
      modifies this
      ensures v == old(items)[0]
      ensures items == old(items)[1..]
      ensures nTasks == old(nTasks) && cap == old(cap)
      ensures wakesPutter == GetSignals(old(State()))
    {
      var n := |items|;
      v := items[0];
      items := items[1..];
      wakesPutter := SignalsNotFull(n, cap);
    }

    method Empty() returns (e: bool)
      ensures e <==> items == []
    {
      e := items == [];
    }

    method Capacity() returns (c: SizeT)
      ensures c == cap
    {
      c := cap;
    }

    /** capacity(n): may go below the current size; the items stay. */
    method SetCapacity(c: SizeT)
      modifies this
      ensures cap == c
      ensures items == old(items) && nTasks == old(nTasks)
    {
      cap := c;
    }

    method Size() returns (n: nat)
      ensures n == |items|
    {
      n := |items|;
    }

    method NumTasks() returns (n: nat)
      ensures n == nTasks
    {
      n := nTasks;
    }

    /** put: waits until the size is below the capacity, then queues. */
    method Put(v: T)
      requires |items| < cap
      modifies this
      ensures items == old(items) + [v]
      ensures nTasks == old(nTasks) + 1
      ensures cap == old(cap)
    {
      QueueItem(v);
    }

    /** try_put: queues only if the size is below the capacity right now. */
    method TryPut(v: T) returns (ok: bool)
      modifies this
      ensures ok <==> |old(items)| < old(cap)
      ensures items == if ok then old(items) + [v] else old(items)
      ensures nTasks == if ok then old(nTasks) + 1 else old(nTasks)
      ensures cap == old(cap)
    {
      var n := |items|;
      if n >= cap {
        return false;
      }
      QueueItem(v);
      ok := true;
    }

    /** try_put_for: with no other thread to make room during the wait, a
        full queue times out and the call is the same as try_put. */
    method TryPutFor(v: T, relTime: int) returns (ok: bool)
      modifies this
      ensures State() == Apply(old(State()), PutOp(v))
      ensures ok <==> |old(items)| < old(cap)
    {
      ok := TryPut(v);
    }

    /** try_put_until: as try_put_for, with an absolute deadline. */
    method TryPutUntil(v: T, absTime: int) returns (ok: bool)
      modifies this
      ensures State() == Apply(old(State()), PutOp(v))
      ensures ok <==> |old(items)| < old(cap)
    {
      ok := TryPut(v);
    }

    /** get: waits until the queue is not empty, then removes the head. */
    method Get() returns (v: T)
      requires items != []
      modifies this
      ensures v == old(items)[0]
      ensures items == old(items)[1..]
      ensures nTasks == old(nTasks) && cap == old(cap)
    {
      var wakesPutter;
      v, wakesPutter := DequeItem();
    }

    /** try_get: the head if there is one; an empty queue is left alone. */
    method TryGet() returns (r: Option<T>)
      modifies this
      ensures r.Some? <==> old(items) != []
      ensures r.Some? ==> r.value == old(items)[0] && items == old(items)[1..]
      ensures r.None? ==> items == old(items)
      ensures nTasks == old(nTasks) && cap == old(cap)
    {
      var n := |items|;
      if n == 0 {
        return None;
      }
      var v, wakesPutter := DequeItem();
      r := Some(v);
    }

    /** try_get_for: with no other thread to put during the wait, an empty
        queue times out and the call is the same as try_get. */
    method TryGetFor(relTime: int) returns (r: Option<T>)
      modifies this
      ensures State() == Apply(old(State()), GetOp)
      ensures r.Some? <==> old(items) != []
      ensures r.Some? ==> r.value == old(items)[0]
    {
      r := TryGet();
    }

    /** try_get_until: as try_get_for, with an absolute deadline. */
    method TryGetUntil(absTime: int) returns (r: Option<T>)
      modifies this
      ensures State() == Apply(old(State()), GetOp)
      ensures r.Some? <==> old(items) != []
      ensures r.Some? ==> r.value == old(items)[0]
    {
      r := TryGet();
    }

    /** task_done: one outstanding task fewer; a no-op at zero. */
    method TaskDone()
      modifies this
      ensures nTasks == if old(nTasks) == 0 then 0 else old(nTasks) - 1
      ensures items == old(items) && cap == old(cap)
    {
      if nTasks == 0 {
        return;
      }
      nTasks := nTasks - 1;
    }

    /** One operation of another thread, through the methods above. */
    method Perform(op: Op<T>)
      modifies this
      ensures State() == Apply(old(State()), op)
    {
      match op
      case PutOp(v) =>
        var _ := TryPut(v);
      case GetOp =>
        var _ := TryGet();
      case DoneOp =>
        TaskDone();
      case CapacityOp(c) =>
        SetCapacity(c);
    }

    /** wait: blocks until there are no outstanding tasks. `others` are the
        operations other threads perform while it blocks, in order, each
        with whether the waiter re-acquires the lock and re-checks
        `nTasks == 0` right after it. task_done releases the lock before it
        notifies, so another thread's put can raise the count again before
        the waiter looks. `done` is false when `others` ran out before a
        check found the count zero: the caller is still waiting. */
    method Wait(others: seq<Step<T>>) returns (done: bool, used: nat)
      modifies this
      ensures used <= |others|
      ensures State() == Run(old(State()), Ops(others[..used]))
      ensures done <==> WaitReturnsAt(old(State()), others, used)
      ensures done || used == |others|
      ensures forall j :: 0 <= j < used ==> !WaitReturnsAt(old(State()), others, j)
    {
      used := 0;
      done := nTasks == 0;
      while !done && used < |others|
        invariant used <= |others|
        invariant State() == Run(old(State()), Ops(others[..used]))
        invariant done <==> WaitReturnsAt(old(State()), others, used)
        invariant forall j :: 0 <= j < used ==> !WaitReturnsAt(old(State()), others, j)
        decreases |others| - used
      {
        RunSnoc(old(State()), Ops(others[..used]), others[used].op);
        assert Ops(others[..used + 1]) == Ops(others[..used]) + [others[used].op];
        Perform(others[used].op);
        used := used + 1;
        done := nTasks == 0 && others[used - 1].recheck;
      }
    }
  }
}
