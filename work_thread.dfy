/** The single-thread task executor of include/cooper/work_thread.h and
    src/work_thread.cpp (class work_thread).

    A task is modelled by the identity of its result channel (the future
    that submit returns) and by the outcome its callable produces when run:
    a value, no value, or an exception. The worker thread runs concurrently
    with its clients; here it runs when a client waits for it (call, flush,
    the destructor), which is the only point where its progress is observable. */
module WorkThreads {
  import opened TaskQueue

  /** What a callable produces when the worker invokes it. */
  datatype Outcome = Returned(value: int) | ReturnedVoid | Threw(error: int)

  /** A queued packaged task: the identity of its future and its outcome. */
  datatype Task = Task(id: nat, outcome: Outcome)

  /** The future identities of the tasks, in queue order. */
  function Ids(ts: seq<Task>): (r: seq<nat>)
    ensures |r| == |ts|
    ensures forall i :: 0 <= i < |ts| ==> r[i] == ts[i].id
  {
    if ts == [] then [] else [ts[0].id] + Ids(ts[1..])
  }

  /** The futures' shared states after running the tasks in order: each
      task stores its value or its exception under its own identity. */
  function Record(results: map<nat, Outcome>, ts: seq<Task>): (r: map<nat, Outcome>)
    ensures forall id :: id in r <==> id in results || id in Ids(ts)
    decreases |ts|
  {
    if ts == [] then results else Record(results[ts[0].id := ts[0].outcome], ts[1..])
  }

  /** Running one more task stores its outcome last. */
  lemma {:induction false} RecordLast(results: map<nat, Outcome>, ts: seq<Task>, t: Task)
    ensures Record(results, ts + [t]) == Record(results, ts)[t.id := t.outcome]
    decreases |ts|
  {
    if ts != [] {
      assert (ts + [t])[1..] == ts[1..] + [t];
      RecordLast(results[ts[0].id := ts[0].outcome], ts[1..], t);
    }
  }

  /** The last task run is the one whose outcome its future holds. */
  lemma OwnOutcome(results: map<nat, Outcome>, ts: seq<Task>, t: Task)
    ensures t.id in Record(results, ts + [t])
    ensures Record(results, ts + [t])[t.id] == t.outcome
  {
    RecordLast(results, ts, t);
  }

  /** Every task run has a result, and results already present stay
      present. */
  lemma {:induction false} RecordCovers(results: map<nat, Outcome>, ts: seq<Task>)
    ensures forall i :: 0 <= i < |ts| ==> ts[i].id in Record(results, ts)
    ensures results.Keys <= Record(results, ts).Keys
    decreases |ts|
  {
    if ts != [] {
      RecordCovers(results[ts[0].id := ts[0].outcome], ts[1..]);
      forall i | 0 <= i < |ts|
        ensures ts[i].id in Record(results, ts)
      {
        if i > 0 {
          assert ts[i] == ts[1..][i - 1];
        }
      }
    }
  }

  /** Running tasks with other identities leaves a future's state alone. */
  lemma {:induction false} RecordKeepsOthers(results: map<nat, Outcome>, ts: seq<Task>, id: nat)
    requires forall i :: 0 <= i < |ts| ==> ts[i].id != id
    ensures id in Record(results, ts) <==> id in results
    ensures id in results ==> Record(results, ts)[id] == results[id]
    decreases |ts|
  {
    if ts != [] {
      RecordKeepsOthers(results[ts[0].id := ts[0].outcome], ts[1..], id);
    }
  }

  /** work_thread: a queue of tasks, the quit flag, the worker thread's
      status and the results its futures will hold. */
  class WorkThread {
    /** The queue of tasks to perform. */
    const que: ThreadQueue<Task>
    /** Signal to quit the thread. */
    var quit: bool
    /** The worker's loop has ended (the thread can be joined). */
    var exited: bool
    /** The shared states of the futures, by future identity. */
    var results: map<nat, Outcome>
    /** The identity the next submitted task's future receives. */
    var nextId: nat
    /** The identities of the tasks the worker has run, in the order run. */
    ghost var trace: seq<nat>

    /** Every future identity in use, queued or resolved, was handed out. */
    ghost predicate Valid()
      reads this, que
    {
      && (forall i :: 0 <= i < |que.items| ==> que.items[i].id < nextId)
      && (forall id :: id in results ==> id < nextId)
    }

    /** work_thread(): quit is false before the worker starts; the worker
        then waits on the empty queue. */
    constructor ()
      ensures Valid() && fresh(que)
      ensures !quit && !exited
      ensures que.State() == Queue([], MAX_CAPACITY, 0)
      ensures results == map[] && trace == []
    {
      que := new ThreadQueue<Task>.Default();
      quit := false;
      exited := false;
      results := map[];
      nextId := 0;
      trace := [];
    }

    /** queue_capacity(): the queue's capacity. */
    method QueueCapacity() returns (c: SizeT)
      ensures c == que.cap
    {
      c := que.Capacity();
    }

    /** queue_capacity(cap): sets the queue's capacity and nothing else. */
    method SetQueueCapacity(cap: SizeT)
      modifies que
      ensures que.cap == cap
      ensures que.items == old(que.items) && que.nTasks == old(que.nTasks)
    {
      que.SetCapacity(cap);
    }

    /** submit: queues one packaged task at the tail with a blocking put
        (so it requires room) and returns its future; it runs nothing. */
    method Submit(o: Outcome) returns (fut: nat)
      requires Valid()
      requires |que.items| < que.cap
      modifies this, que
      ensures Valid()
      ensures fut == old(nextId) && nextId == fut + 1 && fut !in results
      ensures forall i :: 0 <= i < |old(que.items)| ==> old(que.items)[i].id != fut
      ensures que.items == old(que.items) + [Task(fut, o)]
      ensures que.nTasks == old(que.nTasks) + 1 && que.cap == old(que.cap)
      ensures quit == old(quit) && exited == old(exited)
      ensures results == old(results) && trace == old(trace)
    {
      fut := nextId;
      nextId := nextId + 1;
      que.Put(Task(fut, o));
    }

    /** cast: exactly like submit, with the future dropped. */
    method Cast(o: Outcome)
      requires Valid()
      requires |que.items| < que.cap
      modifies this, que
      ensures Valid()
      ensures que.items == old(que.items) + [Task(old(nextId), o)]
      ensures que.nTasks == old(que.nTasks) + 1 && que.cap == old(que.cap)
      ensures nextId == old(nextId) + 1
      ensures quit == old(quit) && exited == old(exited)
      ensures results == old(results) && trace == old(trace)
    {
      var _ := Submit(o);
    }

    /** quit: sets the flag and queues one no-op task. */
    method Quit()
      requires Valid()
      requires |que.items| < que.cap
      modifies this, que
      ensures Valid()
      ensures quit
      ensures que.items == old(que.items) + [Task(old(nextId), ReturnedVoid)]
      ensures que.cap == old(que.cap) && que.nTasks == old(que.nTasks) + 1
      ensures nextId == old(nextId) + 1
      ensures exited == old(exited) && results == old(results) && trace == old(trace)
    {
      quit := true;
      Cast(ReturnedVoid);
    }

    /** thread_func: while not (quit and the queue empty), take the head
        task and invoke it. The packaged task stores its value or exception
        in its future, so a failing task does not stop the loop. With quit
        unset, the worker stops in get() on the empty queue until another
        put; then `exited` stays false. */
    method ThreadFunc()
      requires Valid()
      requires !exited
      modifies this, que
      ensures Valid()
      ensures que.items == []
      ensures exited == quit
      ensures trace == old(trace) + Ids(old(que.items))
      ensures results == Record(old(results), old(que.items))
      ensures quit == old(quit) && nextId == old(nextId)
      ensures que.cap == old(que.cap) && que.nTasks == old(que.nTasks)
    {
      ghost var pending := que.items;
      ghost var n := 0;
      while !(quit && que.items == [])
        invariant Valid()
        invariant 0 <= n <= |pending|
        invariant que.items == pending[n..]
        invariant trace == old(trace) + Ids(pending[..n])
        invariant results == Record(old(results), pending[..n])
        invariant !exited && quit == old(quit) && nextId == old(nextId)
        invariant que.cap == old(que.cap) && que.nTasks == old(que.nTasks)
        decreases |que.items|
      {
        var empty := que.Empty();
        if empty {
          // get() blocks: only a put by another thread could wake it.
          assert pending[..n] == pending;
          return;
        }
        var t := que.Get();
        assert t == pending[n];
        assert pending[..n + 1] == pending[..n] + [t];
        RecordLast(old(results), pending[..n], t);
        results := results[t.id := t.outcome];
        trace := trace + [t.id];
        n := n + 1;
      }
      assert pending[..n] == pending;
      exited := true;
    }

    /** call: submits the task and waits for its future, which the worker
        resolves after every task queued before it. The caller receives the
        task's own value, or its exception re-thrown. */
    method Call(o: Outcome) returns (res: Outcome)
      requires Valid()
      requires !exited
      requires |que.items| < que.cap
      modifies this, que
      ensures Valid()
      ensures res == o
      ensures trace == old(trace) + Ids(old(que.items)) + [old(nextId)]
      ensures results == Record(old(results), old(que.items))[old(nextId) := o]
      ensures que.items == [] && exited == quit && quit == old(quit)
      ensures que.cap == old(que.cap) && que.nTasks == old(que.nTasks) + 1
      ensures nextId == old(nextId) + 1
    {
      ghost var before := que.items;
      var fut := Submit(o);
      ThreadFunc();
      OwnOutcome(old(results), before, Task(fut, o));
      RecordLast(old(results), before, Task(fut, o));
      res := results[fut];
    }

    /** flush: a call of a no-op; when it returns, every task queued before
        it has run, in queue order, and its future holds its outcome. */
    method Flush()
      requires Valid()
      requires !exited
      requires |que.items| < que.cap
      modifies this, que
      ensures Valid()
      ensures trace == old(trace) + Ids(old(que.items)) + [old(nextId)]
      ensures results == Record(old(results), old(que.items))[old(nextId) := ReturnedVoid]
      ensures forall i :: 0 <= i < |old(que.items)| ==> old(que.items)[i].id in results
      ensures que.items == [] && exited == quit && quit == old(quit)
      ensures que.cap == old(que.cap) && que.nTasks == old(que.nTasks) + 1
      ensures nextId == old(nextId) + 1
    {
      ghost var before := que.items;
      var _ := Call(ReturnedVoid);
      RecordCovers(old(results), before);
    }

    /** ~work_thread: quit, then join the worker. The worker sees the quit
        flag only between tasks, so `exitsFirst` says whether it finds the
        queue empty with quit set before the quit no-op is cast (it then
        exits and leaves the no-op queued) or runs the no-op last. A worker
        that has already exited joins at once and runs nothing. */
    method Destroy(exitsFirst: bool)
      requires Valid()
      requires if exitsFirst && !exited then 0 < que.cap else |que.items| < que.cap
      modifies this, que
      ensures Valid()
      ensures quit && exited
      ensures que.cap == old(que.cap) && que.nTasks == old(que.nTasks) + 1
      ensures nextId == old(nextId) + 1
      ensures old(exited) ==>
                && que.items == old(que.items) + [Task(old(nextId), ReturnedVoid)]
                && trace == old(trace) && results == old(results)
      ensures !old(exited) && exitsFirst ==>
                && que.items == [Task(old(nextId), ReturnedVoid)]
                && trace == old(trace) + Ids(old(que.items))
                && results == Record(old(results), old(que.items))
      ensures !old(exited) && !exitsFirst ==>
                && que.items == []
                && trace == old(trace) + Ids(old(que.items)) + [old(nextId)]
                && results == Record(old(results), old(que.items) + [Task(old(nextId), ReturnedVoid)])
    {
      ghost var before := que.items;
      ghost var id := nextId;
      if exited {
        Quit();
      } else if exitsFirst {
        quit := true;
        ThreadFunc();
        Cast(ReturnedVoid);
      } else {
        Quit();
        ThreadFunc();
        assert Ids(before + [Task(id, ReturnedVoid)]) == Ids(before) + [id];
      }
    }
  }
}
