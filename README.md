# cooper: task queue, work thread and interval timer in Dafny

This project models the concurrency core of the cooper actor library:

- `thread_queue` (include/cooper/task_queue.h): a FIFO with a capacity and a
  count of outstanding tasks. A put counts one more task. A get removes an item
  and leaves the count alone. Only `task_done` lowers the count.
- `work_thread` (include/cooper/work_thread.h, src/work_thread.cpp): one worker
  thread that runs submitted tasks one at a time, in submission order, until it
  is told to quit and its queue is empty.
- `timer`, `one_shot`, `periodic_timer` (include/cooper/timer.h, src/timer.cpp):
  a thread that calls a callback after an optional initial delay and then every
  interval, with the next deadline `max(previous + interval, now)`.

Files:

- `task_queue.dfy`, module `TaskQueue`. The abstract queue is the `Queue`
  datatype. `Apply` and `Run` say what the non-blocking operations do to it.
  Lemmas state FIFO order, task accounting, backpressure and the effect of a
  lowered capacity. The class `ThreadQueue<T>` has the source's state (`items`,
  `cap`, `nTasks`), and its methods are tied to the datatype through `State()`.
- `work_thread.dfy`, module `WorkThreads`. A task is the identity of its future
  plus the outcome its callable produces (a value, no value, or an exception).
  The class `WorkThread` owns a `ThreadQueue<Task>`, the quit flag, the
  futures' results and a ghost trace of the tasks run.
- `timer.dfy`, module `Timers`. `Schedule` is the schedule thread, with time in
  integer nanoseconds. Each wait of the thread is given as a wake event:
  expired (with the next clock reading), notified, or quit seen. The class
  `Timer` holds the schedule, the quit flag and whether a thread is joinable.

How the concurrency is modelled:

- A blocking `put` or `get` requires the condition it waits for. With no other
  thread to change the queue, `try_put_for`/`_until` and `try_get_for`/`_until`
  behave like `try_put` and `try_get`.
- `wait` re-checks its predicate only when it wakes and gets the lock back.
  The input is the sequence of operations other threads perform while it
  waits, each marked with whether the waiter re-checks right after it.
  `task_done` releases the lock before it notifies, so a put can raise the
  count again before the waiter looks, and the wait then goes on.
- The worker thread runs when a client waits for it: in `call`, `flush` and the
  destructor. The destructor takes as input whether the worker, between two
  tasks, sees the quit flag and an empty queue before the quit no-op is cast. `WorkThread.ThreadFunc` runs the loop until it exits (quit set and
  queue empty) or until it would block in `get()` on an empty queue.

Where the code and its prose disagree, the model follows the code:

- After an overrun the next deadline is the current time (src/timer.cpp:35). It
  is not pushed ahead to a future multiple of the period.
- `start(0, 0)`, for example `one_shot::start(0s)`, never calls the callback.
- Tasks submitted after `quit` are still accepted, and run if the worker has
  not yet exited.

include/cooper/task_queue.h does not compile as written. The model follows its
evident intent:

- The constructors are named `task_queue` in a class named `thread_queue`.
- The code uses `nTask_` for the field `nTasks_`.
- `n` is undefined in `queue_item`.
- `dequeue_item` is called, but the function defined is `deque_item`.
- `deque_item` ends with `return value_type;`.
- `try_put_for` and `try_put_until` take `value_type*`.

include/cooper/work_thread.h includes `cooper/thread_queue.h`. That file is not
part of this model; the queue it names is taken to be the `thread_queue` above.

## Model

| member | source | states |
|---|---|---|
| `TaskQueue.Enqueue` | include/cooper/task_queue.h:142-149 | the old items are a prefix of the new ones, the value is the new last item, the capacity is kept and there is one more task |
| `TaskQueue.Dequeue` | include/cooper/task_queue.h:158-166 | the removed head followed by the remaining items is the old item sequence; capacity and task count are kept |
| `TaskQueue.MarkDone` | include/cooper/task_queue.h:372-380 | items and capacity are kept; a positive count drops by exactly one; at zero nothing changes |
| `TaskQueue.Apply` | include/cooper/task_queue.h:202-380 | try_put appends its value exactly when there is room and otherwise changes nothing; try_get removes the head of a non-empty queue and never changes the count; task_done and capacity(n) keep the items; only capacity(n) changes the capacity |
| `TaskQueue.Fifo` | include/cooper/task_queue.h:142-165 | over any sequence of operations, the values the gets returned followed by the items still queued equal the initial items followed by the values the puts accepted |
| `TaskQueue.TakenInPutOrder` | include/cooper/task_queue.h:142-165 | gets return values in exactly the order they were queued: a prefix of the initial items followed by the accepted puts |
| `TaskQueue.TaskAccounting` | include/cooper/task_queue.h:65-68 | the count of tasks is the initial count plus accepted puts minus the task_done calls that found an outstanding task; gets never change it; task_done calls that found none were no-ops |
| `TaskQueue.PutsFill` | include/cooper/task_queue.h:241-248 | puts into a queue with room for all of them are all accepted, in order, and each adds one task |
| `TaskQueue.Backpressure` | include/cooper/task_queue.h:228-248 | a queue of capacity n accepts n puts and then refuses one; after one get a put has room again |
| `TaskQueue.ShrunkCapacityRefusesPuts` | include/cooper/task_queue.h:196-205 | once the capacity is at or below the size, no put succeeds and the items are unchanged until a get or a new capacity |
| `TaskQueue.GetSignalsAsWritten` | include/cooper/task_queue.h:305-310 | as written: a get that found the queue empty on entry never signals "not full" for a positive capacity; one whose size did not change while it waited signals exactly when its removal opens a slot |
| `TaskQueue.GetAfterWaitMissesWakeup` | include/cooper/task_queue.h:305-310 | as written: a get that waited on an empty queue of capacity 1, woken by a put, opens a slot but passes the stale count 0 to deque_item, which sends no "not full" wake-up |
| `TaskQueue.GetSignals` | include/cooper/task_queue.h:151-166 | corrected: with the size at removal as the count, deque_item signals "not full" exactly when the removal opens a slot for a blocked put |
| `TaskQueue.ThreadQueue.Default` | include/cooper/task_queue.h:173 | the default queue is empty, has no tasks, and has capacity MAX_CAPACITY (2^64 - 1) |
| `TaskQueue.ThreadQueue.constructor` | include/cooper/task_queue.h:178 | a sized queue is empty, has no tasks, and has the given capacity |
| `TaskQueue.ThreadQueue.QueueItem` | include/cooper/task_queue.h:142-149 | appends the value at the tail and adds one task; the capacity is unchanged |
| `TaskQueue.ThreadQueue.DequeItem` | include/cooper/task_queue.h:158-166 | returns the head, leaves exactly the tail, keeps the task count and capacity, and signals "not full" by the corrected rule |
| `TaskQueue.ThreadQueue.Empty` | include/cooper/task_queue.h:184-187 | true exactly when there are no items; changes nothing |
| `TaskQueue.ThreadQueue.Capacity` | include/cooper/task_queue.h:192-195 | returns the capacity; changes nothing |
| `TaskQueue.ThreadQueue.SetCapacity` | include/cooper/task_queue.h:202-205 | sets the capacity to any value, even below the size; the items and the task count are unchanged |
| `TaskQueue.ThreadQueue.Size` | include/cooper/task_queue.h:210-213 | returns the number of items; changes nothing |
| `TaskQueue.ThreadQueue.NumTasks` | include/cooper/task_queue.h:218-221 | returns the number of outstanding tasks; changes nothing |
| `TaskQueue.ThreadQueue.Put` | include/cooper/task_queue.h:228-234 | once there is room (size below capacity), appends the value at the tail and adds exactly one task |
| `TaskQueue.ThreadQueue.TryPut` | include/cooper/task_queue.h:241-248 | succeeds exactly when size < capacity; on success appends at the tail and adds one task; on failure nothing changes |
| `TaskQueue.ThreadQueue.TryPutFor` | include/cooper/task_queue.h:259-266 | with no other thread to make room, has the effect and result of try_put |
| `TaskQueue.ThreadQueue.TryPutUntil` | include/cooper/task_queue.h:278-285 | with no other thread to make room, has the effect and result of try_put |
| `TaskQueue.ThreadQueue.Get` | include/cooper/task_queue.h:305-311 | on a non-empty queue returns the head, leaves exactly the tail and does not change the task count |
| `TaskQueue.ThreadQueue.TryGet` | include/cooper/task_queue.h:320-327 | on a non-empty queue returns the head and leaves the tail; on an empty queue returns nothing and changes nothing; the task count never changes |
| `TaskQueue.ThreadQueue.TryGetFor` | include/cooper/task_queue.h:339-346 | with no other thread to put, has the effect and result of try_get |
| `TaskQueue.ThreadQueue.TryGetUntil` | include/cooper/task_queue.h:358-365 | with no other thread to put, has the effect and result of try_get |
| `TaskQueue.ThreadQueue.TaskDone` | include/cooper/task_queue.h:372-380 | lowers the task count by exactly one when it is positive and is a no-op at zero; the items and capacity are unchanged |
| `TaskQueue.ThreadQueue.Wait` | include/cooper/task_queue.h:386-390 | the state is that of the other threads' operations run so far; it returns exactly at the first point where it checks its predicate (on entry, or when woken after an operation) and finds no outstanding task, and otherwise is still waiting when the operations run out |
| `TaskQueue.WaitMissesTransientZero` | include/cooper/task_queue.h:372-390 | a count that a task_done brings to zero and a put raises again before the waiter re-checks does not end the wait |
| `WorkThreads.Record` | include/cooper/work_thread.h:99-104 | the futures that hold a result after the tasks run are exactly those that held one before plus those of the tasks run |
| `WorkThreads.RecordLast` | src/work_thread.cpp:23-25 | running one more task after the others stores its outcome last in its future |
| `WorkThreads.OwnOutcome` | include/cooper/work_thread.h:134-137 | the last task run leaves its own value or exception in its own future |
| `WorkThreads.RecordCovers` | src/work_thread.cpp:23-28 | every task run, whether it returned or threw, has a result, and earlier results stay |
| `WorkThreads.RecordKeepsOthers` | include/cooper/work_thread.h:98-105 | running tasks with other futures leaves a future's state as it was |
| `WorkThreads.WorkThread.constructor` | src/work_thread.cpp:12-15 | quit is false and the queue is empty with the default capacity before the worker starts |
| `WorkThreads.WorkThread.QueueCapacity` | include/cooper/work_thread.h:73-75 | returns the queue's capacity; changes nothing |
| `WorkThreads.WorkThread.SetQueueCapacity` | include/cooper/work_thread.h:85-87 | sets the queue's capacity and nothing else |
| `WorkThreads.WorkThread.Submit` | include/cooper/work_thread.h:98-105 | queues exactly one task at the tail with a fresh future, by a blocking put, and runs nothing |
| `WorkThreads.WorkThread.Cast` | include/cooper/work_thread.h:164-165 | queues exactly as submit does and drops the future |
| `WorkThreads.WorkThread.Quit` | include/cooper/work_thread.h:60-63 | sets the quit flag and queues exactly one no-op task |
| `WorkThreads.WorkThread.ThreadFunc` | src/work_thread.cpp:21-29 | runs every queued task once, head first, whether it returned or threw, so the trace extends by the queue in order; exits exactly when quit is set, otherwise it waits in get() on the empty queue |
| `WorkThreads.WorkThread.Call` | include/cooper/work_thread.h:134-137 | returns its own task's value or exception, after every task queued before it has run; the queue is empty, its capacity kept and its task count one higher, and the next future identity has advanced by one |
| `WorkThreads.WorkThread.Flush` | include/cooper/work_thread.h:181-190 | when it returns, every task queued before it has run, in queue order, followed by its own no-op, and the future of each holds its outcome; the queue is empty with its capacity kept |
| `WorkThreads.WorkThread.Destroy` | include/cooper/work_thread.h:53-63 | quits and joins, and the worker has exited: a worker already exited runs nothing and the no-op stays queued; otherwise every task queued before destruction runs in order, followed by the quit no-op unless the worker saw the quit flag on an empty queue before the no-op was cast, in which case the no-op stays queued |
| `Timers.NextDeadline` | src/timer.cpp:35 | the next deadline is at least one interval after the previous one and no earlier than now, and is one of the two |
| `Timers.Ticks` | src/timer.cpp:27-36 | the periodic loop makes at most one callback per wait, the first at its starting deadline, and returns only on a wait that did not expire |
| `Timers.Schedule` | src/timer.cpp:12-37 | at most one callback per wait; the first is due at start + initial time when there is an initial phase and at start + interval otherwise; a zero interval gives at most one callback and ends at the first wait; start(0, 0) ends at once with none |
| `Timers.TicksShape` | src/timer.cpp:27-36 | the periodic loop fires once per leading expired wait, first at its first deadline and then by the deadline rule, and returns exactly when a wake-up or quit arrives |
| `Timers.DeadlinesNonDecreasing` | src/timer.cpp:35 | with a non-negative interval the deadlines never go backwards and never precede the first one |
| `Timers.DeadlineNotBeforeNow` | src/timer.cpp:33-35 | every deadline after the first is no earlier than the clock reading taken after the previous callback |
| `Timers.WakeEndsSchedule` | src/timer.cpp:16-31 | a wake-up or a seen quit during any wait ends the schedule, with no callback at or after it |
| `Timers.OneShotFiresAtMostOnce` | src/timer.cpp:23-25 | with a zero interval the schedule calls back at most once, at the initial deadline, and then ends |
| `Timers.ZeroScheduleNeverFires` | src/timer.cpp:15-25 | start(0, 0) ends at once and never calls back |
| `Timers.OneShotFiresOnce` | include/cooper/timer.h:83-87 | one_shot::start(d) with d non-zero calls back exactly once, at start + d, unless its wait ends early, in which case never |
| `Timers.PeriodicSkipsInitialPhase` | include/cooper/timer.h:101-105 | periodic_timer::start(d), like timer::start(d), skips the initial phase; the first callback is due at start + d |
| `Timers.FirstPeriodicDeadline` | src/timer.cpp:27 | after an initial phase the first periodic deadline is one interval after the loop-entry clock reading |
| `Timers.Timer.Default` | include/cooper/timer.h:45 | no callback, quit false, no thread |
| `Timers.Timer.WithCallback` | include/cooper/timer.h:46 | stores the callback, quit false, no thread |
| `Timers.Timer.Stop` | src/timer.cpp:41-49 | a no-op without a joinable thread; otherwise sets quit and joins, which records the running schedule as ended; the schedule's parameters are kept |
| `Timers.Timer.Start` | src/timer.cpp:53-64 | first joins any running schedule (recorded with its initial time and interval), then records the new initial time and interval, clears quit and starts a thread |
| `Timers.Timer.StartInterval` | include/cooper/timer.h:55-59 | timer::start(d) is start(0, d) |
| `Timers.Timer.StartOneShot` | include/cooper/timer.h:83-87 | one_shot::start(d) is start(d, 0) |
| `Timers.Timer.StartPeriodic` | include/cooper/timer.h:101-105 | periodic_timer::start(d) is start(d, d) |
| `Timers.Timer.Destroy` | include/cooper/timer.h:48 | the destructor stops the timer, joining and recording any running schedule |
| `Timers.Timer.ThreadFunc` | src/timer.cpp:12-37 | the schedule loop produces exactly the callbacks and the end that `Schedule` gives for its initial time, interval, start time and wake events |

## Findings

| source | as written | input that shows it | evidently intended | confidence | as-written member | corrected member |
|---|---|---|---|---|---|---|
| include/cooper/task_queue.h:305-310 | `get()` reads `n = que_.size()` before waiting and passes that `n` to `deque_item`, which signals "not full" only when `n == cap_` | capacity 1; a consumer calls `get()` on the empty queue and waits (`n` = 0); a producer puts x; a second producer's put blocks on the full queue; the consumer removes x, so the queue now has room, but `0 != 1` means no signal, and the second producer stays blocked. The same holds for `try_get_for` and `try_get_until` (lines 339-365) | `deque_item` documents `n` as the current size (line 156): signal when the removal takes the queue from full to not full | medium, not executed | `TaskQueue.GetAfterWaitMissesWakeup` | `TaskQueue.GetSignals` |

## Left out

- Mutexes, condition variables, notifications and real blocking are not
  modelled. A blocking operation requires its wait condition. Wake-ups and the
  actions of other threads are inputs. Spurious wake-ups are not modelled.
- The "not empty" signal of `queue_item` is left out, because its condition
  uses an undefined `n`. The "not full" signal of `deque_item` is modelled only
  as the flag that `DequeItem` returns.
- TaskQueue.ThreadQueue.Put: requires room, because in a sequential model its
  wait could never end otherwise.
- TaskQueue.ThreadQueue.Get: requires an item, for the same reason.
- TaskQueue.ThreadQueue.TryPutFor: ignores its time bound. With no other thread,
  the wait always times out. The same holds for TryPutUntil, TryGetFor and
  TryGetUntil.
- The `get(value_type* val)` overload (include/cooper/task_queue.h:292-298) is
  the same as `get()` with the value written through a pointer. It is not
  modelled separately.
- The task count `nTasks` is an unbounded natural. The 64-bit wrap-around of
  `++nTasks_` after 2^64 puts is not modelled.
- Task callables and `func_wrapper` are not modelled as code. A task is the
  identity of its future and the outcome it produces. `std::packaged_task` and
  `std::future` are modelled as a map from future identity to outcome.
- The work thread never calls `task_done` on its queue, so its task count only
  grows. The model keeps this.
- WorkThreads.WorkThread.Flush: runs the worker to the end of the queue while
  the caller waits. Tasks that other clients submit during that wait are not
  modelled, so "tasks queued later need not have run" is not stated. Call does
  the same.
- WorkThreads.WorkThread.Call: requires a worker that has not exited, and so
  does Flush. After the worker exits, a call would block forever on its future.
- `get_id`, `on_actor_thread`, the actor classes and the `std::bind` overloads
  of `submit`, `call` and `cast` are thread identity or plain forwarding, and
  are not modelled.
- Real clocks: time is an integer count of nanoseconds. When there is no
  initial phase, the clock reading that anchors the first periodic deadline
  (src/timer.cpp:27) is taken to be the thread's start time.
- Timers.Timer.Default: does not model the callback. A timer built without one
  holds an empty `std::function`; calling it when the timer fires throws on the
  timer thread, which ends the process. The model records only
  `hasCallback == false`.
- `initTime_` and `interval_` are left uninitialized by the constructors. The
  model sets them to 0. `start` always sets them before the thread reads them.
- `one_shot` and `periodic_timer` are subclasses that differ only in `start`.
  Their `start` is modelled as `StartOneShot` and `StartPeriodic` on `Timer`.
