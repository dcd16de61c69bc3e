/** The interval timer of include/cooper/timer.h and src/timer.cpp (classes
    timer, one_shot and periodic_timer).

    Time is an integer count of nanoseconds. The schedule thread's waits are
    given as a sequence of wake events, one per wait, that say how the wait
    ended; the clock readings the thread takes travel with them. */
module Timers {

  /** How one wait of the schedule thread ended. */
  datatype Wake =
    /** The wait timed out with quit still false; the callback then runs and
        `now` is the clock reading the thread takes next. */
    | Expired(now: int)
    /** The condition variable was notified (cv_status::no_timeout). */
    | Notified
    /** The wait timed out, but the quit flag was found set. */
    | QuitSeen

  /** What the schedule thread did with the wake events it was given: the
      deadline each callback was due at, in order, and whether the thread
      function returned (false: it is still waiting). */
  datatype Trace = Trace(fires: seq<int>, ended: bool)

  /** The deadline after a periodic callback: one interval after the previous
      deadline, but never earlier than the clock reading `now`. After an
      overrun this is `now` itself; it does not skip ahead to a later
      multiple of the interval. */
  function NextDeadline(to: int, interval: int, now: int): (r: int)
    ensures r >= now && r >= to + interval
    ensures r == to + interval || r == now
  {
    if to + interval < now then now else to + interval
  }

  /** The initial-delay phase runs only for a non-zero initial time that
      differs from the interval. */
  predicate HasInitialPhase(initTime: int, interval: int) {
    initTime != 0 && initTime != interval
  }

  /** The periodic loop of thread_func from deadline `to` onwards. */
  function Ticks(to: int, interval: int, events: seq<Wake>): (r: Trace)
    ensures |r.fires| <= |events|
    ensures |r.fires| > 0 ==> r.fires[0] == to
    ensures r.ended ==> |r.fires| < |events|
    decreases |events|
  {
    if events == [] then Trace([], false)
    else match events[0]
      case Expired(now) =>
        var rest := Ticks(NextDeadline(to, interval, now), interval, events[1..]);
        Trace([to] + rest.fires, rest.ended)
      case _ => Trace([], true)
  }

  /** thread_func for a timer started at clock reading `start` with the
      given initial time and interval. Without an initial phase the clock
      reading that anchors the first periodic deadline is `start`. */
  function Schedule(initTime: int, interval: int, start: int, events: seq<Wake>): (r: Trace)
    ensures |r.fires| <= |events|
    ensures |r.fires| > 0 ==>
              r.fires[0] == start + (if HasInitialPhase(initTime, interval) then initTime else interval)
    ensures interval == 0 ==> |r.fires| <= 1 && (events != [] ==> r.ended)
    ensures !HasInitialPhase(initTime, interval) && interval == 0 ==> r == Trace([], true)
  {
    if HasInitialPhase(initTime, interval) then
      if events == [] then Trace([], false)
      else if !events[0].Expired? then Trace([], true)
      else if interval == 0 then Trace([start + initTime], true)
      else
        var rest := Ticks(events[0].now + interval, interval, events[1..]);
        Trace([start + initTime] + rest.fires, rest.ended)
    else if interval == 0 then Trace([], true)
    else Ticks(start + interval, interval, events)
  }

  // ---------------------------------------------------------------------
  // Properties of the schedule

  /** The periodic loop fires once per leading Expired event, first at `to`
      and then at each deadline the rule gives, and it returns exactly when
      an event other than Expired arrives. */
  lemma {:induction false} TicksShape(to: int, interval: int, events: seq<Wake>)
    ensures var t := Ticks(to, interval, events);
            && |t.fires| <= |events|
            && (forall i :: 0 <= i < |t.fires| ==> events[i].Expired?)
            && (t.ended <==> |t.fires| < |events|)
            && (t.ended ==> !events[|t.fires|].Expired?)
            && (|t.fires| > 0 ==> t.fires[0] == to)
            && (forall i :: 0 <= i < |t.fires| - 1 ==>
                  t.fires[i + 1] == NextDeadline(t.fires[i], interval, events[i].now))
    decreases |events|
  {
    if events != [] && events[0].Expired? {
      var next := NextDeadline(to, interval, events[0].now);
      TicksShape(next, interval, events[1..]);
      var rest := Ticks(next, interval, events[1..]);
      var t := Ticks(to, interval, events);
      assert t.fires == [to] + rest.fires;
      forall i | 0 <= i < |t.fires|
        ensures events[i].Expired?
      {
        if i > 0 {
          assert events[i] == events[1..][i - 1];
        }
      }
      forall i | 0 <= i < |t.fires| - 1
        ensures t.fires[i + 1] == NextDeadline(t.fires[i], interval, events[i].now)
      {
        if i > 0 {
          assert events[i] == events[1..][i - 1];
          assert t.fires[i] == rest.fires[i - 1];
        }
      }
    }
  }

  /** With a non-negative interval the deadlines never go backwards, and
      each one after the first is no earlier than the clock reading taken
      after the previous callback. */
  lemma {:induction false} DeadlinesNonDecreasing(to: int, interval: int, events: seq<Wake>)
    requires interval >= 0
    ensures forall i, j :: 0 <= i <= j < |Ticks(to, interval, events).fires| ==>
              Ticks(to, interval, events).fires[i] <= Ticks(to, interval, events).fires[j]
    ensures forall i :: 0 <= i < |Ticks(to, interval, events).fires| ==>
              to <= Ticks(to, interval, events).fires[i]
    decreases |events|
  {
    if events != [] && events[0].Expired? {
      var next := NextDeadline(to, interval, events[0].now);
      DeadlinesNonDecreasing(next, interval, events[1..]);
      var rest := Ticks(next, interval, events[1..]);
      var t := Ticks(to, interval, events);
      assert t.fires == [to] + rest.fires;
      assert to <= next;
      forall i | 0 <= i < |t.fires|
        ensures to <= t.fires[i]
      {
        if i > 0 {
          assert t.fires[i] == rest.fires[i - 1];
        }
      }
      forall i, j | 0 <= i <= j < |t.fires|
        ensures t.fires[i] <= t.fires[j]
      {
        if i > 0 {
          assert t.fires[i] == rest.fires[i - 1] && t.fires[j] == rest.fires[j - 1];
        }
      }
    }
  }

  /** Every periodic deadline after the first is no earlier than the clock
      reading that precedes it. */
  lemma DeadlineNotBeforeNow(to: int, interval: int, events: seq<Wake>)
    ensures var t := Ticks(to, interval, events);
            && |t.fires| <= |events|
            && forall i :: 0 < i < |t.fires| ==> events[i - 1].Expired? && t.fires[i] >= events[i - 1].now
  {
    TicksShape(to, interval, events);
    var t := Ticks(to, interval, events);
    forall i | 0 < i < |t.fires|
      ensures events[i - 1].Expired? && t.fires[i] >= events[i - 1].now
    {
      assert t.fires[(i - 1) + 1] == NextDeadline(t.fires[i - 1], interval, events[i - 1].now);
    }
  }

  /** A wake-up or a seen quit during any wait ends the schedule: no
      callback runs at or after that event. */
  lemma WakeEndsSchedule(initTime: int, interval: int, start: int, events: seq<Wake>, k: nat)
    requires k < |events| && !events[k].Expired?
    ensures var t := Schedule(initTime, interval, start, events);
            t.ended && |t.fires| <= k
  {
    if HasInitialPhase(initTime, interval) {
      if events[0].Expired? && interval != 0 {
        TicksShape(events[0].now + interval, interval, events[1..]);
        assert !events[1..][k - 1].Expired?;
      }
    } else if interval != 0 {
      TicksShape(start + interval, interval, events);
    }
  }

  /** With a zero interval the schedule ends after at most one callback,
      whatever the events. */
  lemma OneShotFiresAtMostOnce(initTime: int, start: int, events: seq<Wake>)
    ensures var t := Schedule(initTime, 0, start, events);
            |t.fires| <= 1 && (t.fires != [] ==> t.ended && t.fires == [start + initTime])
  {
  }

  /** start(0, 0) never invokes the callback: the thread returns at once
      without waiting. */
  lemma ZeroScheduleNeverFires(start: int, events: seq<Wake>)
    ensures Schedule(0, 0, start, events) == Trace([], true)
  {
  }

  /** one_shot::start(d) for d != 0 fires exactly once, at start + d, unless
      its only wait ends early, in which case it never fires. */
  lemma OneShotFiresOnce(d: int, start: int, events: seq<Wake>)
    requires d != 0 && events != []
    ensures events[0].Expired? ==> Schedule(d, 0, start, events) == Trace([start + d], true)
    ensures !events[0].Expired? ==> Schedule(d, 0, start, events) == Trace([], true)
  {
  }

  /** periodic_timer::start(d), which is start(d, d), skips the initial
      phase: the first callback is due at start + d and the following ones
      by the deadline rule. timer::start(d), which is start(0, d), behaves
      the same for d != 0. */
  lemma PeriodicSkipsInitialPhase(d: int, start: int, events: seq<Wake>)
    requires d != 0
    ensures Schedule(d, d, start, events) == Ticks(start + d, d, events)
    ensures Schedule(0, d, start, events) == Ticks(start + d, d, events)
    ensures events != [] && events[0].Expired? ==>
              Schedule(d, d, start, events).fires[0] == start + d
  {
  }

  /** After an initial phase the first periodic deadline is one interval
      after the clock reading that follows the initial callback. */
  lemma FirstPeriodicDeadline(initTime: int, interval: int, start: int, events: seq<Wake>)
    requires HasInitialPhase(initTime, interval) && interval != 0
    requires |events| >= 2 && events[0].Expired? && events[1].Expired?
    ensures var t := Schedule(initTime, interval, start, events);
            |t.fires| >= 2 && t.fires[0] == start + initTime && t.fires[1] == events[0].now + interval
  {
  }

  // ---------------------------------------------------------------------
  // The timer object

  /** timer: its schedule, its quit flag and whether its thread can be
      joined. one_shot and periodic_timer add nothing but their start. */
  class Timer {
    /** The functional constructor stored a callback. */
    var hasCallback: bool
    var initTime: int
    var interval: int
    var quit: bool
    /** thr_.joinable(): a schedule thread was started and not yet joined. */
    var joinable: bool
    /** The (initial time, interval) of every schedule thread joined so far,
        in the order joined. */
    ghost var joined: seq<(int, int)>

    /** timer(): no callback, quit false, no thread. */
    constructor Default()
      ensures !hasCallback && !quit && !joinable && joined == []
    {
      hasCallback := false;
      joined := [];
      initTime, interval := 0, 0;
      quit := false;
      joinable := false;
    }

    /** timer(f): stores the callback, quit false, no thread. */
    constructor WithCallback()
      ensures hasCallback && !quit && !joinable && joined == []
    {
      hasCallback := true;
      joined := [];
      initTime, interval := 0, 0;
      quit := false;
      joinable := false;
    }

    /** stop: nothing to do without a thread; otherwise set quit, wake the
        thread and join it, which ends the running schedule. The schedule's
        parameters are kept. */
    method Stop()
      modifies this
      ensures !joinable
      ensures quit == (old(quit) || old(joinable))
      ensures initTime == old(initTime) && interval == old(interval)
      ensures hasCallback == old(hasCallback)
      ensures joined == old(joined) + (if old(joinable) then [(old(initTime), old(interval))] else [])
    {
      if !joinable {
        return;
      }
      quit := true;
      joined := joined + [(initTime, interval)];
      joinable := false;
    }

    /** start(initTime, interval): stop and join any running schedule first,
        then record the new one, clear quit and launch a thread. */
    method Start(initTime: int, interval: int)
      modifies this
      ensures this.initTime == initTime && this.interval == interval
      ensures !quit && joinable
      ensures hasCallback == old(hasCallback)
      ensures joined == old(joined) + (if old(joinable) then [(old(this.initTime), old(this.interval))] else [])
    {
      Stop();
      this.initTime := initTime;
      this.interval := interval;
      quit := false;
      joinable := true;
    }

    /** timer::start(d): start(0, d). */
    method StartInterval(d: int)
      modifies this
      ensures initTime == 0 && interval == d
      ensures !quit && joinable && hasCallback == old(hasCallback)
      ensures joined == old(joined) + (if old(joinable) then [(old(initTime), old(interval))] else [])
    {
      Start(0, d);
    }

    /** one_shot::start(d): start(d, 0). */
    method StartOneShot(d: int)
      modifies this
      ensures initTime == d && interval == 0
      ensures !quit && joinable && hasCallback == old(hasCallback)
      ensures joined == old(joined) + (if old(joinable) then [(old(initTime), old(interval))] else [])
    {
      Start(d, 0);
    }

    /** periodic_timer::start(d): start(d, d). */
    method StartPeriodic(d: int)
      modifies this
      ensures initTime == d && interval == d
      ensures !quit && joinable && hasCallback == old(hasCallback)
      ensures joined == old(joined) + (if old(joinable) then [(old(initTime), old(interval))] else [])
    {
      Start(d, d);
    }

    /** ~timer: stop. */
    method Destroy()
      modifies this
      ensures !joinable
      ensures quit == (old(quit) || old(joinable))
      ensures joined == old(joined) + (if old(joinable) then [(old(initTime), old(interval))] else [])
    {
      Stop();
    }

    /** thread_func, run from clock reading `start` against the given wake
        events: returns the deadlines of the callbacks it made and whether
        it returned before the events ran out. */
    method ThreadFunc(start: int, events: seq<Wake>) returns (fires: seq<int>, ended: bool)
      ensures Trace(fires, ended) == Schedule(initTime, interval, start, events)
    {
      fires := [];
      var k := 0;
      var entry := start;
      if initTime != 0 && initTime != interval {
        if |events| == 0 {
          return [], false;
        }
        if !events[0].Expired? {
          return [], true;
        }
        fires := [start + initTime];
        entry := events[0].now;
        k := 1;
      }

      // A one-shot ends here.
      if interval == 0 {
        return fires, true;
      }

      var to := entry + interval;
      while k < |events|
        invariant k <= |events|
        invariant var rest := Ticks(to, interval, events[k..]);
                  Schedule(initTime, interval, start, events) == Trace(fires + rest.fires, rest.ended)
        decreases |events| - k
      {
        if !events[k].Expired? {
          return fires, true;
        }
        assert events[k..][1..] == events[k + 1..];
        fires := fires + [to];
        to := NextDeadline(to, interval, events[k].now);
        k := k + 1;
      }
      ended := false;
    }
  }
}
