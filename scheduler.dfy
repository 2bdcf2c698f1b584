/**
  The `Timers` work-set: tasks waiting to be picked up (`newTasks`), tasks
  being driven (`mTasks`), the `mRunning` flag and the worker's future.

  The worker thread's `run` loop is modelled one iteration at a time, and
  `add` and `stop` by their effect on the collections, the flag and the
  future. The mutex and the thread are not modelled: each method here runs
  as one indivisible step.
 */
module Scheduler {
  import opened Coroutine
  import opened Sweep

  /** The states of `mTimersFuture`: no shared state (never launched, or
      already waited for with `get`), worker still running, worker finished. */
  datatype Future = Invalid | Running | Ready

  class Timers {
    var active: seq<TaskState>    // mTasks
    var pending: seq<TaskState>   // newTasks
    var running: bool             // mRunning
    var future: Future            // mTimersFuture
    var log: seq<Callback>        // the functors invoked by the worker, in order

    /** Every task held is a state its coroutine can reach. */
    ghost predicate Valid()
      reads this
    {
      AllWf(active) && AllWf(pending)
    }

    constructor ()
      ensures Valid()
      ensures active == [] && pending == [] && !running && future == Invalid && log == []
    {
      active, pending, running, future, log := [], [], false, Invalid, [];
    }

    /** `done()`: the future is valid and the worker has finished. */
    predicate IsDone()
      reads this
      ensures IsDone() <==> future != Invalid && future != Running
    {
      future == Ready
    }

    /** `moveNewTimers`: append the pending tasks to the active ones, in
        order, and empty the pending list. */
    method MoveNewTimers()
      requires Valid()
      modifies this
      ensures Valid()
      ensures active == old(active) + old(pending) && pending == []
      ensures running == old(running) && future == old(future) && log == old(log)
    {
      active := active + pending;
      pending := [];
    }

    /** `add(args...)`: push every argument onto the pending list in argument
        order; launch the worker unless one is still running. Launching runs
        the first statement of `run`, which raises `mRunning`. */
    method Add(tasks: seq<TaskState>)
      requires Valid() && AllWf(tasks)
      modifies this
      ensures Valid()
      ensures pending == old(pending) + tasks
      ensures active == old(active) && log == old(log)
      ensures old(future) != Running ==> future == Running && running
      ensures old(future) == Running ==> future == Running && running == old(running)
    {
      for i := 0 to |tasks|
        invariant pending == old(pending) + tasks[..i]
        invariant Valid()
        invariant active == old(active) && log == old(log)
        invariant running == old(running) && future == old(future)
      {
        pending := pending + [tasks[i]];
        assert tasks[..i + 1] == tasks[..i] + [tasks[i]];
      }
      assert tasks[..|tasks|] == tasks;
      if future == Invalid || IsDone() {
        future := Running;
        running := true;
      }
    }

    /** One iteration of `run`'s loop: drain the pending tasks, resume every
        active task once in order (the `i`-th resume reads `clock(i)`),
        erase the expired ones, and decide whether to go round again. When
        the loop ends, `run` returns and the future becomes ready. */
    method Iterate(clock: nat -> Reading) returns (again: bool)
      requires Valid() && future == Running
      modifies this
      ensures Valid()
      ensures var p := ResumeAll(old(active) + old(pending), clock, 0);
        active == Survivors(p.tasks) && log == old(log) + p.log
      ensures pending == [] && running == old(running)
      ensures forall t <- active :: !t.value.expired && t.value.count < Limit(t.cfg)
      ensures forall f :: Count(log, f) + Owed(active, f) == Count(old(log), f) + Owed(old(active), f) + Owed(old(pending), f)
      ensures again <==> active != [] && running
      ensures future == if again then Running else Ready
    {
      ghost var before, pending0, log0 := active, pending, log;
      MoveNewTimers();
      var resumed, fired := ResumeEach(active, clock, 0);
      var kept := EraseExpired(resumed);
      ResumeAllWf(active, clock, 0);
      SurvivorsMembers(resumed);
      SurvivorsWf(resumed);
      LiveBelowLimit(kept);
      SweepAccounts(active, clock, 0);
      forall f
        ensures Count(log + fired, f) + Owed(kept, f) == Count(log0, f) + Owed(before, f) + Owed(pending0, f)
      {
        CountAppend(log, fired, f);
        OwedAppend(before, pending0, f);
      }
      active, log := kept, log + fired;
      again := active != [] && running;
      if !again {
        future := Ready;
      }
    }

    /** `stop`: lower the flag and, if a worker was launched, wait for it.
        The worker tests the flag before its next iteration and leaves the
        loop, so nothing else changes. Waiting invalidates the future, so a
        second `stop` finds nothing to wait for. */
    method Stop()
      modifies this
      ensures !running && future == Invalid
      ensures active == old(active) && pending == old(pending) && log == old(log)
    {
      running := false;
      if future != Invalid {
        future := Invalid;
      }
    }
  }
}
