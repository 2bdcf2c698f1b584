/**
  The prototype driver in `TimerTask.cpp`: three timers pushed into a
  vector, and a loop that resumes every timer and erases the expired ones
  until the vector is empty. Its `TimerTask` struct and `timerTask`
  coroutine are the header's `Task` and `task`, line for line, so they are
  the ones of module `Coroutine`.
 */
module Prototype {
  import opened Coroutine
  import opened Sweep

  /** `steady_clock` ticks per second (nanosecond resolution). */
  const TicksPerSecond: nat := 1_000_000_000

  const One := Callback(1)
  const Five := Callback(5)
  const Ten := Callback(10)

  /** `timerTask(1s, ..., true, 10)`, `timerTask(5s, ..., true, 3)` and
      `timerTask(10s, ..., false)` with the default `repeatCount`. */
  const PrintOne := Config(1 * TicksPerSecond, One, true, 10)
  const PrintFive := Config(5 * TicksPerSecond, Five, true, 3)
  const PrintTen := Config(10 * TicksPerSecond, Ten, false, 0)

  /** `setupTimers`: the three timers, created and moved into the vector. */
  function SetupTimers(): (ts: seq<TaskState>)
    ensures ts == [NewTask(PrintOne), NewTask(PrintFive), NewTask(PrintTen)]
    ensures forall t <- ts :: t == NewTask(t.cfg) && t.cfg.timeOut <= 10 * TicksPerSecond
  {
    [NewTask(PrintOne), NewTask(PrintFive), NewTask(PrintTen)]
  }

  /** With the default arguments `repeat = true, repeatCount = 0`, a task
      expires on its first firing and never fires twice. */
  lemma DefaultTimerTaskFiresOnce(timeOut: int, functor: Callback, rs: seq<Reading>, t: TaskState, r: Reading)
    requires t.cfg == Config(timeOut, functor, true, 0) && Wf(t)
    ensures Firings(NewTask(t.cfg), rs) <= 1
    ensures Step(t, r).fired ==> Step(t, r).task.value == YieldType(1, true)
  {
    FiringsAtMostLimit(t.cfg, rs);
    StepFiring(t, r);
  }

  /** The state of the worker loop after `n` passes of its body, started on
      `timers` with the clock's first reading. Once the vector is empty the
      loop has exited, and further passes would change nothing. */
  function Sweeps(timers: seq<TaskState>, clock: nat -> Reading, n: nat): (r: Trace)
    ensures |r.tasks| <= |timers|
  {
    if n == 0 then Trace(timers, [], 0) else SweepOnce(Sweeps(timers, clock, n - 1), clock)
  }

  /** On every clock, after any number of passes, the invocations made plus
      those the remaining timers still owe are what the timers owed at the
      start, for every functor. */
  lemma {:induction false} SweepsAccount(timers: seq<TaskState>, clock: nat -> Reading, n: nat)
    requires AllWf(timers)
    ensures var r := Sweeps(timers, clock, n);
      && AllWf(r.tasks)
      && forall f :: Count(r.log, f) + Owed(r.tasks, f) == Owed(timers, f)
  {
    if n > 0 {
      SweepsAccount(timers, clock, n - 1);
      var r0 := Sweeps(timers, clock, n - 1);
      var p := ResumeAll(r0.tasks, clock, r0.next);
      SweepAccounts(r0.tasks, clock, r0.next);
      ResumeAllWf(r0.tasks, clock, r0.next);
      SurvivorsWf(p.tasks);
      forall f
        ensures Count(r0.log + p.log, f) + Owed(Survivors(p.tasks), f) == Owed(timers, f)
      {
        CountAppend(r0.log, p.log, f);
      }
    }
  }

  /** Whatever the clock, when the loop has exited it has invoked every
      functor exactly as often as the fresh timers' repeat policies allow. */
  lemma LoopEndCounts(timers: seq<TaskState>, clock: nat -> Reading, n: nat)
    requires forall t <- timers :: t == NewTask(t.cfg)
    requires Sweeps(timers, clock, n).tasks == []
    ensures forall f :: Count(Sweeps(timers, clock, n).log, f) == Quota(timers, f)
  {
    forall i | 0 <= i < |timers|
      ensures Wf(timers[i])
    {
      assert timers[i] in timers;
    }
    SweepsAccount(timers, clock, n);
    forall f
      ensures Owed(timers, f) == Quota(timers, f)
    {
      OwedOfFresh(timers, f);
    }
  }

  /** The worker loop: resume every timer once, in order, then erase the
      expired ones, until none is left. Its run is the loop state of
      `Sweeps` at the pass where the vector empties. On fresh timers and a
      clock whose gap covers every period it ends, having invoked every
      timer's functor exactly as often as its repeat policy allows. */
  method Drive(timers: seq<TaskState>, clock: nat -> Reading, gap: nat) returns (log: seq<Callback>)
    requires SteadyClock(clock, gap)
    requires forall t <- timers :: t == NewTask(t.cfg) && t.cfg.timeOut <= gap
    ensures exists n :: Sweeps(timers, clock, n).tasks == [] && Sweeps(timers, clock, n).log == log
    ensures forall f :: Count(log, f) == Quota(timers, f)
  {
    var ts := timers;
    var k: nat := 0;
    log := [];
    ghost var n: nat := 0;
    while true
      invariant Ready(ts, clock, k, gap)
      invariant Trace(ts, log, k) == Sweeps(timers, clock, n)
      decreases Potential(ts)
    {
      var resumed, fired := ResumeEach(ts, clock, k);
      var kept := EraseExpired(resumed);
      DueSweep(ts, clock, k, gap);
      log := log + fired;
      k := k + |ts|;
      ts := kept;
      n := n + 1;
      if ts == [] {
        break;
      }
    }
    LoopEndCounts(timers, clock, n);
  }

  /** The three timers allow ten invocations of "one", three of "five" and
      one of "ten". */
  lemma SetupQuota(f: Callback)
    ensures Quota(SetupTimers(), f)
      == (if f == One then 10 else 0) + (if f == Five then 3 else 0) + (if f == Ten then 1 else 0)
  {
    var s := SetupTimers();
    assert s[..2][..1][..0] == [];
    assert s[..2][..1] == [NewTask(PrintOne)];
    assert s[..2] == [NewTask(PrintOne), NewTask(PrintFive)];
    assert Quota(s[..2][..1], f) == if f == One then 10 else 0;
    assert Quota(s[..2], f) == Quota(s[..2][..1], f) + if f == Five then 3 else 0;
  }

  /** `main`, on any clock: once the worker loop has exited, "one" has been
      printed 10 times, "five" 3 times and "ten" once, and nothing else
      has been invoked. */
  lemma MainPrintCounts(clock: nat -> Reading, n: nat)
    requires Sweeps(SetupTimers(), clock, n).tasks == []
    ensures var log := Sweeps(SetupTimers(), clock, n).log;
      && Count(log, One) == 10 && Count(log, Five) == 3 && Count(log, Ten) == 1
      && forall f :: f != One && f != Five && f != Ten ==> Count(log, f) == 0
  {
    LoopEndCounts(SetupTimers(), clock, n);
    forall f
      ensures Quota(SetupTimers(), f)
        == (if f == One then 10 else 0) + (if f == Five then 3 else 0) + (if f == Ten then 1 else 0)
    {
      SetupQuota(f);
    }
  }

  /** `main` on a clock that leaves at least ten seconds between resumes:
      the loop is then certain to exit, with the counts above. */
  method RunMain(clock: nat -> Reading) returns (log: seq<Callback>)
    requires SteadyClock(clock, 10 * TicksPerSecond)
    ensures Count(log, One) == 10 && Count(log, Five) == 3 && Count(log, Ten) == 1
    ensures forall f :: f != One && f != Five && f != Ten ==> Count(log, f) == 0
  {
    log := Drive(SetupTimers(), clock, 10 * TicksPerSecond);
    forall f
      ensures Quota(SetupTimers(), f)
        == (if f == One then 10 else 0) + (if f == Five then 3 else 0) + (if f == Ten then 1 else 0)
    {
      SetupQuota(f);
    }
  }
}
