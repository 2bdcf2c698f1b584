/**
  The periodic timer coroutine `task(timeOut, functor, repeat, repeatCount)`
  and the `Task` handle that owns it.

  The coroutine frame is made explicit: its suspension point, its mutable
  locals `start`, `count` and `expired`, and the promise's last yielded
  `{mCount, mExpired}` record. `steady_clock` is replaced by a `Reading`
  handed to every resume, and the functor is an opaque `Callback`.
 */
module Coroutine {

  /** A steady-clock timestamp, in clock ticks. */
  type Instant = int

  /** The clock as one resume sees it: `now` is read before the elapsed-time
      test (and, on the very first resume, also as the initial `start`);
      `after` is read once the functor has returned. */
  datatype Reading = Reading(now: Instant, after: Instant)

  /** The user's functor, known only by its identity. */
  datatype Callback = Callback(id: nat)

  /** The coroutine's parameters: the period in clock ticks, the functor and
      the repeat policy (`repeat` defaults to true and `repeatCount` to 0). */
  datatype Config = Config(timeOut: int, functor: Callback, repeat: bool, repeatCount: nat)

  /** The record the coroutine yields and `Task::value` reports. */
  datatype YieldType = YieldType(count: int, expired: bool)

  /** Where the coroutine is suspended, with the locals that are live there. */
  datatype Frame =
    | NotStarted                             // initial_suspend: nothing has run
    | Waiting(start: Instant, count: int)    // at the co_yield inside the loop
    | FinalYield(count: int)                 // at the co_yield after the loop
    | Done                                   // ran off the end: final_suspend

  /** The whole observable state of one coroutine. */
  datatype TaskState = TaskState(cfg: Config, frame: Frame, value: YieldType)

  /** The outcome of one `Task::resume`: the new state, the boolean that
      `resume` returns, and whether the functor was invoked. */
  datatype Resumed = Resumed(task: TaskState, alive: bool, fired: bool)

  /** The expiry test applied after the `count`-th firing. For a positive
      count it holds exactly from the `Limit(cfg)`-th firing on. */
  predicate ExpiresAt(cfg: Config, count: int)
    ensures count >= 1 ==> (ExpiresAt(cfg, count) <==> count >= Limit(cfg))
  {
    !cfg.repeat || (cfg.repeat && count >= cfg.repeatCount)
  }

  /** How many times the functor can fire before the timer expires. */
  function Limit(cfg: Config): nat
  {
    if cfg.repeat && cfg.repeatCount > 1 then cfg.repeatCount else 1
  }

  /** The number of resumes spent before the first firing on a steady clock:
      the first resume sees an elapsed time of zero. */
  function Delay(cfg: Config): nat
  {
    if cfg.timeOut <= 0 then 0 else 1
  }

  /** States that can arise from creating a task and resuming it. */
  ghost predicate Wf(t: TaskState)
  {
    match t.frame
    case NotStarted => t.value == YieldType(0, false)
    case Waiting(_, c) => 0 <= c < Limit(t.cfg) && t.value == YieldType(c, false)
    case FinalYield(c) => c == Limit(t.cfg) && t.value == YieldType(c, true)
    case Done => t.value == YieldType(Limit(t.cfg), true)
  }

  /** Calling the coroutine function: suspended at `initial_suspend`, with the
      promise's default-initialised record. */
  function NewTask(cfg: Config): (t: TaskState)
    ensures Wf(t) && t.cfg == cfg
    ensures t.value == YieldType(0, false)
  {
    TaskState(cfg, NotStarted, YieldType(0, false))
  }

  /** One pass through the loop body, from reading the clock to the next
      `co_yield`, with the locals `start` and `count` on entry. */
  function LoopBody(cfg: Config, start: Instant, count: int, r: Reading): (s: Resumed)
    ensures s.alive && s.task.cfg == cfg
    ensures s.fired <==> r.now - start >= cfg.timeOut
    ensures s.task.value.count == if s.fired then count + 1 else count
    ensures s.task.value.expired <==> s.fired && ExpiresAt(cfg, count + 1)
    ensures !s.task.value.expired ==> s.task.frame == Waiting(if s.fired then r.after else start, s.task.value.count)
    ensures s.task.value.expired ==> s.task.frame == FinalYield(count + 1)
  {
    if r.now - start >= cfg.timeOut then
      var fired := count + 1;
      if ExpiresAt(cfg, fired) then
        Resumed(TaskState(cfg, FinalYield(fired), YieldType(fired, true)), true, true)
      else
        Resumed(TaskState(cfg, Waiting(r.after, fired), YieldType(fired, false)), true, true)
    else
      Resumed(TaskState(cfg, Waiting(start, count), YieldType(count, false)), true, false)
  }

  /** `Task::resume`: resume the coroutine unless it is done, then report
      whether it is still not done. */
  function Step(t: TaskState, r: Reading): (s: Resumed)
    ensures s.task.cfg == t.cfg
    ensures s.alive <==> t.frame.NotStarted? || t.frame.Waiting?
    ensures s.fired ==> s.alive
    ensures !s.task.frame.NotStarted?
    ensures !s.alive ==> s.task.frame == Done && s.task.value == t.value
  {
    match t.frame
    case NotStarted => LoopBody(t.cfg, r.now, 0, r)
    case Waiting(start, count) => LoopBody(t.cfg, start, count, r)
    case FinalYield(_) => Resumed(t.(frame := Done), false, false)
    case Done => Resumed(t, false, false)
  }

  /** Whether a resume at reading `r` finds the period elapsed. */
  predicate Due(t: TaskState, r: Reading)
  {
    match t.frame
    case NotStarted => 0 >= t.cfg.timeOut
    case Waiting(start, _) => r.now - start >= t.cfg.timeOut
    case FinalYield(_) => false
    case Done => false
  }

  /** The state after resuming `t` once per reading, in order. */
  function Run(t: TaskState, rs: seq<Reading>): TaskState
  {
    if rs == [] then t else Step(Run(t, rs[..|rs| - 1]), rs[|rs| - 1]).task
  }

  /** How many times the functor is invoked while resuming `t` once per reading. */
  function Firings(t: TaskState, rs: seq<Reading>): nat
  {
    if rs == [] then 0
    else Firings(t, rs[..|rs| - 1]) + (if Step(Run(t, rs[..|rs| - 1]), rs[|rs| - 1]).fired then 1 else 0)
  }

  /** A clock on which every resume starts at least `gap` ticks after every
      earlier resume ended. */
  ghost predicate Steady(rs: seq<Reading>, gap: nat)
  {
    && (forall i :: 0 <= i < |rs| ==> rs[i].now <= rs[i].after)
    && (forall i, j :: 0 <= i < j < |rs| ==> rs[i].after + gap <= rs[j].now)
  }

  function Min(a: int, b: int): int { if a <= b then a else b }

  // ---------------------------------------------------------------------
  // Properties of one resume

  /** `Limit` is the first firing count at which the expiry test holds. */
  lemma LimitIsFirstExpiry(cfg: Config)
    ensures Limit(cfg) >= 1 && ExpiresAt(cfg, Limit(cfg))
    ensures forall c :: 1 <= c < Limit(cfg) ==> !ExpiresAt(cfg, c)
  {
  }

  /** The first resume starts the clock: creation time plays no part, and the
      functor fires at once only when the period is not positive. */
  lemma FirstResumeStartsClock(cfg: Config, r: Reading)
    ensures Step(NewTask(cfg), r).alive
    ensures Step(NewTask(cfg), r).fired <==> cfg.timeOut <= 0
    ensures cfg.timeOut > 0 ==> Step(NewTask(cfg), r).task == TaskState(cfg, Waiting(r.now, 0), YieldType(0, false))
  {
  }

  /** One resume fires the functor exactly when the period has elapsed; a
      firing adds one to the count and restarts the period at the reading
      taken after the functor; otherwise count and start are kept. */
  lemma StepFiring(t: TaskState, r: Reading)
    requires Wf(t)
    ensures var s := Step(t, r);
      && s.task.cfg == t.cfg
      && (s.fired <==> Due(t, r))
      && (s.fired ==> s.task.value.count == t.value.count + 1)
      && (s.fired && s.task.frame.Waiting? ==> s.task.frame.start == r.after)
      && (!s.fired ==> s.task.value.count == t.value.count)
      && (!s.fired && t.frame.Waiting? ==> s.task == t && s.task.value == YieldType(t.value.count, false))
  {
  }

  /** Resuming a well-formed state gives a well-formed state. */
  lemma StepPreservesWf(t: TaskState, r: Reading)
    requires Wf(t)
    ensures Wf(Step(t, r).task)
  {
    LimitIsFirstExpiry(t.cfg);
  }

  /** The firing that expires the timer is the one the expiry test selects. */
  lemma StepExpires(t: TaskState, r: Reading)
    requires Wf(t) && !t.value.expired
    ensures var s := Step(t, r);
      s.task.value.expired <==> s.fired && ExpiresAt(t.cfg, t.value.count + 1)
  {
  }

  /** Expiry and the end of the coroutine are two resumes apart: the resume
      that yields `expired` still returns true, and the next one ends it. */
  lemma ExpiringResumeStaysAlive(t: TaskState, r: Reading)
    requires Wf(t) && !t.value.expired
    ensures Step(t, r).alive
  {
  }

  lemma ExpiredResumeEnds(t: TaskState, r: Reading)
    requires Wf(t) && t.value.expired
    ensures var s := Step(t, r);
      !s.alive && !s.fired && s.task.frame == Done && s.task.value == t.value
  {
  }

  // ---------------------------------------------------------------------
  // Properties of a sequence of resumes

  /** Every resume of a well-formed state keeps it well-formed. */
  lemma {:induction false} RunPreservesWf(t: TaskState, rs: seq<Reading>)
    requires Wf(t)
    ensures Wf(Run(t, rs)) && Run(t, rs).cfg == t.cfg
  {
    if rs != [] {
      RunPreservesWf(t, rs[..|rs| - 1]);
      StepPreservesWf(Run(t, rs[..|rs| - 1]), rs[|rs| - 1]);
    }
  }

  /** The yielded count is the number of functor invocations so far. */
  lemma {:induction false} FiringsMatchCount(t: TaskState, rs: seq<Reading>)
    requires Wf(t)
    ensures Run(t, rs).value.count == t.value.count + Firings(t, rs)
  {
    if rs != [] {
      var p := rs[..|rs| - 1];
      FiringsMatchCount(t, p);
      RunPreservesWf(t, p);
      StepFiring(Run(t, p), rs[|rs| - 1]);
    }
  }

  /** Whatever the clock does, a task invokes its functor at most
      `Limit(cfg)` times: once when not repeating or when `repeatCount` is
      at most 1, and `repeatCount` times otherwise. */
  lemma FiringsAtMostLimit(cfg: Config, rs: seq<Reading>)
    ensures Firings(NewTask(cfg), rs) <= Limit(cfg)
  {
    FiringsMatchCount(NewTask(cfg), rs);
    RunPreservesWf(NewTask(cfg), rs);
  }

  /** Expiry is sticky: once expired, no later resume fires, returns true or
      changes the reported record. */
  lemma {:induction false} ExpirySticky(t: TaskState, rs: seq<Reading>)
    requires Wf(t) && t.value.expired
    ensures Firings(t, rs) == 0
    ensures Run(t, rs).value == t.value
    ensures rs != [] ==> Run(t, rs).frame == Done
    ensures rs != [] ==> !Step(Run(t, rs[..|rs| - 1]), rs[|rs| - 1]).alive
  {
    if rs != [] {
      var p := rs[..|rs| - 1];
      ExpirySticky(t, p);
      RunPreservesWf(t, p);
      ExpiredResumeEnds(Run(t, p), rs[|rs| - 1]);
    }
  }

  /** On a steady clock whose gap covers the period, the first resume starts
      the clock and every later one fires until the limit is reached. */
  lemma {:induction false} SteadyPrefix(cfg: Config, rs: seq<Reading>, gap: nat, k: nat)
    requires Steady(rs, gap) && cfg.timeOut <= gap
    requires 1 <= k <= |rs|
    ensures var t := Run(NewTask(cfg), rs[..k]);
      && Wf(t) && t.cfg == cfg
      && t.value.count == Min(k - Delay(cfg), Limit(cfg))
      && (t.value.expired <==> k - Delay(cfg) >= Limit(cfg))
      && (t.frame.Waiting? ==> t.frame.start <= rs[k - 1].after)
  {
    var t0 := NewTask(cfg);
    LimitIsFirstExpiry(cfg);
    if k == 1 {
      assert rs[..1][..0] == [];
    } else {
      SteadyPrefix(cfg, rs, gap, k - 1);
      assert rs[..k][..k - 1] == rs[..k - 1];
      var prev := Run(t0, rs[..k - 1]);
      StepPreservesWf(prev, rs[k - 1]);
      if prev.frame.Waiting? {
        assert rs[k - 2].after + gap <= rs[k - 1].now;
      }
    }
  }

  /** On such a clock the timer fires exactly `Limit(cfg)` times and reports
      expiry after `Limit(cfg) + Delay(cfg)` resumes; it never fires again. */
  lemma SteadyRunFiresLimit(cfg: Config, rs: seq<Reading>, gap: nat)
    requires Steady(rs, gap) && cfg.timeOut <= gap
    requires |rs| >= Limit(cfg) + Delay(cfg)
    ensures Run(NewTask(cfg), rs).value == YieldType(Limit(cfg), true)
    ensures Firings(NewTask(cfg), rs) == Limit(cfg)
  {
    SteadyPrefix(cfg, rs, gap, |rs|);
    assert rs[..|rs|] == rs;
    FiringsMatchCount(NewTask(cfg), rs);
  }

  // ---------------------------------------------------------------------
  // The coroutine frame and its owning handle, as heap objects

  /** Suspension points of the coroutine body. */
  datatype Point = Initial | LoopYield | FinalPoint | Finished

  /** The coroutine frame: the promise's record and the body's locals. */
  class CoroutineFrame {
    const cfg: Config
    var point: Point
    var start: Instant
    var count: int
    var expired: bool
    var current: YieldType

    /** The abstract state this frame represents. */
    function State(): TaskState
      reads this
    {
      match point
      case Initial => TaskState(cfg, NotStarted, current)
      case LoopYield => TaskState(cfg, Waiting(start, count), current)
      case FinalPoint => TaskState(cfg, FinalYield(count), current)
      case Finished => TaskState(cfg, Done, current)
    }

    /** The yielded record agrees with the locals at each suspension point. */
    ghost predicate Valid()
      reads this
    {
      && (point == LoopYield ==> !expired && current == YieldType(count, false))
      && (point == FinalPoint ==> expired && current == YieldType(count, true))
    }

    /** `coroutine_handle::done`: the body has run off its end. */
    predicate IsDone()
      reads this
      ensures IsDone() <==> State().frame == Done
    {
      point == Finished
    }

    /** Calling `task(...)`: the frame is created and suspended at once. */
    constructor (cfg: Config)
      ensures Valid() && State() == NewTask(cfg)
    {
      this.cfg := cfg;
      point := Initial;
      current := YieldType(0, false);
    }

    /** `coroutine_handle::resume`: runs the body to its next suspension
        point; resuming a finished coroutine is undefined, hence required. */
    method Resume(r: Reading) returns (fired: bool)
      requires Valid() && !IsDone()
      modifies this
      ensures Valid()
      ensures State() == Step(old(State()), r).task
      ensures fired == Step(old(State()), r).fired
    {
      fired := false;
      if point == FinalPoint {
        point := Finished;
        return;
      }
      if point == Initial {
        start := r.now;
        count := 0;
        expired := false;
      }
      var elapsed := r.now - start;
      if elapsed >= cfg.timeOut {
        count := count + 1;
        fired := true;
        start := r.after;
        if !cfg.repeat || (cfg.repeat && count >= cfg.repeatCount) {
          expired := true;
          current := YieldType(count, expired);
          point := FinalPoint;
          return;
        }
      }
      current := YieldType(count, expired);
      point := LoopYield;
    }
  }

  /** `Task`: the move-only owner of one coroutine frame. */
  class Task {
    var coro: CoroutineFrame?

    constructor (h: CoroutineFrame?)
      ensures coro == h
    {
      coro := h;
    }

    /** Move construction takes the frame and leaves the source empty. */
    constructor Move(other: Task)
      modifies other
      ensures coro == old(other.coro) && other.coro == null
    {
      coro := other.coro;
      other.coro := null;
    }

    /** Move assignment: the frame previously owned is released, the source's
        frame is taken over and the source is left empty; assigning a task to
        itself changes nothing. */
    method MoveAssign(other: Task)
      modifies this, other
      ensures other == this ==> coro == old(coro)
      ensures other != this ==> coro == old(other.coro) && other.coro == null
    {
      if this != other {
        coro := other.coro;
        other.coro := null;
      }
    }

    /** `Task::resume`: returns false once the coroutine has finished, and
        then no longer touches it. */
    method Resume(r: Reading) returns (alive: bool)
      requires coro != null && coro.Valid()
      modifies coro
      ensures coro.Valid()
      ensures coro.State() == Step(old(coro.State()), r).task
      ensures alive == Step(old(coro.State()), r).alive
    {
      if !coro.IsDone() {
        var _ := coro.Resume(r);
      }
      alive := !coro.IsDone();
    }

    /** `Task::value`: the last record the coroutine yielded. */
    function Value(): (v: YieldType)
      requires coro != null
      reads this, coro
      ensures v == coro.State().value
    {
      coro.current
    }

    function Expired(): (e: bool)
      requires coro != null
      reads this, coro
      ensures e == coro.State().value.expired
    {
      Value().expired
    }
  }
}
