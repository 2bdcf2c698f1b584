/**
  One sweep over a collection of timer tasks, as both loops in the system
  perform it: resume every task once in index order, then erase the tasks
  that report expiry with `remove_if`/`erase`, keeping the survivors' order.

  The sweep is given as specification functions (`ResumeAll`, `Survivors`)
  with the loops that compute them (`ResumeEach`, `EraseExpired`), and the
  accounting used to show that repeated sweeps invoke every callback exactly
  its limit and then empty the collection.
 */
module Sweep {
  import opened Coroutine

  /** The tasks after a sweep's resumes, and the functors invoked, in order. */
  datatype Pass = Pass(tasks: seq<TaskState>, log: seq<Callback>)

  /** Resuming `ts[i]` with reading `clock(base + i)`, for every index in
      order. */
  function ResumeAll(ts: seq<TaskState>, clock: nat -> Reading, base: nat): (p: Pass)
    ensures |p.tasks| == |ts| && |p.log| <= |ts|
  {
    if ts == [] then Pass([], [])
    else
      var p := ResumeAll(ts[..|ts| - 1], clock, base);
      var s := Step(ts[|ts| - 1], clock(base + |ts| - 1));
      Pass(p.tasks + [s.task], p.log + if s.fired then [ts[|ts| - 1].cfg.functor] else [])
  }

  /** The sweep resumes every task exactly once, in index order: task `i`
      is resumed with the `i`-th reading and nothing else touches it. */
  lemma {:induction false} ResumeAllAt(ts: seq<TaskState>, clock: nat -> Reading, base: nat)
    ensures forall i :: 0 <= i < |ts| ==> ResumeAll(ts, clock, base).tasks[i] == Step(ts[i], clock(base + i)).task
  {
    if ts != [] {
      ResumeAllAt(ts[..|ts| - 1], clock, base);
    }
  }

  /** A sweep over one more task is the shorter sweep followed by that
      task's resume. */
  lemma ResumeAllSnoc(ts: seq<TaskState>, clock: nat -> Reading, base: nat)
    requires ts != []
    ensures var n := |ts| - 1;
      var p := ResumeAll(ts[..n], clock, base);
      var s := Step(ts[n], clock(base + n));
      ResumeAll(ts, clock, base) == Pass(p.tasks + [s.task], p.log + if s.fired then [ts[n].cfg.functor] else [])
  {
  }

  /** The tasks that do not report expiry, in their original order. */
  function Survivors(ts: seq<TaskState>): (r: seq<TaskState>)
    ensures |r| <= |ts|
  {
    if ts == [] then []
    else if ts[|ts| - 1].value.expired then Survivors(ts[..|ts| - 1])
    else Survivors(ts[..|ts| - 1]) + [ts[|ts| - 1]]
  }

  /** The `for (auto& t : tasks) t.resume()` loop. */
  method ResumeEach(ts: seq<TaskState>, clock: nat -> Reading, base: nat) returns (resumed: seq<TaskState>, log: seq<Callback>)
    ensures Pass(resumed, log) == ResumeAll(ts, clock, base)
  {
    resumed, log := ts, [];
    for i := 0 to |ts|
      invariant |resumed| == |ts|
      invariant Pass(resumed[..i], log) == ResumeAll(ts[..i], clock, base)
      invariant resumed[i..] == ts[i..]
    {
      assert ts[..i + 1][..i] == ts[..i];
      var s := Step(resumed[i], clock(base + i));
      if s.fired {
        log := log + [resumed[i].cfg.functor];
      }
      resumed := resumed[i := s.task];
      assert resumed[..i + 1] == resumed[..i] + [s.task];
    }
    assert resumed[..|ts|] == resumed && ts[..|ts|] == ts;
  }

  /** `erase(remove_if(begin, end, expired), end)`: survivors are moved down
      to a growing prefix, which is all that is kept. */
  method EraseExpired(ts: seq<TaskState>) returns (kept: seq<TaskState>)
    ensures kept == Survivors(ts)
  {
    var buf := ts;
    var w := 0;
    for r := 0 to |ts|
      invariant w <= r && |buf| == |ts|
      invariant buf[..w] == Survivors(ts[..r])
      invariant forall j :: r <= j < |ts| ==> buf[j] == ts[j]
    {
      assert ts[..r + 1][..r] == ts[..r];
      if !buf[r].value.expired {
        buf := buf[w := buf[r]];
        assert buf[..w + 1] == buf[..w] + [ts[r]];
        w := w + 1;
      }
    }
    assert ts[..|ts|] == ts;
    kept := buf[..w];
  }

  /** Exactly the tasks that do not report expiry survive. */
  lemma {:induction false} SurvivorsMembers(ts: seq<TaskState>)
    ensures forall t :: t in Survivors(ts) <==> t in ts && !t.value.expired
  {
    if ts != [] {
      SurvivorsMembers(ts[..|ts| - 1]);
      assert ts == ts[..|ts| - 1] + [ts[|ts| - 1]];
    }
  }

  /** Erasing is an order-preserving filter: it distributes over
      concatenation. */
  lemma {:induction false} SurvivorsAppend(a: seq<TaskState>, b: seq<TaskState>)
    ensures Survivors(a + b) == Survivors(a) + Survivors(b)
  {
    if b == [] {
      assert a + b == a;
    } else {
      var b' := b[..|b| - 1];
      SurvivorsAppend(a, b');
      assert (a + b)[..|a + b| - 1] == a + b';
    }
  }

  // ---------------------------------------------------------------------
  // Accounting for repeated sweeps

  /** How often `f` occurs in a log of invocations. */
  function Count(log: seq<Callback>, f: Callback): nat
  {
    if log == [] then 0 else Count(log[..|log| - 1], f) + if log[|log| - 1] == f then 1 else 0
  }

  /** Firings still to come for one task. */
  function Remaining(t: TaskState): nat
  {
    if t.value.count <= Limit(t.cfg) then Limit(t.cfg) - t.value.count else 0
  }

  /** The invocations of `f` that the tasks still owe. */
  function Owed(ts: seq<TaskState>, f: Callback): nat
  {
    if ts == [] then 0
    else Owed(ts[..|ts| - 1], f) + if ts[|ts| - 1].cfg.functor == f then Remaining(ts[|ts| - 1]) else 0
  }

  /** The invocations of `f` that the tasks' repeat policies allow in all. */
  function Quota(ts: seq<TaskState>, f: Callback): nat
  {
    if ts == [] then 0
    else Quota(ts[..|ts| - 1], f) + if ts[|ts| - 1].cfg.functor == f then Limit(ts[|ts| - 1].cfg) else 0
  }

  /** A measure that every resume of a live task on time decreases. */
  function Rank(t: TaskState): nat
  {
    Remaining(t) + if t.frame.NotStarted? then 1 else 0
  }

  function Potential(ts: seq<TaskState>): nat
  {
    if ts == [] then 0 else Potential(ts[..|ts| - 1]) + Rank(ts[|ts| - 1])
  }

  /** A resume of a live task that either starts its clock or finds its
      period elapsed. */
  predicate Progress(t: TaskState, r: Reading)
  {
    !t.value.expired && (t.frame.NotStarted? || Due(t, r))
  }

  ghost predicate AllWf(ts: seq<TaskState>)
  {
    forall i :: 0 <= i < |ts| ==> Wf(ts[i])
  }

  lemma {:induction false} CountAppend(a: seq<Callback>, b: seq<Callback>, f: Callback)
    ensures Count(a + b, f) == Count(a, f) + Count(b, f)
  {
    if b == [] {
      assert a + b == a;
    } else {
      CountAppend(a, b[..|b| - 1], f);
      assert (a + b)[..|a + b| - 1] == a + b[..|b| - 1];
    }
  }

  /** Owed invocations add up over concatenation. */
  lemma {:induction false} OwedAppend(a: seq<TaskState>, b: seq<TaskState>, f: Callback)
    ensures Owed(a + b, f) == Owed(a, f) + Owed(b, f)
  {
    if b == [] {
      assert a + b == a;
    } else {
      OwedAppend(a, b[..|b| - 1], f);
      assert (a + b)[..|a + b| - 1] == a + b[..|b| - 1];
    }
  }

  /** A live reachable task has fired fewer times than its limit. */
  lemma LiveBelowLimit(ts: seq<TaskState>)
    requires AllWf(ts) && forall t <- ts :: !t.value.expired
    ensures forall t <- ts :: t.value.count < Limit(t.cfg)
  {
    forall t <- ts
      ensures t.value.count < Limit(t.cfg)
    {
      var i :| 0 <= i < |ts| && ts[i] == t;
    }
  }

  /** Resuming well-formed tasks gives well-formed tasks. */
  lemma {:induction false} ResumeAllWf(ts: seq<TaskState>, clock: nat -> Reading, base: nat)
    requires AllWf(ts)
    ensures AllWf(ResumeAll(ts, clock, base).tasks)
  {
    if ts != [] {
      var n := |ts| - 1;
      ResumeAllWf(ts[..n], clock, base);
      StepPreservesWf(ts[n], clock(base + n));
    }
  }

  /** A resume moves exactly the invocation it makes from "owed" to "done". */
  lemma StepOwes(t: TaskState, r: Reading)
    requires Wf(t)
    ensures var s := Step(t, r);
      && s.task.cfg == t.cfg
      && Remaining(s.task) + (if s.fired then 1 else 0) == Remaining(t)
      && (Progress(t, r) ==> Rank(s.task) < Rank(t))
  {
    StepFiring(t, r);
    StepPreservesWf(t, r);
  }

  lemma OwedSnocTask(ts: seq<TaskState>, t: TaskState, f: Callback)
    ensures Owed(ts + [t], f) == Owed(ts, f) + if t.cfg.functor == f then Remaining(t) else 0
  {
    assert (ts + [t])[..|ts|] == ts;
  }

  lemma PotentialSnoc(ts: seq<TaskState>, t: TaskState)
    ensures Potential(ts + [t]) == Potential(ts) + Rank(t)
  {
    assert (ts + [t])[..|ts|] == ts;
  }

  /** Appending one resumed task and what its resume invoked moves exactly
      what that task owed before into the two sides of the account. */
  lemma {:induction false} OwedSnoc(tasks: seq<TaskState>, log: seq<Callback>, t: TaskState, s: Resumed, f: Callback)
    requires s.task.cfg == t.cfg
    requires Remaining(s.task) + (if s.fired then 1 else 0) == Remaining(t)
    ensures var fired := if s.fired then [t.cfg.functor] else [];
      Count(log + fired, f) + Owed(tasks + [s.task], f)
        == Count(log, f) + Owed(tasks, f) + if t.cfg.functor == f then Remaining(t) else 0
  {
    var fired := if s.fired then [t.cfg.functor] else [];
    CountAppend(log, fired, f);
    OwedSnocTask(tasks, s.task, f);
    if s.fired {
      assert Count(fired, f) == Count([], f) + if t.cfg.functor == f then 1 else 0;
    }
  }

  /** Over a whole sweep of resumes, invocations of `f` made plus those
      still owed equal those owed before. */
  lemma {:induction false} ResumeAllOwed(ts: seq<TaskState>, clock: nat -> Reading, base: nat, f: Callback)
    requires AllWf(ts)
    ensures Count(ResumeAll(ts, clock, base).log, f) + Owed(ResumeAll(ts, clock, base).tasks, f) == Owed(ts, f)
  {
    if ts != [] {
      var n := |ts| - 1;
      ResumeAllOwed(ts[..n], clock, base, f);
      var p0 := ResumeAll(ts[..n], clock, base);
      var s := Step(ts[n], clock(base + n));
      var fired := if s.fired then [ts[n].cfg.functor] else [];
      var owed := if ts[n].cfg.functor == f then Remaining(ts[n]) else 0;
      calc {
        Count(ResumeAll(ts, clock, base).log, f) + Owed(ResumeAll(ts, clock, base).tasks, f);
        { ResumeAllSnoc(ts, clock, base); }
        Count(p0.log + fired, f) + Owed(p0.tasks + [s.task], f);
        { StepOwes(ts[n], clock(base + n));
          OwedSnoc(p0.tasks, p0.log, ts[n], s, f); }
        Count(p0.log, f) + Owed(p0.tasks, f) + owed;
        Owed(ts[..n], f) + owed;
        Owed(ts, f);
      }
    }
  }

  /** A sweep in which every resume makes progress lowers the potential by at
      least one per task. */
  lemma {:induction false} ResumeAllPotential(ts: seq<TaskState>, clock: nat -> Reading, base: nat)
    requires forall i :: 0 <= i < |ts| ==> Wf(ts[i]) && Progress(ts[i], clock(base + i))
    ensures Potential(ResumeAll(ts, clock, base).tasks) + |ts| <= Potential(ts)
  {
    if ts != [] {
      var n := |ts| - 1;
      ResumeAllPotential(ts[..n], clock, base);
      StepOwes(ts[n], clock(base + n));
      var p := ResumeAll(ts, clock, base);
      assert p.tasks[..n] == ResumeAll(ts[..n], clock, base).tasks;
    }
  }

  /** Erasing expired tasks loses nothing that is owed. */
  lemma {:induction false} SurvivorsOwed(ts: seq<TaskState>, f: Callback)
    requires AllWf(ts)
    ensures Owed(Survivors(ts), f) == Owed(ts, f)
  {
    if ts != [] {
      var n := |ts| - 1;
      var last := ts[n];
      SurvivorsOwed(ts[..n], f);
      var s := Survivors(ts[..n]);
      if last.value.expired {
        assert Remaining(last) == 0;
      } else {
        OwedSnocTask(s, last, f);
      }
    }
  }

  /** Erasing keeps only well-formed tasks when given only those. */
  lemma {:induction false} SurvivorsWf(ts: seq<TaskState>)
    requires AllWf(ts)
    ensures AllWf(Survivors(ts))
  {
    if ts != [] {
      var n := |ts| - 1;
      SurvivorsWf(ts[..n]);
      var s := Survivors(ts[..n]);
      if !ts[n].value.expired {
        assert Survivors(ts) == s + [ts[n]];
      }
    }
  }

  /** Erasing never raises the potential. */
  lemma {:induction false} SurvivorsPotential(ts: seq<TaskState>)
    ensures Potential(Survivors(ts)) <= Potential(ts)
  {
    if ts != [] {
      var n := |ts| - 1;
      SurvivorsPotential(ts[..n]);
      var s := Survivors(ts[..n]);
      if !ts[n].value.expired {
        PotentialSnoc(s, ts[n]);
      }
    }
  }

  /** Before any resume, each task owes its whole quota. */
  lemma {:induction false} OwedOfFresh(ts: seq<TaskState>, f: Callback)
    requires forall t <- ts :: t == NewTask(t.cfg)
    ensures Owed(ts, f) == Quota(ts, f)
  {
    if ts != [] {
      assert ts[|ts| - 1] in ts && forall t <- ts[..|ts| - 1] :: t in ts;
      OwedOfFresh(ts[..|ts| - 1], f);
    }
  }

  // ---------------------------------------------------------------------
  // Sweeps on a steady clock

  /** A clock on which every resume starts at least `gap` ticks after every
      earlier resume ended; `clock(k)` is the `k`-th resume's reading. */
  ghost predicate SteadyClock(clock: nat -> Reading, gap: nat)
  {
    && (forall i: nat :: clock(i).now <= clock(i).after)
    && (forall i: nat, j: nat :: i < j ==> clock(i).after + gap <= clock(j).now)
  }

  /** Any stretch of consecutive readings of a steady clock is a steady
      sequence of readings in the sense of `Steady`, so the single-task
      results `SteadyPrefix` and `SteadyRunFiresLimit` apply to it. */
  lemma SteadyClockReadings(clock: nat -> Reading, gap: nat, k: nat, n: nat)
    requires SteadyClock(clock, gap)
    ensures var rs := seq(n, i requires 0 <= i => clock(k + i));
      Steady(rs, gap)
  {
    var rs := seq(n, i requires 0 <= i => clock(k + i));
    forall i, j | 0 <= i < j < |rs|
      ensures rs[i].after + gap <= rs[j].now
    {
      assert k + i < k + j;
    }
  }

  /** Tasks that are live, whose period the gap covers, and whose current
      period started no later than the end of resume `k - 1`. */
  ghost predicate Ready(ts: seq<TaskState>, clock: nat -> Reading, k: nat, gap: nat)
  {
    forall t <- ts ::
      && Wf(t) && !t.value.expired && t.cfg.timeOut <= gap
      && (t.frame.Waiting? ==> k > 0 && t.frame.start <= clock(k - 1).after)
  }

  /** On a steady clock, every task of a ready collection is on time when
      the sweep starting at resume `k` reaches it. */
  lemma SweepOnTime(ts: seq<TaskState>, clock: nat -> Reading, k: nat, gap: nat)
    requires SteadyClock(clock, gap) && Ready(ts, clock, k, gap)
    ensures forall i :: 0 <= i < |ts| ==> Wf(ts[i]) && Progress(ts[i], clock(k + i))
  {
    forall i | 0 <= i < |ts|
      ensures Wf(ts[i]) && Progress(ts[i], clock(k + i))
    {
      assert ts[i] in ts;
      if ts[i].frame.Waiting? {
        assert clock(k - 1).after + gap <= clock(k + i).now;
      }
    }
  }

  /** A resume of a live task whose period started by `bound`, read no later
      than `bound`, leaves any period in progress started by `bound`. */
  lemma StepRestarts(t: TaskState, r: Reading, bound: Instant)
    requires Wf(t) && r.now <= r.after <= bound
    requires t.frame.Waiting? ==> t.frame.start <= bound
    ensures var s := Step(t, r).task;
      s.cfg == t.cfg && (s.frame.Waiting? ==> s.frame.start <= bound)
  {
    StepFiring(t, r);
  }

  /** The resume of task `i` in a sweep of ready tasks starting at resume
      `k` leaves any period in progress started by the end of the sweep. */
  lemma SweepRestartsAt(ts: seq<TaskState>, clock: nat -> Reading, k: nat, gap: nat, i: nat)
    requires SteadyClock(clock, gap) && Ready(ts, clock, k, gap) && i < |ts|
    ensures var s := Step(ts[i], clock(k + i)).task;
      && s.cfg.timeOut <= gap
      && (s.frame.Waiting? ==> s.frame.start <= clock(k + |ts| - 1).after)
  {
    var t := ts[i];
    var last := k + |ts| - 1;
    assert t in ts;
    assert clock(k + i).now <= clock(k + i).after <= clock(last).after by {
      if k + i < last {
        assert clock(k + i).after + gap <= clock(last).now;
      }
    }
    if t.frame.Waiting? {
      assert clock(k - 1).after + gap <= clock(last).now;
    }
    StepRestarts(t, clock(k + i), clock(last).after);
  }

  /** After the sweep every task's period is covered by the gap, and any
      period in progress started no later than the end of the sweep's last
      resume. */
  lemma SweepRestarts(ts: seq<TaskState>, clock: nat -> Reading, k: nat, gap: nat)
    requires SteadyClock(clock, gap) && Ready(ts, clock, k, gap) && ts != []
    ensures var p := ResumeAll(ts, clock, k);
      forall i :: 0 <= i < |p.tasks| ==>
        && p.tasks[i].cfg.timeOut <= gap
        && (p.tasks[i].frame.Waiting? ==> p.tasks[i].frame.start <= clock(k + |ts| - 1).after)
  {
    ResumeAllAt(ts, clock, k);
    forall i | 0 <= i < |ts| {
      SweepRestartsAt(ts, clock, k, gap, i);
    }
  }

  /** Survivors of a sweep whose tasks are all well formed and have started
      their periods by `bound` are ready for the next sweep. */
  lemma SurvivorsReady(ts: seq<TaskState>, clock: nat -> Reading, k: nat, gap: nat)
    requires k > 0 && AllWf(ts)
    requires forall i :: 0 <= i < |ts| ==>
      && ts[i].cfg.timeOut <= gap
      && (ts[i].frame.Waiting? ==> ts[i].frame.start <= clock(k - 1).after)
    ensures Ready(Survivors(ts), clock, k, gap)
  {
    SurvivorsMembers(ts);
  }

  /** The state of a loop that sweeps repeatedly: the tasks left, the
      invocations so far, and the index of the next resume. */
  datatype Trace = Trace(tasks: seq<TaskState>, log: seq<Callback>, next: nat)

  /** One sweep followed by the erase, continuing the clock's readings. */
  function SweepOnce(tr: Trace, clock: nat -> Reading): (r: Trace)
    ensures r.next == tr.next + |tr.tasks| && |r.tasks| <= |tr.tasks|
    ensures forall t <- r.tasks :: !t.value.expired
  {
    var p := ResumeAll(tr.tasks, clock, tr.next);
    SurvivorsMembers(p.tasks);
    Trace(Survivors(p.tasks), tr.log + p.log, tr.next + |tr.tasks|)
  }

  /** A sweep followed by the erase accounts for every invocation of every
      callback: those made plus those still owed equal those owed before. */
  lemma SweepAccounts(ts: seq<TaskState>, clock: nat -> Reading, base: nat)
    requires AllWf(ts)
    ensures var p := ResumeAll(ts, clock, base);
      forall f :: Count(p.log, f) + Owed(Survivors(p.tasks), f) == Owed(ts, f)
  {
    var p := ResumeAll(ts, clock, base);
    ResumeAllWf(ts, clock, base);
    forall f
      ensures Count(p.log, f) + Owed(Survivors(p.tasks), f) == Owed(ts, f)
    {
      ResumeAllOwed(ts, clock, base, f);
      SurvivorsOwed(p.tasks, f);
    }
  }

  /** Ready tasks are well formed. */
  lemma ReadyWf(ts: seq<TaskState>, clock: nat -> Reading, k: nat, gap: nat)
    requires Ready(ts, clock, k, gap)
    ensures AllWf(ts)
  {
    forall i | 0 <= i < |ts|
      ensures Wf(ts[i])
    {
      assert ts[i] in ts;
    }
  }

  /** One sweep starting at resume `k` of a steady clock: invocations are
      accounted for, the tasks left are ready for the next sweep, and the
      potential drops whenever there was a task. */
  lemma DueSweep(ts: seq<TaskState>, clock: nat -> Reading, k: nat, gap: nat)
    requires SteadyClock(clock, gap) && Ready(ts, clock, k, gap)
    ensures var p := ResumeAll(ts, clock, k);
      && Ready(Survivors(p.tasks), clock, k + |ts|, gap)
      && (forall f :: Count(p.log, f) + Owed(Survivors(p.tasks), f) == Owed(ts, f))
      && (ts != [] ==> Potential(Survivors(p.tasks)) < Potential(ts))
  {
    var p := ResumeAll(ts, clock, k);
    ReadyWf(ts, clock, k, gap);
    SweepAccounts(ts, clock, k);
    if ts != [] {
      ResumeAllWf(ts, clock, k);
      SweepOnTime(ts, clock, k, gap);
      ResumeAllPotential(ts, clock, k);
      SurvivorsPotential(p.tasks);
      SweepRestarts(ts, clock, k, gap);
      SurvivorsReady(p.tasks, clock, k + |ts|, gap);
    }
  }
}
