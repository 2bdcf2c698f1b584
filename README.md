# TimerTask in Dafny

This project models TimerTask, a small C++20 library of periodic timers built on
coroutines. It has four parts:

- **Coroutine** (`coroutine.dfy`) models the timer coroutine
  `task(timeOut, functor, repeat, repeatCount)` and the move-only `Task`
  handle that owns it.
  - The coroutine's frame is made explicit: where it is suspended, its locals
    `start`, `count` and `expired`, and the `{mCount, mExpired}` record it
    last yielded.
  - `Step` is the pure transition for one `Task::resume`.
  - Class `CoroutineFrame` runs the same body imperatively, and its `Resume`
    is proved equal to `Step`.
  - Class `Task` holds a nullable reference to its frame. It models the move
    constructor, move assignment, `resume`, `value` and `expired`.
- **Sweep** (`sweep.dfy`) models one pass of the loop that both drivers
  share: resume every task once in order, then
  `erase(remove_if(..., expired))`.
  - `ResumeAll` and `Survivors` are specification functions.
  - `ResumeEach` and `EraseExpired` are the loops that compute them.
  - An accounting argument shows that, on any clock, repeated sweeps that
    empty the collection have invoked every functor exactly as often as its
    repeat policy allows.
  - On a clock whose resumes are at least one period apart, the sweeps are
    also shown to empty the collection, so the loop ends.
- **Scheduler** (`scheduler.dfy`) models the `Timers` work-set of
  `TimerTask.h`. It keeps the pending list `newTasks`, the active list
  `mTasks`, the flag `mRunning` and the worker's future. The methods are
  `moveNewTimers`, `add`, `stop`, and one iteration of the worker's `run`
  loop.
- **Prototype** (`prototype.dfy`) models the driver in `TimerTask.cpp`. It
  sets up three timers (1 s ×10, 5 s ×3, 10 s once) and loops until the
  vector is empty. `TimerTask.cpp` repeats the header's coroutine and handle
  line for line, so both use the `Coroutine` module.

## Time and the functor

`steady_clock` is not modelled. Each resume receives a `Reading(now, after)`:

- `now` is the read before the elapsed-time test.
- `after` is the read that restarts the period once the functor has
  returned.

On the very first resume, the initial `start` and the first `end` are
treated as the same instant. So the first resume sees an elapsed time of
zero.

Durations are clock ticks (`TicksPerSecond` = 10^9). A functor is an opaque
`Callback`, and every invocation is appended to a log.

## Where the code and its documentation differ (the model follows the code)

- **Default `repeatCount`.** The comment at `main.cpp:10` documents the
  default `repeatCount` as "forever". The code's test
  `count >= repeatCount` holds after the first firing, so a default timer fires once and expires. The model
  does the same (`Limit`). `DefaultTimerTaskFiresOnce` states it.
- **Functor return value.** The example callbacks in `main.cpp` return
  `true` or `false` (`main.cpp:13`, `main.cpp:18`), as if the value meant
  something. In the code the functor type is `std::function<void(void)>`
  (`TimerTask.h:40`), so any return value is discarded. The model's functor
  returns nothing.
- **`main.cpp`.** It calls `Timers::add` with constructor arguments and a
  `Timers::addGroup` that the header does not declare. It is not part of
  this model.

## Model

| member | source | states |
|---|---|---|
| Coroutine.NewTask | TimerTask/TimerTask.h:68-73 | Calling `task` suspends at once with the promise's default record `{0, false}`, in a state the coroutine can reach (`Wf`). |
| Coroutine.ExpiresAt | TimerTask/TimerTask.h:83 | For a positive firing count, the expiry test holds exactly when the count has reached `Limit(cfg)`. |
| Coroutine.LoopBody | TimerTask/TimerTask.h:75-88 | One pass through the loop body stays alive and fires exactly when `now - start >= timeOut`. A firing adds one to the count. The task expires exactly on a firing whose new count passes the expiry test, suspending at the final `co_yield` (h:92); otherwise it waits at the loop's `co_yield`, with `start` restarted at the post-functor reading after a firing and kept otherwise. |
| Coroutine.Step | TimerTask/TimerTask.h:58-62 | `resume` on the coroutine keeps the configuration. It returns true exactly when the coroutine was at `initial_suspend` or the loop's `co_yield`, and only such a resume can fire. The coroutine is never back at `initial_suspend` afterwards. A resume that returns false leaves it done with the record unchanged. |
| Coroutine.LimitIsFirstExpiry | TimerTask/TimerTask.h:83-86 | `Limit(cfg)` is at least 1 and is the first firing count at which the expiry test `!repeat \|\| repeat && count >= repeatCount` holds. |
| Coroutine.FirstResumeStartsClock | TimerTask/TimerTask.h:71-79 | The first resume never ends the coroutine. It fires exactly when the period is not positive. Otherwise it waits with `start` set to that resume's reading and count 0. |
| Coroutine.StepFiring | TimerTask/TimerTask.h:76-88 | A resume fires exactly when the period has elapsed (`Due`). A firing adds one to the count and, when the loop goes on, restarts the period at the clock read after the functor. Without a firing, count and state are unchanged. |
| Coroutine.StepPreservesWf | TimerTask/TimerTask.h:75-92 | A resume keeps the state reachable: a waiting count below the limit, a final count equal to it, and a record that matches the locals. |
| Coroutine.StepExpires | TimerTask/TimerTask.h:83-85 | A live task reports expiry after a resume exactly when that resume fired and the new count passes the expiry test. |
| Coroutine.ExpiringResumeStaysAlive | TimerTask/TimerTask.h:58-62 | A resume of a live task returns true, even when it is the one that expires the timer. |
| Coroutine.ExpiredResumeEnds | TimerTask/TimerTask.h:92 | Resuming an expired task runs past the final `co_yield`. It returns false, does not fire, and keeps the reported record. |
| Coroutine.RunPreservesWf | TimerTask/TimerTask.h:75-92 | Any sequence of resumes keeps the state reachable and the configuration unchanged. |
| Coroutine.FiringsMatchCount | TimerTask/TimerTask.h:80-81 | The yielded `mCount` equals the number of functor invocations so far. |
| Coroutine.FiringsAtMostLimit | TimerTask/TimerTask.h:68-86 | Whatever the clock does, a task invokes its functor at most `Limit(cfg)` times. |
| Coroutine.ExpirySticky | TimerTask/TimerTask.h:58-62 | Once expired, later resumes never fire and never change the record. After one more resume the coroutine is done and `resume` returns false. |
| Coroutine.SteadyPrefix | TimerTask/TimerTask.h:75-90 | On a steady clock whose gap covers the period, after `k` resumes the count is `min(k - Delay, Limit)`. Expiry holds exactly when `k - Delay >= Limit`. |
| Coroutine.SteadyRunFiresLimit | TimerTask/TimerTask.h:79-86 | On such a clock, `Limit + Delay` resumes fire exactly `Limit` times and end with the record `{Limit, true}`. |
| Coroutine.CoroutineFrame.constructor | TimerTask/TimerTask.h:25-26 | A new frame represents `NewTask(cfg)`. |
| Coroutine.CoroutineFrame.IsDone | TimerTask/TimerTask.h:59-61 | `done()` holds exactly when the frame has run off the body's end. |
| Coroutine.CoroutineFrame.Resume | TimerTask/TimerTask.h:68-93 | Running the body imperatively to its next suspension point yields exactly `Step`'s new state and firing. |
| Coroutine.Task.constructor | TimerTask/TimerTask.h:42 | The handle owns the given frame. |
| Coroutine.Task.Move | TimerTask/TimerTask.h:45-47 | Move construction takes the frame and leaves the source empty. |
| Coroutine.Task.MoveAssign | TimerTask/TimerTask.h:49-56 | Move assignment takes the source's frame and empties the source. Self-assignment changes nothing. |
| Coroutine.Task.Resume | TimerTask/TimerTask.h:58-62 | `resume` moves the frame by `Step` and returns whether the coroutine is not done. A finished coroutine is left untouched. |
| Coroutine.Task.Value | TimerTask/TimerTask.h:64 | `value()` is the record of the frame's state. |
| Coroutine.Task.Expired | TimerTask/TimerTask.h:65 | `expired()` is that record's expiry flag. |
| Sweep.ResumeAll | TimerTask/TimerTask.h:115-116 | A sweep keeps the number of tasks and makes at most one invocation per task. |
| Sweep.ResumeAllAt | TimerTask/TimerTask.h:115-116 | Task `i` is resumed exactly once, with the `i`-th reading. |
| Sweep.ResumeEach | TimerTask/TimerTask.cpp:122-123 | The range-for loop produces `ResumeAll`'s tasks and invocation log. |
| Sweep.Survivors | TimerTask/TimerTask.h:118-119 | Erasing never lengthens the collection. |
| Sweep.EraseExpired | TimerTask/TimerTask.cpp:125-126 | The `remove_if` and `erase` loop, which compacts survivors into a prefix, keeps exactly `Survivors`. |
| Sweep.SurvivorsMembers | TimerTask/TimerTask.h:118-119 | A task survives if and only if it was present and does not report expiry. |
| Sweep.SurvivorsAppend | TimerTask/TimerTask.h:118-119 | Erasing is an order-preserving filter: it distributes over concatenation. |
| Sweep.ResumeAllWf | TimerTask/TimerTask.h:115-116 | A sweep keeps every task reachable. |
| Sweep.StepOwes | TimerTask/TimerTask.h:79-86 | One resume moves exactly the invocation it makes from owed to made. A resume that starts the clock or fires lowers the timer's rank. |
| Sweep.ResumeAllOwed | TimerTask/TimerTask.h:115-116 | For every functor, invocations made in a sweep plus those still owed equal those owed before it. |
| Sweep.ResumeAllPotential | TimerTask/TimerTask.cpp:122-123 | A sweep in which every resume makes progress lowers the potential by at least the number of tasks. |
| Sweep.SurvivorsOwed | TimerTask/TimerTask.h:118-119 | Erasing expired tasks drops nothing still owed. |
| Sweep.SurvivorsWf | TimerTask/TimerTask.h:118-119 | Erasing keeps the collection reachable. |
| Sweep.SurvivorsPotential | TimerTask/TimerTask.cpp:125-126 | Erasing never raises the potential. |
| Sweep.OwedOfFresh | TimerTask/TimerTask.cpp:112-114 | Freshly created tasks owe their whole quota. |
| Sweep.SweepOnTime | TimerTask/TimerTask.cpp:121-123 | On a steady clock, every ready task starts its clock or finds its period elapsed when the sweep reaches it. |
| Sweep.StepRestarts | TimerTask/TimerTask.h:79-82 | A resume leaves any period in progress started no later than the resume's last clock read. |
| Sweep.SweepRestartsAt | TimerTask/TimerTask.cpp:122-123 | Task `i` of a sweep leaves any period in progress started by the end of the sweep. |
| Sweep.SweepRestarts | TimerTask/TimerTask.cpp:122-123 | After a sweep, every period in progress started no later than the sweep's last resume. |
| Sweep.SurvivorsReady | TimerTask/TimerTask.cpp:125-126 | The survivors of such a sweep are ready for the next one. |
| Sweep.SteadyClockReadings | TimerTask/TimerTask.cpp:121-123 | Consecutive readings of a steady clock form a steady sequence, so the single-timer results `SteadyPrefix` and `SteadyRunFiresLimit` apply to them. |
| Sweep.LiveBelowLimit | TimerTask/TimerTask.h:83-86 | A reachable timer that has not expired has fired fewer times than its limit. |
| Sweep.SweepOnce | TimerTask/TimerTask.cpp:121-126 | One pass of the loop body advances the reading index by the number of tasks. It never lengthens the collection and leaves no expired task in it. |
| Sweep.SweepAccounts | TimerTask/TimerTask.cpp:122-126 | For every functor, a sweep plus its erase accounts for every invocation made or still owed. |
| Sweep.DueSweep | TimerTask/TimerTask.cpp:121-128 | One sweep on a steady clock keeps the accounting and leaves the survivors ready. When there was a task, it strictly lowers the potential. |
| Scheduler.Timers.constructor | TimerTask/TimerTask.h:97-99 | A new work-set has empty lists, a lowered flag and no future. |
| Scheduler.Timers.IsDone | TimerTask/TimerTask.h:149-151 | `done()` holds exactly when the future is valid and no longer running. |
| Scheduler.Timers.MoveNewTimers | TimerTask/TimerTask.h:101-107 | Pending tasks are appended to the active ones in order, and the pending list is emptied. |
| Scheduler.Timers.Add | TimerTask/TimerTask.h:133-145 | The arguments are appended to the pending list in order. The worker is launched, raising the flag, unless one is still running. |
| Scheduler.Timers.Iterate | TimerTask/TimerTask.h:109-124 | One loop iteration: the active list becomes the unexpired tasks of a sweep over active plus pending, each below its firing limit. It logs the sweep's invocations, and for every functor the invocations logged plus those owed are what was logged and owed before. It loops again only if tasks remain and the flag is up; otherwise the future becomes ready. |
| Scheduler.Timers.Stop | TimerTask/TimerTask.h:153-157 | `stop` lowers the flag and leaves no future, touching nothing else. |
| Prototype.SetupTimers | TimerTask/TimerTask.cpp:98-115 | The vector holds the three fresh timers in push order, with periods of at most ten seconds. |
| Prototype.DefaultTimerTaskFiresOnce | TimerTask/TimerTask.cpp:66-84 | With the default `repeat = true, repeatCount = 0`, a timer fires at most once, and its firing reports `{1, true}`. |
| Prototype.Sweeps | TimerTask/TimerTask.cpp:121-128 | The loop state after `n` passes never holds more timers than it started with. |
| Prototype.SweepsAccount | TimerTask/TimerTask.cpp:121-128 | On every clock, after any number of passes, for every functor the invocations made plus those still owed equal those owed at the start, and every timer stays reachable. |
| Prototype.LoopEndCounts | TimerTask/TimerTask.cpp:119-130 | On every clock, once the loop has exited (the vector is empty) it has invoked every functor exactly as often as the fresh timers' repeat policies allow. |
| Prototype.Drive | TimerTask/TimerTask.cpp:119-130 | The loop's result is the loop state of `Sweeps` at the pass where the vector empties, with exact per-functor counts. On fresh timers and a clock whose resumes are at least as far apart as the longest period, the loop is proved to end. |
| Prototype.SetupQuota | TimerTask/TimerTask.cpp:98-114 | The three timers allow 10 invocations of "one", 3 of "five", 1 of "ten", and none of anything else. |
| Prototype.MainPrintCounts | TimerTask/TimerTask.cpp:93-135 | On every clock, once the loop in `main` has exited, "one" has been printed 10 times, "five" 3 times, "ten" once, and nothing else. |
| Prototype.RunMain | TimerTask/TimerTask.cpp:93-135 | On a clock whose resumes are at least ten seconds apart, `main`'s loop ends, having printed "one" 10 times, "five" 3 times, "ten" once, and nothing else. |

## Left out

- Threads and synchronisation are not modelled: `std::async`, the mutex,
  `std::this_thread::yield`, and the unsynchronised reads of `mRunning`.
  Every `Timers` method runs as one indivisible step. The worker's `run`
  loop is modelled one iteration at a time (`Timers.Iterate`).
- Scheduler.Timers.Stop: in the code, `get()` waits while the worker may
  still finish the iteration it is in. The model lets no iteration run
  during `stop`.
- `done()`'s `wait_for(0s)` is modelled by the future's state only.
- `steady_clock` is replaced by one `Reading` per resume, as described
  above.
- Destroying a coroutine frame (`~Task`, and the frame released by move
  assignment) and `unhandled_exception` calling `std::terminate` are not
  modelled. Dafny has no explicit deallocation.
- The functors' bodies and `std::println` are not modelled. An invocation is
  recorded as its `Callback` in a log.
- The yielded `int count` is unbounded here. The C++ `int` would overflow
  only beyond `INT_MAX` firings, and the `int` to `std::size_t` comparison
  in the expiry test only matters for non-positive counts, which never occur
  there.
- Sweep.ResumeAll, Scheduler.Timers and Prototype.Drive hold tasks by value
  (`TaskState`), not as `Task` handles. Move semantics are modelled
  separately, on `Coroutine.Task`.
- Prototype.Drive: its termination is proved only for fresh timers on a
  clock whose readings are at least `gap` apart, where `gap` covers every
  timer's period. The busy loop polls far faster than that, and on such
  faster clocks the loop is not shown to end. The exact counts hold on every clock
  whenever the loop has ended (`Prototype.LoopEndCounts`).
- Prototype.RunMain: proved for a clock whose resumes are at least ten
  seconds apart, for the same reason. `Prototype.MainPrintCounts` gives the
  same counts on every clock once the loop has exited.
