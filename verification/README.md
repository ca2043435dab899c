# Process-wait reactor of celluloid-exec, in Dafny

This project models the process-wait `Reactor` of celluloid-exec. The
reactor is the event source an actor's mailbox polls. A task that waits for a
child process registers a `Monitor(task, process, set)` in the reactor's
table and suspends. Each `run_once(timeout)` (a "tick") then walks the table.
For every `:wait` monitor it probes the process with
`poll_for_exit(timeout || 0.1)`, and when the process has exited it resumes
the task. Any other set raises `unknown set`.

The repository carries two variants of the reactor, which differ only in
the tick:

- `celluloid-exec.rb` deletes the monitor from the array it is walking, and
  only then resumes the task. Ruby's `Array#each` walks by index and
  re-reads the length, so the monitor that slides into the freed slot is
  skipped for that tick.
- `celluloid-process.rb` never deletes. An exited process's task is
  resumed again on every later tick.

Some parts are textually identical in both files and are modelled once:
`register`, `exited?`, `ChildProcess#evented?` and `ChildProcess#wait`.
Their rows cite celluloid-exec.rb. The same code sits at
celluloid-process.rb:27-29, 55-60, 72-75 and 81-88.

Modules:

- `Wrappers` holds `Option` and `Result`.
- `Monitors` holds the shared vocabulary:
  - the `Monitor` record, `Register`, `IsExited` and `PollTimeout`;
  - `Array#delete` as `Delete`, which removes every equal element;
  - a tick's result, `TickResult(table, trace, status)`. Its trace of
    `Polled`/`Deleted`/`Resumed` events records what the tick did, in
    order. Its status is `Finished` or `Raised(error)`, and effects recorded
    before a raise have already happened.
- `ProcessReactor` and `ExecReactor` are the two ticks as written.
  - Each is a recursive function `From` over the index walk.
  - Each has a `Walk` method whose `while` loop mirrors `Array#each`.
  - Each has a `RunOnce` method that states what a tick does.
- `ExecReactor.Scan` reads the exec tick in the order of the original table:
  after each deletion, the next monitor is stepped over. On tables without
  repeated monitors, the index walk is proved equal to it.
- `SnapshotReactor` is the corrected tick. It walks a copy of the table and
  deletes from the live one, so every exited monitor is removed and its
  task resumed in the tick that reaches it. That is once per copy in the
  table. Tables built by `register` calls of running tasks and these ticks
  never hold two monitors for one task, so there it is exactly once.
- `ChildProcess` models the `evented?`/`wait` dispatch over an explicit
  context value (the current actor and task).
- A table's history is a sequence of `Op`s: `register` calls and ticks.
  `Monitors.Replay` plays it against either reactor's tick.

Tasks and processes are Ruby objects compared by identity, so they are
modelled as numbers. The process-control library becomes a parameter
`probe: (ProcessId, real) -> PollOutcome`. It answers `Returned`,
`TimeoutError`, or `OtherError(message)` (an error that `exited?` does not
rescue).

## Model

| member | source | states |
|---|---|---|
| Monitors.Register | celluloid-exec.rb:26-28 | `register` appends exactly one `Monitor(current task, process, set)` at the end of the table and leaves every earlier entry unchanged; since the registering task is running and has no monitor yet, a table with one monitor per task keeps that property. That premise holds under the exec reactor, whose tick removes the monitors it serves, but not under celluloid-process.rb, which keeps them (ProcessReactor.StaleMonitorWakesEarly) |
| Monitors.IsExited | celluloid-exec.rb:55-60 | `exited?` is true iff `poll_for_exit` returns, and false iff it raises `TimeoutError`; any other error propagates with its message |
| Monitors.InDelete | celluloid-exec.rb:46 | after `@monitors.delete(m)`, a monitor is in the table iff it was there before and is not equal to `m` |
| ProcessReactor.RunOnce | celluloid-process.rb:40-53 | the tick leaves the table unchanged; every probe gets `timeout`, or 0.1 when none is given; monitors are probed once each in table order, from the front (all of them when the tick finishes); exactly the probed `:wait` monitors whose process exited are resumed, in order, each right after its probe; only `:wait` monitors are probed, so reaching an unknown set raises there, at the first monitor that has one; a probe that fails with an error other than `TimeoutError` raises at once, and no earlier probe failed; a tick finishes only when every monitor in the table is a `:wait` one whose probe does not fail |
| ProcessReactor.Walk | celluloid-process.rb:42-52 | the `Array#each` loop computes the tick: one visit per index, with early exit on a raise |
| ProcessReactor.RepeatedTickResumesAgain | celluloid-process.rb:42-48 | completion is not idempotent: after a tick that finishes, the next tick with the same exited processes sees the same table and resumes exactly the same tasks again |
| ExecReactor.RunOnce | celluloid-exec.rb:39-53 | the table never grows; every probe gets `timeout`, or 0.1; a monitor is deleted only right after a probe that returned, and its task is resumed only right after the deletion; exactly the probed monitors that exited are resumed; no monitor is resumed twice; only `:wait` monitors of the table are probed, and a failing probe raises at once; a tick that finishes has polled at least as many monitors as it leaves in the table, since the walk stops only when its index passes the end of the shrunken array; a raise leaves the offending monitor in the table |
| ExecReactor.TickRemovesResumed | celluloid-exec.rb:41-47 | the table a tick leaves behind is the original less exactly the monitors whose tasks it resumed, in their order, whether it finishes or raises |
| ExecReactor.Walk | celluloid-exec.rb:41-52 | the `Array#each` loop computes the tick, with the index moving on by one while `delete` shrinks the array underneath it |
| ExecReactor.TickKeepsInvariants | celluloid-exec.rb:41-47 | a tick removes only monitors it resumed, so a table with one monitor per task keeps that property, a table without repeated monitors keeps it, and every monitor the tick cannot complete stays |
| ExecReactor.ReachableTickMatchesScan | celluloid-exec.rb:26-53 | every table built from an empty one by `register` calls of running tasks and exec ticks has no repeated monitor, so its tick is the scan that steps over the successor of every deleted monitor |
| ExecReactor.TickMatchesScan | celluloid-exec.rb:41-47 | on a table without repeated monitors, the index walk with in-loop `delete` equals the scan that steps over the successor of every deleted monitor |
| ExecReactor.DeletedSuccessorSurvives | celluloid-exec.rb:41-46 | in a table without repeats, the monitor right after a resumed one stays in the table and is not probed in that tick |
| ExecReactor.SkipAfterDelete | celluloid-exec.rb:41-47 | two monitors whose processes have both exited: the first tick resumes only the first and leaves the second in the table; the next tick resumes the second |
| ExecReactor.SkippedUnknownSetDoesNotRaise | celluloid-exec.rb:43-50 | a monitor with an unknown set right after a resumed one is stepped over, so the tick finishes with it still in the table instead of raising |
| ExecReactor.ResumedOnlyOnce | celluloid-exec.rb:46-47 | a monitor resumed by one tick is gone from the table, so the following tick cannot resume it again |
| ExecReactor.ResumedTasksDistinct | celluloid-exec.rb:41-52 | when no task has two monitors, no task is resumed twice within a tick |
| SnapshotReactor.RunOnce | celluloid-exec.rb:39-53 | corrected tick: every probe gets `timeout`, or 0.1; monitors are probed in table order; deletion follows a probe that returned and precedes the resume; exactly the probed monitors that exited are resumed; on a table without repeated monitors no monitor is resumed twice; only `:wait` monitors are probed, so reaching an unknown set raises there, at the first monitor that has one; a failing probe raises at once; a tick finishes only after probing the whole table |
| SnapshotReactor.FinishedTableIsServable | celluloid-exec.rb:41-51 | corrected tick: a tick that finishes has met no unknown set and no failing probe, so every monitor in the table is a `:wait` one whose probe does not fail |
| SnapshotReactor.FinishedTickServesAll | celluloid-exec.rb:41-48 | corrected tick: a tick that finishes resumes every `:wait` monitor whose process exited, in table order, and keeps exactly the pending ones |
| SnapshotReactor.TickRemovesResumed | celluloid-exec.rb:41-47 | corrected tick: the table left behind is the original less exactly the monitors whose tasks were resumed, whether the tick finishes or raises |
| SnapshotReactor.TickResumesDistinct | celluloid-exec.rb:41-48 | corrected tick: when the table repeats no monitor, or holds one monitor per task, the resumed monitors repeat no monitor, or no task, either |
| SnapshotReactor.ResumedTasksDistinct | celluloid-exec.rb:41-48 | corrected tick: when no task has two monitors, no task is resumed twice within a tick |
| SnapshotReactor.TickKeepsInvariants | celluloid-exec.rb:41-47 | corrected tick: it removes only monitors it resumed, so it keeps one monitor per task, keeps a table without repeats, and keeps every monitor it cannot complete |
| SnapshotReactor.SecondTickResumesNothing | celluloid-process.rb:42-48 | corrected tick: completion is idempotent; after a tick that finishes, a second tick with the same exited processes finishes, resumes nobody and leaves the table as it was |
| ChildProcess.Wait | celluloid-exec.rb:76-91 | `wait` takes the reactor path iff there is a current actor whose mailbox is the library's mailbox; on that path the reactor's table gains exactly one `:wait` monitor for the calling task at the end; otherwise the call is the process's own blocking `wait` |
| ChildProcess.WaitThenTick | celluloid-exec.rb:85-88 | with the corrected tick, a task suspended in `wait` keeps its monitor through `register` calls of other running tasks and through the ticks before its process exits; the first tick after the exit that finishes resumes it exactly once and removes its monitor |
| Monitors.ReplayKeepsTasksDistinct | celluloid-exec.rb:26-28 | `register` calls by running tasks, interleaved with ticks that keep one monitor per task, keep one monitor per task |
| Monitors.ReplayKeepsPending | celluloid-exec.rb:26-28 | a monitor stays through `register` calls and through ticks that keep every monitor they cannot complete, as long as none of them can complete it |
| ProcessReactor.StaleMonitorWakesEarly | celluloid-process.rb:27-48 | a task resumed when its first process exits keeps its monitor; when it then waits for a second process that is still running, the table holds two monitors for the task, and the next tick resumes it again through the stale one |

## Left out

- Task suspension and resumption (`Task.current`, `Task.suspend`, `task.resume`) are coroutine mechanics. The current task is a parameter, and a resume is an event in the trace.
- A resumed task that runs and calls `register` again in the middle of a tick is not modelled. Resume is atomic with respect to the table.
- The childprocess gem (`::ChildProcess.build`, `start`, `poll_for_exit`, `io`, `duplex`, and the `Forwardable` delegators) does OS process control. `poll_for_exit` is the abstract `probe` parameter. `build`, `start` and the delegators only forward, so they have no model.
- The probe is a function of the process and the timeout, so within one tick a process gives the same answer to every poll. A real process can exit while the tick is still polling other monitors, which matters only when two monitors share a process.
- Timeouts are not real time. A timeout is an opaque `real` that is passed through or defaulted to 0.1, and no arithmetic is done on it.
- Mailbox wiring (`EventedMailbox`, `mailbox_class`, the `included` hook, `Reactor` vs `Reactor.new`) is framework plumbing. A mailbox is either the library's own, carrying its reactor's table, or some other kind, so `is_a?` on a subclass is not distinguished.
- `wakeup` and `shutdown` only log. `Logger` calls and `$DEBUG` are left out.
- The `Demo` classes and the top-level script are demo scaffolding with tempfiles and stdio.
- ExecReactor.TickMatchesScan: the original-order reading `Scan` is proved equal to the tick only for tables without repeated monitors. With a repeated monitor, `delete` removes every copy, and only the general facts (table less the resumed monitors, no resume twice, deletion before resume) are stated.
- ChildProcess.Wait: the blocking branch is modelled only as its outcome (`Blocked(process)`), since the process's own `wait` is OS I/O. The value `wait` returns is not modelled either. On the reactor path it is whatever `task.resume` hands back to `Task.suspend`, and the tick resumes with no argument, so it is `nil`. On the blocking path it is the result of the process's own `wait`. The model records only which path is taken.
- ChildProcess.WaitThenTick: every tick between the registration and the exit must find the process still running. A tick that raises after the exit without reaching the monitor, followed by a tick that finishes, is not covered.

## Findings

| source | as written | input that shows it | evidently intended | confidence | as-written member | corrected member |
|---|---|---|---|---|---|---|
| celluloid-exec.rb:41-47 | `@monitors.delete(monitor)` inside `@monitors.each` shifts the next monitor into the visited slot, and the walk steps over it | table `[a, b]`, both processes exited: the tick resumes `a` only, and `b` waits for another tick; with `b` of an unknown set, no error is raised | every exited `:wait` monitor is resumed and removed in the tick that sees it | not executed; follows from the documented index-based `Array#each` | ExecReactor.SkipAfterDelete | SnapshotReactor.FinishedTickServesAll |
| celluloid-process.rb:42-48 | the tick never removes a monitor | table `[a]`, process exited: every tick resumes `a`'s task again. Once that task waits for a second process that is still running, the table holds two monitors for it, and the stale one resumes it early (ProcessReactor.StaleMonitorWakesEarly) | a finished wait is served once and its monitor removed | not executed | ProcessReactor.RepeatedTickResumesAgain | SnapshotReactor.SecondTickResumesNothing |
