/**
 The process wrapper's `evented?` / `wait` dispatch, identical in
 celluloid-exec.rb and celluloid-process.rb. The thread-local lookup of
 the current actor and `Task.current` become an explicit context value.
 */
module ChildProcess {
  import opened Wrappers
  import opened Monitors
  import SnapshotReactor

  /** An actor's mailbox: the library's own mailbox, which owns a reactor
      holding the monitor table, or any other kind. */
  datatype Mailbox = ExecMailbox(reactor: seq<Monitor>) | OtherMailbox

  datatype Actor = Actor(mailbox: Mailbox)

  /** What the calling thread sees: `Thread.current[:celluloid_actor]`
      (absent outside an actor) and the running task. */
  datatype Context = Context(actor: Option<Actor>, task: TaskId)

  /** `evented?`: there is a current actor and its mailbox is the
      library's mailbox. */
  predicate Evented(ctx: Context)
  {
    ctx.actor.Some? && ctx.actor.value.mailbox.ExecMailbox?
  }

  /** How `wait` proceeds: the actor's reactor now holds a monitor for the
      calling task, which is suspended; or the thread blocks in the
      process's own `wait`. */
  datatype WaitOutcome = Suspended(actor: Actor) | Blocked(process: ProcessId)

  /** `wait`. */
  function Wait(ctx: Context, process: ProcessId): (r: WaitOutcome)
    // the reactor path is taken exactly when the caller is evented
    ensures r.Suspended? <==> Evented(ctx)
    // on that path, one `:wait` monitor for the calling task is appended
    ensures r.Suspended? ==> r.actor.mailbox.ExecMailbox?
    ensures r.Suspended? && r.actor.mailbox.ExecMailbox? ==>
              var before := ctx.actor.value.mailbox.reactor;
              var after := r.actor.mailbox.reactor;
              && |after| == |before| + 1
              && after[..|before|] == before
              && after[|before|] == Monitor(ctx.task, process, WaitSet)
    // otherwise it is the process itself that is waited on
    ensures r.Blocked? <==> !Evented(ctx)
    ensures r.Blocked? ==> r.process == process
  {
    if Evented(ctx) then
      var table := ctx.actor.value.mailbox.reactor;
      Suspended(Actor(ExecMailbox(Register(table, ctx.task, process, WaitSet))))
    else Blocked(process)
  }

  /** With the corrected tick, a task suspended in `wait` stays registered
      through other tasks' `register` calls and through the ticks that come
      before its process exits; the first tick after the exit that finishes
      resumes it exactly once and removes its monitor. */
  lemma WaitThenTick(ctx: Context, process: ProcessId, ops: seq<Op>, probe: Probe, timeout: Option<real>)
    requires Evented(ctx)
    // one monitor per task, and the caller, running, has none
    requires var before := ctx.actor.value.mailbox.reactor;
             DistinctTasks(before) && forall x :: x in before ==> x.task != ctx.task
    // later registrations come from running tasks
    requires Admissible(SnapshotReactor.TableAfter, Wait(ctx, process).actor.mailbox.reactor, ops)
    // the process has not exited at any of the later ticks
    requires NeverCompletes(ops, Monitor(ctx.task, process, WaitSet))
    // and it has exited now
    requires probe(process, PollTimeout(timeout)) == Returned
    ensures var table := Replay(SnapshotReactor.TableAfter, Wait(ctx, process).actor.mailbox.reactor, ops);
            var r := SnapshotReactor.Tick(table, probe, timeout);
            var m := Monitor(ctx.task, process, WaitSet);
            && m in table
            && (r.status == Finished ==> Count(Resumes(r.trace), m) == 1 && m !in r.table)
  {
    var before := ctx.actor.value.mailbox.reactor;
    var after := Wait(ctx, process).actor.mailbox.reactor;
    var m := Monitor(ctx.task, process, WaitSet);
    assert after == Register(before, ctx.task, process, WaitSet);
    assert after[|after| - 1] == m;
    SnapshotReactor.TicksKeepInvariants();
    ReplayKeepsTasksDistinct(SnapshotReactor.TableAfter, after, ops);
    ReplayKeepsPending(SnapshotReactor.TableAfter, after, ops, m);
    var table := Replay(SnapshotReactor.TableAfter, after, ops);
    var r := SnapshotReactor.Tick(table, probe, timeout);
    DistinctTasksDistinct(table);
    SnapshotReactor.TickResumesDistinct(table, probe, timeout, r);
    if r.status == Finished {
      SnapshotReactor.FinishedTickServesAll(table, probe, timeout);
      CountDistinct(Resumes(r.trace), m);
    }
  }
}
