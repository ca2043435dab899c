/**
 The reactor of celluloid-process.rb. Its tick probes every `:wait`
 monitor in table order and resumes the task of each one whose process has
 exited, but never removes a monitor: the table is left exactly as it was,
 and a finished wait is served again on every later tick.
 */
module ProcessReactor {
  import opened Wrappers
  import opened Monitors

  /** The tick from index `i` of `table` on, each probe given timeout `t`:
      `Array#each` reads `table[i]`, and nothing is ever removed. */
  function From(table: seq<Monitor>, i: nat, probe: Probe, t: real): TickResult
    decreases |table| - i
  {
    if i >= |table| then TickResult(table, [], Finished)
    else
      var m := table[i];
      if m.eventSet != WaitSet then TickResult(table, [], Raised(UnknownSet(m)))
      else
        var polled := Polled(m, t, probe(m.process, t));
        match IsExited(probe, m.process, t)
        case Err(message) => TickResult(table, [polled], Raised(PollFailed(m, message)))
        case Ok(exited) =>
          var tail := From(table, i + 1, probe, t);
          TickResult(table, [polled] + (if exited then [Resumed(m)] else []) + tail.trace, tail.status)
  }

  /** `run_once(timeout)` on the table `table`. */
  function Tick(table: seq<Monitor>, probe: Probe, timeout: Option<real>): TickResult
  {
    From(table, 0, probe, PollTimeout(timeout))
  }

  /** `run_once(timeout)`. */
  method RunOnce(table: seq<Monitor>, probe: Probe, timeout: Option<real>) returns (r: TickResult)
    ensures r == Tick(table, probe, timeout)
    // the table is never modified
    ensures r.table == table
    // every poll is given `timeout`, or 0.1 seconds when there is none
    ensures PollsUse(r.trace, probe, PollTimeout(timeout))
    // a task is resumed right after a poll of its process that returned
    ensures ResumesFollowPolls(r.trace, PollTimeout(timeout))
    // monitors are polled once each, in table order, from the front
    ensures |Polls(r.trace)| <= |table| && Polls(r.trace) == table[..|Polls(r.trace)|]
    // exactly the polled `:wait` monitors whose process exited are resumed, in order
    ensures Resumes(r.trace) == Completed(Polls(r.trace), probe, PollTimeout(timeout))
    ensures r.status == Finished ==> Polls(r.trace) == table
    // only `:wait` monitors are polled, and a failing poll raises at once
    ensures PollsServable(Polls(r.trace), probe, PollTimeout(timeout), r.status)
    // so a tick finishes only on a table of `:wait` monitors whose polls do not fail
    ensures r.status == Finished ==>
              forall x :: x in table ==> x.eventSet == WaitSet && !probe(x.process, PollTimeout(timeout)).OtherError?
    // an unknown set raises at the first monitor that carries one
    ensures r.status.Raised? && r.status.error.UnknownSet? ==>
              var n := |Polls(r.trace)|;
              n < |table| && table[n] == r.status.error.monitor && table[n].eventSet != WaitSet
    // an error other than TimeoutError raises at the monitor just polled
    ensures r.status.Raised? && r.status.error.PollFailed? ==>
              var ps := Polls(r.trace);
              && ps != []
              && ps[|ps| - 1] == r.status.error.monitor
              && probe(r.status.error.monitor.process, PollTimeout(timeout)) == OtherError(r.status.error.message)
  {
    r := Walk(table, probe, PollTimeout(timeout));
    TickFacts(table, probe, timeout, r);
    FromServable(table, 0, probe, PollTimeout(timeout));
    if r.status == Finished {
      forall x | x in table
        ensures x.eventSet == WaitSet && !probe(x.process, PollTimeout(timeout)).OtherError?
      {
        var k :| 0 <= k < |table| && table[k] == x;
        assert Polls(r.trace)[k] == x;
      }
    }
  }

  /** The `Array#each` loop of `run_once`, each probe given timeout `t`. */
  method Walk(table: seq<Monitor>, probe: Probe, t: real) returns (r: TickResult)
    ensures r == From(table, 0, probe, t)
  {
    var trace: seq<Event> := [];
    var i := 0;
    while i < |table|
      invariant 0 <= i <= |table|
      invariant From(table, 0, probe, t) == TickResult(table, trace + From(table, i, probe, t).trace, From(table, i, probe, t).status)
    {
      var monitor := table[i];
      if monitor.eventSet != WaitSet {
        return TickResult(table, trace, Raised(UnknownSet(monitor)));
      }
      var polled := Polled(monitor, t, probe(monitor.process, t));
      match IsExited(probe, monitor.process, t) {
        case Err(message) =>
          return TickResult(table, trace + [polled], Raised(PollFailed(monitor, message)));
        case Ok(exited) =>
          var step := Step(monitor, probe, t);
          var rest := From(table, i + 1, probe, t);
          FromUnfold(table, i, probe, t);
          assert trace + (step + rest.trace) == (trace + step) + rest.trace;
          trace := trace + step;
      }
      i := i + 1;
    }
    return TickResult(table, trace, Finished);
  }

  /** Everything `RunOnce` promises about a result equal to the tick. */
  lemma TickFacts(table: seq<Monitor>, probe: Probe, timeout: Option<real>, r: TickResult)
    requires r == Tick(table, probe, timeout)
    ensures PollsUse(r.trace, probe, PollTimeout(timeout))
    ensures ResumesFollowPolls(r.trace, PollTimeout(timeout))
    ensures |Polls(r.trace)| <= |table| && Polls(r.trace) == table[..|Polls(r.trace)|]
    ensures Resumes(r.trace) == Completed(Polls(r.trace), probe, PollTimeout(timeout))
    ensures r.status == Finished ==> Polls(r.trace) == table
    ensures r.status.Raised? && r.status.error.UnknownSet? ==>
              var n := |Polls(r.trace)|;
              n < |table| && table[n] == r.status.error.monitor && table[n].eventSet != WaitSet
    ensures r.status.Raised? && r.status.error.PollFailed? ==>
              var ps := Polls(r.trace);
              && ps != []
              && ps[|ps| - 1] == r.status.error.monitor
              && probe(r.status.error.monitor.process, PollTimeout(timeout)) == OtherError(r.status.error.message)
  {
    FromTrace(table, 0, probe, PollTimeout(timeout));
    FromPolls(table, 0, probe, PollTimeout(timeout));
    FromResumes(table, 0, probe, PollTimeout(timeout));
    FromRaised(table, 0, probe, PollTimeout(timeout));
    assert table[0..] == table;
  }

  /** The events one `:wait` monitor adds when its poll does not fail. */
  function Step(m: Monitor, probe: Probe, t: real): seq<Event>
  {
    [Polled(m, t, probe(m.process, t))] + (if probe(m.process, t) == Returned then [Resumed(m)] else [])
  }

  lemma StepFacts(m: Monitor, probe: Probe, t: real)
    requires m.eventSet == WaitSet
    ensures Polls(Step(m, probe, t)) == [m]
    ensures Resumes(Step(m, probe, t)) == Completed([m], probe, t)
    ensures PollsUse(Step(m, probe, t), probe, t)
    ensures ResumesFollowPolls(Step(m, probe, t), t)
  {
    var polled := Polled(m, t, probe(m.process, t));
    if probe(m.process, t) == Returned {
      PollsConcat([polled], [Resumed(m)]);
      ResumesConcat([polled], [Resumed(m)]);
    }
    assert [m][1..] == [];
  }

  lemma FromUnfold(table: seq<Monitor>, i: nat, probe: Probe, t: real)
    requires i < |table| && table[i].eventSet == WaitSet && !probe(table[i].process, t).OtherError?
    ensures From(table, i, probe, t).trace == Step(table[i], probe, t) + From(table, i + 1, probe, t).trace
    ensures From(table, i, probe, t).status == From(table, i + 1, probe, t).status
  {
  }

  /** Every poll of a tick uses its timeout, and every resume follows a
      poll that returned. */
  lemma {:induction false} FromTrace(table: seq<Monitor>, i: nat, probe: Probe, t: real)
    ensures PollsUse(From(table, i, probe, t).trace, probe, t)
    ensures ResumesFollowPolls(From(table, i, probe, t).trace, t)
    decreases |table| - i
  {
    if i < |table| && table[i].eventSet == WaitSet && !probe(table[i].process, t).OtherError? {
      var step := Step(table[i], probe, t);
      var tail := From(table, i + 1, probe, t).trace;
      FromUnfold(table, i, probe, t);
      FromTrace(table, i + 1, probe, t);
      StepFacts(table[i], probe, t);
      PollsUseConcat(step, tail, probe, t);
      ResumesFollowPollsConcat(step, tail, t);
    }
  }

  /** From index `i` on, a tick polls a stretch of the table in order,
      the whole rest of it when it finishes. */
  lemma {:induction false} FromPolls(table: seq<Monitor>, i: nat, probe: Probe, t: real)
    requires i <= |table|
    ensures PollsStretch(table, i, From(table, i, probe, t))
    decreases |table| - i
  {
    if i == |table| || table[i].eventSet != WaitSet {
      assert Polls([]) == [];
    } else if probe(table[i].process, t).OtherError? {
      var m := table[i];
      assert From(table, i, probe, t).trace == [Polled(m, t, probe(m.process, t))];
      assert [m][1..] == [];
    } else {
      FromUnfold(table, i, probe, t);
      FromPolls(table, i + 1, probe, t);
      StepFacts(table[i], probe, t);
      StretchPrepend(table, i, Step(table[i], probe, t), From(table, i + 1, probe, t));
    }
  }

  /** From index `i` on, a tick resumes exactly the completable monitors it
      polled, in order. */
  lemma {:induction false} FromResumes(table: seq<Monitor>, i: nat, probe: Probe, t: real)
    ensures var r := From(table, i, probe, t);
            Resumes(r.trace) == Completed(Polls(r.trace), probe, t)
    decreases |table| - i
  {
    if i < |table| && table[i].eventSet == WaitSet && probe(table[i].process, t).OtherError? {
      var m := table[i];
      assert From(table, i, probe, t).trace == [Polled(m, t, probe(m.process, t))];
      assert [m][1..] == [];
    } else if i < |table| && table[i].eventSet == WaitSet {
      var m := table[i];
      var tail := From(table, i + 1, probe, t);
      FromUnfold(table, i, probe, t);
      FromResumes(table, i + 1, probe, t);
      StepFacts(m, probe, t);
      PollsConcat(Step(m, probe, t), tail.trace);
      ResumesConcat(Step(m, probe, t), tail.trace);
      CompletedConcat([m], Polls(tail.trace), probe, t);
    } else {
      assert Polls([]) == [];
    }
  }

  /** A tick that raises does so at the monitor right after the polled
      stretch when its set is unknown, and at the last polled monitor when
      its probe failed. */
  lemma {:induction false} FromRaised(table: seq<Monitor>, i: nat, probe: Probe, t: real)
    requires i <= |table|
    ensures RaisedAt(table, i, From(table, i, probe, t), probe, t)
    decreases |table| - i
  {
    if i == |table| {
    } else if table[i].eventSet != WaitSet {
      assert Polls([]) == [];
    } else if probe(table[i].process, t).OtherError? {
      var m := table[i];
      assert From(table, i, probe, t).trace == [Polled(m, t, probe(m.process, t))];
      assert [m][1..] == [];
    } else {
      FromUnfold(table, i, probe, t);
      FromRaised(table, i + 1, probe, t);
      StepFacts(table[i], probe, t);
      RaisedPrepend(table, i, Step(table[i], probe, t), From(table, i + 1, probe, t), probe, t);
    }
  }

  /** From index `i` on, a tick polls only `:wait` monitors, and a poll
      fails only as the last one, when the tick raises for it. */
  lemma {:induction false} FromServable(table: seq<Monitor>, i: nat, probe: Probe, t: real)
    ensures var r := From(table, i, probe, t);
            PollsServable(Polls(r.trace), probe, t, r.status)
    decreases |table| - i
  {
    if i >= |table| || table[i].eventSet != WaitSet {
      assert Polls([]) == [];
    } else if probe(table[i].process, t).OtherError? {
      var m := table[i];
      assert From(table, i, probe, t).trace == [Polled(m, t, probe(m.process, t))];
      assert [m][1..] == [];
      assert Polls([Polled(m, t, probe(m.process, t))]) == [m];
    } else {
      var tail := From(table, i + 1, probe, t);
      FromUnfold(table, i, probe, t);
      FromServable(table, i + 1, probe, t);
      StepFacts(table[i], probe, t);
      ServableCons(table[i], Step(table[i], probe, t), tail.trace, probe, t, tail.status);
    }
  }

  /** Completion is not idempotent: with the same processes exited, the
      next tick sees the same table and resumes the same tasks again. */
  lemma RepeatedTickResumesAgain(table: seq<Monitor>, probe: Probe, timeout: Option<real>)
    requires Tick(table, probe, timeout).status == Finished
    ensures var again := Tick(Tick(table, probe, timeout).table, probe, timeout);
            && again == Tick(table, probe, timeout)
            && Resumes(again.trace) == Completed(table, probe, PollTimeout(timeout))
  {
    TickFacts(table, probe, timeout, Tick(table, probe, timeout));
  }

  /** A monitor that is never removed outlives its wait: task `task` waits
      for `p`, is resumed when `p` exits, then waits for `q`, which is still
      running. The table now holds two monitors for `task`, and the next
      tick resumes it again through the stale one. */
  lemma StaleMonitorWakesEarly(task: TaskId, p: ProcessId, q: ProcessId, probe: Probe, timeout: Option<real>)
    requires probe(p, PollTimeout(timeout)) == Returned && probe(q, PollTimeout(timeout)) == TimeoutError
    ensures var m := Monitor(task, p, WaitSet);
            var first := Tick([m], probe, timeout);
            var table := Register(first.table, task, q, WaitSet);
            var second := Tick(table, probe, timeout);
            && first.status == Finished && Resumes(first.trace) == [m]
            && !DistinctTasks(table)
            && second.status == Finished && Resumes(second.trace) == [m]
  {
    var t := PollTimeout(timeout);
    var m := Monitor(task, p, WaitSet);
    var n := Monitor(task, q, WaitSet);
    var first := Tick([m], probe, timeout);
    TickFacts([m], probe, timeout, first);
    assert From([m], 1, probe, t).status == Finished;
    assert first.status == Finished;
    assert [m][1..] == [];
    var table := Register(first.table, task, q, WaitSet);
    assert table == [m, n];
    assert table[0].task == table[1].task;
    var second := Tick(table, probe, timeout);
    TickFacts(table, probe, timeout, second);
    assert From(table, 2, probe, t).status == Finished;
    assert From(table, 1, probe, t).status == Finished;
    assert second.status == Finished;
    assert [m, n][1..] == [n];
    assert [n][1..] == [];
  }
}
