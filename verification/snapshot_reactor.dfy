/**
 The tick both reactors evidently intend: every `:wait` monitor whose
 process has exited is removed from the table and its task resumed, once
 per occurrence in the table (so exactly once when no monitor is repeated,
 which holds for every table `register` and these ticks build).
 It walks a copy of the table taken when the tick starts (Ruby's
 `@monitors.dup.each`) and deletes from the live table, so a deletion
 cannot shift the walk and a served monitor is gone for later ticks.
 */
module SnapshotReactor {
  import opened Wrappers
  import opened Monitors

  /** The tick from index `i` of `snapshot` on, deleting from `live`. */
  function From(snapshot: seq<Monitor>, i: nat, live: seq<Monitor>, probe: Probe, t: real): TickResult
    decreases |snapshot| - i
  {
    if i >= |snapshot| then TickResult(live, [], Finished)
    else
      var m := snapshot[i];
      if m.eventSet != WaitSet then TickResult(live, [], Raised(UnknownSet(m)))
      else
        var polled := Polled(m, t, probe(m.process, t));
        match IsExited(probe, m.process, t)
        case Err(message) => TickResult(live, [polled], Raised(PollFailed(m, message)))
        case Ok(exited) =>
          if exited then Prepend([polled, Deleted(m), Resumed(m)], From(snapshot, i + 1, Delete(live, m), probe, t))
          else Prepend([polled], From(snapshot, i + 1, live, probe, t))
  }

  /** The corrected `run_once(timeout)` on the table `table`. */
  function Tick(table: seq<Monitor>, probe: Probe, timeout: Option<real>): TickResult
  {
    From(table, 0, table, probe, PollTimeout(timeout))
  }

  /** The corrected `run_once(timeout)`. */
  method RunOnce(table: seq<Monitor>, probe: Probe, timeout: Option<real>) returns (r: TickResult)
    ensures r == Tick(table, probe, timeout)
    ensures PollsUse(r.trace, probe, PollTimeout(timeout))
    ensures DeletesThenResumes(r.trace, PollTimeout(timeout))
    // monitors are polled in table order, from the front
    ensures |Polls(r.trace)| <= |table| && Polls(r.trace) == table[..|Polls(r.trace)|]
    ensures Resumes(r.trace) == Completed(Polls(r.trace), probe, PollTimeout(timeout))
    // on a table without repeated monitors, no monitor is resumed twice
    ensures Distinct(table) ==> Distinct(Resumes(r.trace))
    // only `:wait` monitors are polled, and a failing poll raises at once
    ensures PollsServable(Polls(r.trace), probe, PollTimeout(timeout), r.status)
    // a tick finishes only after polling the whole table
    ensures r.status == Finished ==> Polls(r.trace) == table
    // an unknown set raises at the first monitor that carries one
    ensures r.status.Raised? && r.status.error.UnknownSet? ==>
              var n := |Polls(r.trace)|;
              n < |table| && table[n] == r.status.error.monitor && table[n].eventSet != WaitSet
    // an error other than TimeoutError raises at the monitor just polled
    ensures r.status.Raised? && r.status.error.PollFailed? ==>
              var ps := Polls(r.trace);
              && ps != []
              && ps[|ps| - 1] == r.status.error.monitor
              && probe(r.status.error.monitor.process, PollTimeout(timeout)) == OtherError(r.status.error.message)
  {
    r := Walk(table, probe, PollTimeout(timeout));
    TickFacts(table, probe, timeout, r);
    TickResumesDistinct(table, probe, timeout, r);
    FromServable(table, 0, table, probe, PollTimeout(timeout));
  }

  /** The monitors the corrected tick removes are exactly those whose
      tasks it resumed, whether it finishes or raises. */
  lemma TickRemovesResumed(table: seq<Monitor>, probe: Probe, timeout: Option<real>)
    ensures var r := Tick(table, probe, timeout);
            r.table == Without(table, Resumes(r.trace))
  {
    FromTable(table, 0, table, probe, PollTimeout(timeout));
  }

  /** The loop over the copy, deleting from the live table. */
  method Walk(table: seq<Monitor>, probe: Probe, t: real) returns (r: TickResult)
    ensures r == From(table, 0, table, probe, t)
  {
    var live := table;
    var trace: seq<Event> := [];
    var i := 0;
    while i < |table|
      invariant 0 <= i <= |table|
      invariant From(table, 0, table, probe, t) == Prepend(trace, From(table, i, live, probe, t))
    {
      var monitor := table[i];
      if monitor.eventSet != WaitSet {
        return TickResult(live, trace, Raised(UnknownSet(monitor)));
      }
      var polled := Polled(monitor, t, probe(monitor.process, t));
      match IsExited(probe, monitor.process, t) {
        case Err(message) =>
          return TickResult(live, trace + [polled], Raised(PollFailed(monitor, message)));
        case Ok(exited) =>
          var rest := From(table, i + 1, AfterVisit(live, monitor, probe, t), probe, t);
          FromUnfold(table, i, live, probe, t);
          PrependTwice(trace, Visit(monitor, probe, t), rest);
          if exited {
            assert Visit(monitor, probe, t) == [polled, Deleted(monitor), Resumed(monitor)];
            live := Delete(live, monitor);
            trace := trace + [polled, Deleted(monitor), Resumed(monitor)];
          } else {
            assert Visit(monitor, probe, t) == [polled];
            trace := trace + [polled];
          }
          assert From(table, 0, table, probe, t) == Prepend(trace, rest);
      }
      i := i + 1;
    }
    return TickResult(live, trace, Finished);
  }

  /** Everything `RunOnce` promises about a result equal to the tick. */
  lemma TickFacts(table: seq<Monitor>, probe: Probe, timeout: Option<real>, r: TickResult)
    requires r == Tick(table, probe, timeout)
    ensures r.table == Without(table, Resumes(r.trace))
    ensures PollsUse(r.trace, probe, PollTimeout(timeout))
    ensures DeletesThenResumes(r.trace, PollTimeout(timeout))
    ensures |Polls(r.trace)| <= |table| && Polls(r.trace) == table[..|Polls(r.trace)|]
    ensures Resumes(r.trace) == Completed(Polls(r.trace), probe, PollTimeout(timeout))
    ensures r.status == Finished ==> Polls(r.trace) == table
    ensures r.status == Finished ==>
              Resumes(r.trace) == Completed(table, probe, PollTimeout(timeout)) && r.table == Pending(table, probe, PollTimeout(timeout))
    ensures r.status.Raised? && r.status.error.UnknownSet? ==>
              var n := |Polls(r.trace)|;
              n < |table| && table[n] == r.status.error.monitor && table[n].eventSet != WaitSet
    ensures r.status.Raised? && r.status.error.PollFailed? ==>
              var ps := Polls(r.trace);
              && ps != []
              && ps[|ps| - 1] == r.status.error.monitor
              && probe(r.status.error.monitor.process, PollTimeout(timeout)) == OtherError(r.status.error.message)
  {
    var t := PollTimeout(timeout);
    FromRaised(table, 0, table, probe, t);
    FromTable(table, 0, table, probe, t);
    FromTrace(table, 0, table, probe, t);
    FromPolls(table, 0, table, probe, t);
    FromResumes(table, 0, table, probe, t);
    assert table[0..] == table;
    if r.status == Finished {
      assert Polls(r.trace) == table;
      WithoutCompletable(table, Resumes(r.trace), probe, t);
    }
  }

  /** The corrected tick resumes a prefix's completable monitors, so it
      repeats no monitor and no task that the table does not repeat. */
  lemma TickResumesDistinct(table: seq<Monitor>, probe: Probe, timeout: Option<real>, r: TickResult)
    requires r == Tick(table, probe, timeout)
    ensures Distinct(table) ==> Distinct(Resumes(r.trace))
    ensures DistinctTasks(table) ==> DistinctTasks(Resumes(r.trace))
  {
    var t := PollTimeout(timeout);
    FromPolls(table, 0, table, probe, t);
    FromResumes(table, 0, table, probe, t);
    assert table[0..] == table;
    PrefixKeepsDistinct(table, |Polls(r.trace)|);
    CompletedKeepsDistinct(Polls(r.trace), probe, t);
  }

  /** Filtering by a list that holds exactly the completable monitors of
      the table keeps the pending ones. */
  lemma {:induction false} WithoutCompletable(s: seq<Monitor>, gone: seq<Monitor>, probe: Probe, t: real)
    requires forall x :: x in s ==> (x in gone <==> Completable(x, probe, t))
    ensures Without(s, gone) == Pending(s, probe, t)
  {
    if s != [] {
      assert s[0] in s;
      forall x | x in s[1..]
        ensures x in gone <==> Completable(x, probe, t)
      {
        assert x in s;
      }
      WithoutCompletable(s[1..], gone, probe, t);
    }
  }

  lemma FromUnfold(snapshot: seq<Monitor>, i: nat, live: seq<Monitor>, probe: Probe, t: real)
    requires i < |snapshot| && snapshot[i].eventSet == WaitSet && !probe(snapshot[i].process, t).OtherError?
    ensures From(snapshot, i, live, probe, t)
            == Prepend(Visit(snapshot[i], probe, t), From(snapshot, i + 1, AfterVisit(live, snapshot[i], probe, t), probe, t))
  {
    var m := snapshot[i];
    var polled := Polled(m, t, probe(m.process, t));
    if probe(m.process, t) == Returned {
      assert IsExited(probe, m.process, t) == Ok(true);
      assert Visit(m, probe, t) == [polled, Deleted(m), Resumed(m)];
    } else {
      assert IsExited(probe, m.process, t) == Ok(false);
      assert Visit(m, probe, t) == [polled];
    }
  }

  /** A visit that raises records at most the failing poll. */
  lemma RaisingVisit(snapshot: seq<Monitor>, i: nat, live: seq<Monitor>, probe: Probe, t: real)
    requires i < |snapshot| && (snapshot[i].eventSet != WaitSet || probe(snapshot[i].process, t).OtherError?)
    ensures Resumes(From(snapshot, i, live, probe, t).trace) == []
    ensures From(snapshot, i, live, probe, t).table == live
    ensures Polls(From(snapshot, i, live, probe, t).trace) == if snapshot[i].eventSet == WaitSet then [snapshot[i]] else []
    ensures From(snapshot, i, live, probe, t).status
            == if snapshot[i].eventSet != WaitSet then Raised(UnknownSet(snapshot[i]))
               else Raised(PollFailed(snapshot[i], probe(snapshot[i].process, t).message))
  {
    var m := snapshot[i];
    if m.eventSet == WaitSet {
      var polled := Polled(m, t, probe(m.process, t));
      assert From(snapshot, i, live, probe, t).trace == [polled];
      assert [polled][1..] == [];
    } else {
      assert From(snapshot, i, live, probe, t).trace == [];
    }
  }

  /** The table left behind is the live table less every resumed monitor. */
  lemma {:induction false} FromTable(snapshot: seq<Monitor>, i: nat, live: seq<Monitor>, probe: Probe, t: real)
    ensures var r := From(snapshot, i, live, probe, t);
            r.table == Without(live, Resumes(r.trace))
    decreases |snapshot| - i
  {
    if i < |snapshot| && snapshot[i].eventSet == WaitSet && !probe(snapshot[i].process, t).OtherError? {
      var m := snapshot[i];
      var live' := AfterVisit(live, m, probe, t);
      var tail := From(snapshot, i + 1, live', probe, t);
      FromUnfold(snapshot, i, live, probe, t);
      FromTable(snapshot, i + 1, live', probe, t);
      VisitFacts(m, probe, t);
      ResumesConcat(Visit(m, probe, t), tail.trace);
      var r := From(snapshot, i, live, probe, t);
      assert r.table == tail.table;
      if probe(m.process, t) == Returned {
        assert Resumes(r.trace) == [m] + Resumes(tail.trace);
        WithoutDelete(live, m, Resumes(tail.trace));
      } else {
        assert Resumes(r.trace) == Resumes(tail.trace);
      }
    } else {
      if i < |snapshot| {
        RaisingVisit(snapshot, i, live, probe, t);
      }
      WithoutNothing(live);
    }
  }

  /** Every poll uses timeout `t`; every deletion follows a poll that
      returned and every resume follows its deletion. */
  lemma {:induction false} FromTrace(snapshot: seq<Monitor>, i: nat, live: seq<Monitor>, probe: Probe, t: real)
    ensures PollsUse(From(snapshot, i, live, probe, t).trace, probe, t)
    ensures DeletesThenResumes(From(snapshot, i, live, probe, t).trace, t)
    decreases |snapshot| - i
  {
    if i < |snapshot| && snapshot[i].eventSet == WaitSet && !probe(snapshot[i].process, t).OtherError? {
      var m := snapshot[i];
      var live' := AfterVisit(live, m, probe, t);
      var tail := From(snapshot, i + 1, live', probe, t);
      FromUnfold(snapshot, i, live, probe, t);
      FromTrace(snapshot, i + 1, live', probe, t);
      VisitFacts(m, probe, t);
      PollsUseConcat(Visit(m, probe, t), tail.trace, probe, t);
      DeletesThenResumesConcat(Visit(m, probe, t), tail.trace, t);
    }
  }

  /** From index `i` on, the tick polls a stretch of the snapshot in
      order, the whole rest of it when it finishes. */
  lemma {:induction false} FromPolls(snapshot: seq<Monitor>, i: nat, live: seq<Monitor>, probe: Probe, t: real)
    requires i <= |snapshot|
    ensures PollsStretch(snapshot, i, From(snapshot, i, live, probe, t))
    decreases |snapshot| - i
  {
    if i == |snapshot| {
      assert Polls([]) == [];
    } else if snapshot[i].eventSet != WaitSet || probe(snapshot[i].process, t).OtherError? {
      RaisingVisit(snapshot, i, live, probe, t);
      assert snapshot[i..i] == [] && snapshot[i..i + 1] == [snapshot[i]];
    } else {
      var m := snapshot[i];
      var live' := AfterVisit(live, m, probe, t);
      FromUnfold(snapshot, i, live, probe, t);
      FromPolls(snapshot, i + 1, live', probe, t);
      VisitFacts(m, probe, t);
      StretchPrepend(snapshot, i, Visit(m, probe, t), From(snapshot, i + 1, live', probe, t));
    }
  }

  /** A tick that raises does so at the first monitor of an unknown set
      it reaches, right after the polled stretch, or at the monitor whose
      poll failed, the last one polled. */
  lemma {:induction false} FromRaised(snapshot: seq<Monitor>, i: nat, live: seq<Monitor>, probe: Probe, t: real)
    requires i <= |snapshot|
    ensures RaisedAt(snapshot, i, From(snapshot, i, live, probe, t), probe, t)
    decreases |snapshot| - i
  {
    if i == |snapshot| {
    } else if snapshot[i].eventSet != WaitSet || probe(snapshot[i].process, t).OtherError? {
      RaisingVisit(snapshot, i, live, probe, t);
      assert [snapshot[i]][0] == snapshot[i];
    } else {
      var m := snapshot[i];
      var live' := AfterVisit(live, m, probe, t);
      FromUnfold(snapshot, i, live, probe, t);
      FromRaised(snapshot, i + 1, live', probe, t);
      VisitFacts(m, probe, t);
      RaisedPrepend(snapshot, i, Visit(m, probe, t), From(snapshot, i + 1, live', probe, t), probe, t);
    }
  }

  /** Exactly the polled monitors that are completable are resumed. */
  lemma {:induction false} FromResumes(snapshot: seq<Monitor>, i: nat, live: seq<Monitor>, probe: Probe, t: real)
    ensures var r := From(snapshot, i, live, probe, t);
            Resumes(r.trace) == Completed(Polls(r.trace), probe, t)
    decreases |snapshot| - i
  {
    if i < |snapshot| && snapshot[i].eventSet == WaitSet && !probe(snapshot[i].process, t).OtherError? {
      var m := snapshot[i];
      var live' := AfterVisit(live, m, probe, t);
      var tail := From(snapshot, i + 1, live', probe, t);
      FromUnfold(snapshot, i, live, probe, t);
      FromResumes(snapshot, i + 1, live', probe, t);
      VisitFacts(m, probe, t);
      PollsConcat(Visit(m, probe, t), tail.trace);
      ResumesConcat(Visit(m, probe, t), tail.trace);
      CompletedConcat([m], Polls(tail.trace), probe, t);
    } else if i < |snapshot| {
      RaisingVisit(snapshot, i, live, probe, t);
      assert [snapshot[i]][1..] == [];
    } else {
      assert Polls([]) == [];
    }
  }

  /** A corrected tick that finishes serves every `:wait` monitor whose
      process has exited, in table order, and keeps exactly the others. */
  lemma FinishedTickServesAll(table: seq<Monitor>, probe: Probe, timeout: Option<real>)
    requires Tick(table, probe, timeout).status == Finished
    ensures var r := Tick(table, probe, timeout);
            && Resumes(r.trace) == Completed(table, probe, PollTimeout(timeout))
            && r.table == Pending(table, probe, PollTimeout(timeout))
  {
    TickFacts(table, probe, timeout, Tick(table, probe, timeout));
  }

  /** A tick that finishes polled every monitor, so every monitor is a
      `:wait` one whose poll did not fail. */
  lemma FinishedTableIsServable(table: seq<Monitor>, probe: Probe, timeout: Option<real>)
    requires Tick(table, probe, timeout).status == Finished
    ensures forall x :: x in table ==> x.eventSet == WaitSet && !probe(x.process, PollTimeout(timeout)).OtherError?
  {
    var t := PollTimeout(timeout);
    var r := Tick(table, probe, timeout);
    TickFacts(table, probe, timeout, r);
    FromServable(table, 0, table, probe, t);
    forall x | x in table
      ensures x.eventSet == WaitSet && !probe(x.process, t).OtherError?
    {
      var k :| 0 <= k < |table| && table[k] == x;
      assert Polls(r.trace)[k] == x;
    }
  }

  /** From index `i` on, the corrected tick polls only `:wait` monitors,
      and a poll fails only as the last one, when the tick raises for it. */
  lemma {:induction false} FromServable(snapshot: seq<Monitor>, i: nat, live: seq<Monitor>, probe: Probe, t: real)
    ensures var r := From(snapshot, i, live, probe, t);
            PollsServable(Polls(r.trace), probe, t, r.status)
    decreases |snapshot| - i
  {
    if i >= |snapshot| {
      assert Polls([]) == [];
    } else if snapshot[i].eventSet != WaitSet || probe(snapshot[i].process, t).OtherError? {
      RaisingVisit(snapshot, i, live, probe, t);
      assert [snapshot[i]][0] == snapshot[i];
    } else {
      var m := snapshot[i];
      var live' := AfterVisit(live, m, probe, t);
      var tail := From(snapshot, i + 1, live', probe, t);
      FromUnfold(snapshot, i, live, probe, t);
      FromServable(snapshot, i + 1, live', probe, t);
      VisitFacts(m, probe, t);
      ServableCons(m, Visit(m, probe, t), tail.trace, probe, t, tail.status);
    }
  }

  /** Completion is idempotent: after a tick that finishes, a second tick
      with the same processes exited resumes nobody and leaves the table
      as it is. */
  lemma SecondTickResumesNothing(table: seq<Monitor>, probe: Probe, timeout: Option<real>)
    requires Tick(table, probe, timeout).status == Finished
    ensures var first := Tick(table, probe, timeout);
            var second := Tick(first.table, probe, timeout);
            && second.status == Finished
            && Resumes(second.trace) == []
            && second.table == first.table
  {
    var t := PollTimeout(timeout);
    var first := Tick(table, probe, timeout);
    TickFacts(table, probe, timeout, first);
    FinishedTableIsServable(table, probe, timeout);
    var rest := first.table;
    assert forall x :: x in rest ==> x in table && !Completable(x, probe, t);
    SecondTickOnPending(rest, 0, rest, probe, t);
    var second := Tick(rest, probe, timeout);
    TickFacts(rest, probe, timeout, second);
    WithoutNothing(rest);
  }

  /** A tick over monitors that are all `:wait` ones still waiting, whose
      polls do not fail, finishes and records no resume. */
  lemma {:induction false} SecondTickOnPending(snapshot: seq<Monitor>, i: nat, live: seq<Monitor>, probe: Probe, t: real)
    requires forall x :: x in snapshot ==> x.eventSet == WaitSet && probe(x.process, t) == TimeoutError
    ensures From(snapshot, i, live, probe, t).status == Finished
    ensures Resumes(From(snapshot, i, live, probe, t).trace) == []
    decreases |snapshot| - i
  {
    if i < |snapshot| {
      var m := snapshot[i];
      assert m in snapshot;
      var tail := From(snapshot, i + 1, live, probe, t);
      FromUnfold(snapshot, i, live, probe, t);
      SecondTickOnPending(snapshot, i + 1, live, probe, t);
      VisitFacts(m, probe, t);
      ResumesConcat(Visit(m, probe, t), tail.trace);
    } else {
      assert Resumes([]) == [];
    }
  }

  /** The table the corrected tick leaves behind. */
  function TableAfter(table: seq<Monitor>, probe: Probe, timeout: Option<real>): seq<Monitor>
  {
    Tick(table, probe, timeout).table
  }

  /** The corrected tick removes only monitors it resumed, so it gives no
      task a second monitor, repeats no monitor, and keeps every monitor it
      cannot complete. */
  lemma TickKeepsInvariants(table: seq<Monitor>, probe: Probe, timeout: Option<real>)
    ensures var r := Tick(table, probe, timeout);
            && (DistinctTasks(table) ==> DistinctTasks(r.table))
            && (Distinct(table) ==> Distinct(r.table))
            && (forall m :: m in table && !Completable(m, probe, PollTimeout(timeout)) ==> m in r.table)
  {
    var r := Tick(table, probe, timeout);
    TickFacts(table, probe, timeout, r);
    forall x | x in Resumes(r.trace)
      ensures Completable(x, probe, PollTimeout(timeout))
    {
    }
    RemovingResumedKeeps(table, r, probe, PollTimeout(timeout));
  }

  lemma TicksKeepInvariants()
    ensures KeepsTasksDistinct(TableAfter) && KeepsPending(TableAfter)
  {
    forall table, probe, timeout
      ensures DistinctTasks(table) ==> DistinctTasks(TableAfter(table, probe, timeout))
      ensures forall m :: m in table && !Completable(m, probe, PollTimeout(timeout)) ==> m in TableAfter(table, probe, timeout)
    {
      TickKeepsInvariants(table, probe, timeout);
    }
  }

  /** When no task waits twice in the table, no task is resumed twice in
      a corrected tick. */
  lemma ResumedTasksDistinct(table: seq<Monitor>, probe: Probe, timeout: Option<real>)
    requires DistinctTasks(table)
    ensures var tasks := Tasks(Resumes(Tick(table, probe, timeout).trace));
            forall i, j :: 0 <= i < j < |tasks| ==> tasks[i] != tasks[j]
  {
    var r := Tick(table, probe, timeout);
    TickResumesDistinct(table, probe, timeout, r);
    var rs := Resumes(r.trace);
    assert forall i, j :: 0 <= i < j < |rs| ==> rs[i].task != rs[j].task;
  }
}
