/**
 The reactor of celluloid-exec.rb. Its tick walks the live monitor array
 with `Array#each` and, for every `:wait` monitor whose process has exited,
 deletes the monitor from that same array before resuming its task.
 `Array#each` steps by index and re-reads the array, so each deletion moves
 the following monitor into the slot just visited and the walk steps over
 it: that monitor stays in the table, unpolled, until a later tick.
 */
module ExecReactor {
  import opened Wrappers
  import opened Monitors

  /** The tick from index `i` of the live table `monitors` on, each probe
      given timeout `t`. */
  function From(monitors: seq<Monitor>, i: nat, probe: Probe, t: real): (r: TickResult)
    ensures |r.table| <= |monitors|
    decreases if i <= |monitors| then |monitors| - i + 1 else 0
  {
    if i >= |monitors| then TickResult(monitors, [], Finished)
    else
      var m := monitors[i];
      if m.eventSet != WaitSet then TickResult(monitors, [], Raised(UnknownSet(m)))
      else
        var polled := Polled(m, t, probe(m.process, t));
        match IsExited(probe, m.process, t)
        case Err(message) => TickResult(monitors, [polled], Raised(PollFailed(m, message)))
        case Ok(exited) =>
          if exited then Prepend([polled, Deleted(m), Resumed(m)], From(Delete(monitors, m), i + 1, probe, t))
          else Prepend([polled], From(monitors, i + 1, probe, t))
  }

  /** `run_once(timeout)` on the table `table`. */
  function Tick(table: seq<Monitor>, probe: Probe, timeout: Option<real>): TickResult
  {
    From(table, 0, probe, PollTimeout(timeout))
  }

  /** `run_once(timeout)`. */
  method RunOnce(table: seq<Monitor>, probe: Probe, timeout: Option<real>) returns (r: TickResult)
    ensures r == Tick(table, probe, timeout)
    // the table never grows
    ensures |r.table| <= |table|
    // every poll is given `timeout`, or 0.1 seconds when there is none
    ensures PollsUse(r.trace, probe, PollTimeout(timeout))
    // removal happens only after a poll that returned, and precedes the resume
    ensures DeletesThenResumes(r.trace, PollTimeout(timeout))
    // exactly the polled `:wait` monitors whose process exited are resumed
    ensures Resumes(r.trace) == Completed(Polls(r.trace), probe, PollTimeout(timeout))
    // only `:wait` monitors of the table are polled, and a failing poll
    // raises at once
    ensures forall x :: x in Polls(r.trace) ==> x in table
    ensures PollsServable(Polls(r.trace), probe, PollTimeout(timeout), r.status)
    // each resumed monitor was in the table, and none is resumed twice
    ensures forall x :: x in Resumes(r.trace) ==> x in table
    ensures Distinct(Resumes(r.trace))
    // the walk stops only once its index is past the end of the shrunken
    // array, one poll per index
    ensures r.status == Finished ==> |r.table| <= |Polls(r.trace)|
    // an unknown set raises at a monitor still in the table
    ensures r.status.Raised? && r.status.error.UnknownSet? ==>
              r.status.error.monitor in r.table && r.status.error.monitor.eventSet != WaitSet
    // an error other than TimeoutError raises at the monitor just polled
    ensures r.status.Raised? && r.status.error.PollFailed? ==>
              var ps := Polls(r.trace);
              && ps != []
              && ps[|ps| - 1] == r.status.error.monitor
              && r.status.error.monitor in r.table
              && probe(r.status.error.monitor.process, PollTimeout(timeout)) == OtherError(r.status.error.message)
  {
    r := Walk(table, probe, PollTimeout(timeout));
    TickFacts(table, probe, timeout, r);
    FromServable(table, 0, probe, PollTimeout(timeout));
  }

  /** The monitors a tick removes are exactly those whose tasks it
      resumed, whether it finishes or raises. */
  lemma TickRemovesResumed(table: seq<Monitor>, probe: Probe, timeout: Option<real>)
    ensures var r := Tick(table, probe, timeout);
            r.table == Without(table, Resumes(r.trace))
  {
    FromTable(table, 0, probe, PollTimeout(timeout));
  }

  /** The `Array#each` loop of `run_once`, each probe given timeout `t`:
      index `i` moves on by one per visit while `delete` shrinks the array
      under it. */
  method Walk(table: seq<Monitor>, probe: Probe, t: real) returns (r: TickResult)
    ensures r == From(table, 0, probe, t)
  {
    var monitors := table;
    var trace: seq<Event> := [];
    var i := 0;
    while i < |monitors|
      invariant From(table, 0, probe, t) == Prepend(trace, From(monitors, i, probe, t))
      decreases |monitors| - i
    {
      var monitor := monitors[i];
      if monitor.eventSet != WaitSet {
        return TickResult(monitors, trace, Raised(UnknownSet(monitor)));
      }
      var polled := Polled(monitor, t, probe(monitor.process, t));
      match IsExited(probe, monitor.process, t) {
        case Err(message) =>
          return TickResult(monitors, trace + [polled], Raised(PollFailed(monitor, message)));
        case Ok(exited) =>
          var rest := From(AfterVisit(monitors, monitor, probe, t), i + 1, probe, t);
          FromUnfold(monitors, i, probe, t);
          PrependTwice(trace, Visit(monitor, probe, t), rest);
          if exited {
            assert Visit(monitor, probe, t) == [polled, Deleted(monitor), Resumed(monitor)];
            monitors := Delete(monitors, monitor);
            trace := trace + [polled, Deleted(monitor), Resumed(monitor)];
          } else {
            assert Visit(monitor, probe, t) == [polled];
            trace := trace + [polled];
          }
          assert From(table, 0, probe, t) == Prepend(trace, rest);
      }
      i := i + 1;
    }
    return TickResult(monitors, trace, Finished);
  }

  /** Everything `RunOnce` promises about a result equal to the tick. */
  lemma TickFacts(table: seq<Monitor>, probe: Probe, timeout: Option<real>, r: TickResult)
    requires r == Tick(table, probe, timeout)
    ensures r.table == Without(table, Resumes(r.trace))
    ensures PollsUse(r.trace, probe, PollTimeout(timeout))
    ensures DeletesThenResumes(r.trace, PollTimeout(timeout))
    ensures Resumes(r.trace) == Completed(Polls(r.trace), probe, PollTimeout(timeout))
    ensures forall x :: x in Resumes(r.trace) ==> x in table
    ensures Distinct(Resumes(r.trace))
    ensures r.status == Finished ==> |r.table| <= |Polls(r.trace)|
    ensures r.status.Raised? && r.status.error.UnknownSet? ==>
              r.status.error.monitor in r.table && r.status.error.monitor.eventSet != WaitSet
    ensures r.status.Raised? && r.status.error.PollFailed? ==>
              var ps := Polls(r.trace);
              && ps != []
              && ps[|ps| - 1] == r.status.error.monitor
              && r.status.error.monitor in r.table
              && probe(r.status.error.monitor.process, PollTimeout(timeout)) == OtherError(r.status.error.message)
  {
    var t := PollTimeout(timeout);
    FromFinished(table, 0, probe, t);
    FromTable(table, 0, probe, t);
    FromTrace(table, 0, probe, t);
    FromResumes(table, 0, probe, t);
    FromResumesDistinct(table, 0, probe, t);
    FromRaised(table, 0, probe, t);
  }

  lemma FromUnfold(monitors: seq<Monitor>, i: nat, probe: Probe, t: real)
    requires i < |monitors| && monitors[i].eventSet == WaitSet && !probe(monitors[i].process, t).OtherError?
    ensures From(monitors, i, probe, t) == Prepend(Visit(monitors[i], probe, t), From(AfterVisit(monitors, monitors[i], probe, t), i + 1, probe, t))
  {
    var m := monitors[i];
    var polled := Polled(m, t, probe(m.process, t));
    if probe(m.process, t) == Returned {
      assert IsExited(probe, m.process, t) == Ok(true);
      assert Visit(m, probe, t) == [polled, Deleted(m), Resumed(m)];
    } else {
      assert IsExited(probe, m.process, t) == Ok(false);
      assert Visit(m, probe, t) == [polled];
    }
  }

  /** From index `i` on, the table left behind is the live table less every
      monitor whose task was resumed. */
  lemma {:induction false} FromTable(monitors: seq<Monitor>, i: nat, probe: Probe, t: real)
    ensures var r := From(monitors, i, probe, t);
            r.table == Without(monitors, Resumes(r.trace))
    decreases if i <= |monitors| then |monitors| - i + 1 else 0
  {
    if i < |monitors| && monitors[i].eventSet == WaitSet && !probe(monitors[i].process, t).OtherError? {
      var m := monitors[i];
      var live := AfterVisit(monitors, m, probe, t);
      var tail := From(live, i + 1, probe, t);
      FromUnfold(monitors, i, probe, t);
      FromTable(live, i + 1, probe, t);
      VisitFacts(m, probe, t);
      ResumesConcat(Visit(m, probe, t), tail.trace);
      var r := From(monitors, i, probe, t);
      assert r.table == tail.table;
      if probe(m.process, t) == Returned {
        assert Resumes(r.trace) == [m] + Resumes(tail.trace);
        WithoutDelete(monitors, m, Resumes(tail.trace));
      } else {
        assert Resumes(r.trace) == Resumes(tail.trace);
      }
    } else if i < |monitors| && monitors[i].eventSet == WaitSet {
      var m := monitors[i];
      var polled := Polled(m, t, probe(m.process, t));
      assert From(monitors, i, probe, t).trace == [polled];
      assert [polled][1..] == [];
      assert Resumes([polled]) == [];
      WithoutNothing(monitors);
    } else {
      WithoutNothing(monitors);
    }
  }

  /** From index `i` on, every poll uses timeout `t`, every deletion
      follows a poll that returned and every resume follows its deletion. */
  lemma {:induction false} FromTrace(monitors: seq<Monitor>, i: nat, probe: Probe, t: real)
    ensures PollsUse(From(monitors, i, probe, t).trace, probe, t)
    ensures DeletesThenResumes(From(monitors, i, probe, t).trace, t)
    decreases if i <= |monitors| then |monitors| - i + 1 else 0
  {
    if i < |monitors| && monitors[i].eventSet == WaitSet && !probe(monitors[i].process, t).OtherError? {
      var m := monitors[i];
      var live := AfterVisit(monitors, m, probe, t);
      var tail := From(live, i + 1, probe, t);
      FromUnfold(monitors, i, probe, t);
      FromTrace(live, i + 1, probe, t);
      VisitFacts(m, probe, t);
      PollsUseConcat(Visit(m, probe, t), tail.trace, probe, t);
      DeletesThenResumesConcat(Visit(m, probe, t), tail.trace, t);
    }
  }

  /** From index `i` on, exactly the polled monitors that are completable
      are resumed, each of them taken from the live table. */
  lemma {:induction false} FromResumes(monitors: seq<Monitor>, i: nat, probe: Probe, t: real)
    ensures var r := From(monitors, i, probe, t);
            Resumes(r.trace) == Completed(Polls(r.trace), probe, t)
    ensures forall x :: x in Resumes(From(monitors, i, probe, t).trace) ==> x in monitors
    decreases if i <= |monitors| then |monitors| - i + 1 else 0
  {
    if i < |monitors| && monitors[i].eventSet == WaitSet && !probe(monitors[i].process, t).OtherError? {
      var m := monitors[i];
      var live := AfterVisit(monitors, m, probe, t);
      var tail := From(live, i + 1, probe, t);
      FromUnfold(monitors, i, probe, t);
      FromResumes(live, i + 1, probe, t);
      VisitFacts(m, probe, t);
      PollsConcat(Visit(m, probe, t), tail.trace);
      ResumesConcat(Visit(m, probe, t), tail.trace);
      CompletedConcat([m], Polls(tail.trace), probe, t);
      forall x | x in Resumes(tail.trace)
        ensures x in monitors
      {
        InDelete(monitors, m, x);
      }
    } else if i < |monitors| && monitors[i].eventSet == WaitSet {
      var m := monitors[i];
      assert From(monitors, i, probe, t).trace == [Polled(m, t, probe(m.process, t))];
      assert [m][1..] == [];
    } else {
      assert Polls([]) == [];
    }
  }

  /** From index `i` on, no monitor is resumed twice: a resumed monitor
      has been deleted, so the walk cannot reach it again. */
  lemma {:induction false} FromResumesDistinct(monitors: seq<Monitor>, i: nat, probe: Probe, t: real)
    ensures Distinct(Resumes(From(monitors, i, probe, t).trace))
    decreases if i <= |monitors| then |monitors| - i + 1 else 0
  {
    if i < |monitors| && monitors[i].eventSet == WaitSet && !probe(monitors[i].process, t).OtherError? {
      var m := monitors[i];
      var live := AfterVisit(monitors, m, probe, t);
      var tail := From(live, i + 1, probe, t);
      FromUnfold(monitors, i, probe, t);
      FromResumesDistinct(live, i + 1, probe, t);
      VisitFacts(m, probe, t);
      ResumesConcat(Visit(m, probe, t), tail.trace);
      if probe(m.process, t) == Returned {
        FromResumes(live, i + 1, probe, t);
        InDelete(monitors, m, m);
        DistinctCons(m, Resumes(tail.trace));
      }
    } else if i < |monitors| && monitors[i].eventSet == WaitSet {
      var m := monitors[i];
      assert From(monitors, i, probe, t).trace == [Polled(m, t, probe(m.process, t))];
    }
  }

  /** A tick that raises leaves the offending monitor in the table: at an
      unknown set, and at the monitor whose poll failed, which is the last
      one polled. */
  lemma {:induction false} FromRaised(monitors: seq<Monitor>, i: nat, probe: Probe, t: real)
    ensures var r := From(monitors, i, probe, t);
            r.status.Raised? && r.status.error.UnknownSet? ==>
              r.status.error.monitor in r.table && r.status.error.monitor.eventSet != WaitSet
    ensures var r := From(monitors, i, probe, t);
            var ps := Polls(r.trace);
            r.status.Raised? && r.status.error.PollFailed? ==>
              && ps != []
              && ps[|ps| - 1] == r.status.error.monitor
              && r.status.error.monitor in r.table
              && probe(r.status.error.monitor.process, t) == OtherError(r.status.error.message)
    decreases if i <= |monitors| then |monitors| - i + 1 else 0
  {
    if i < |monitors| && monitors[i].eventSet == WaitSet && !probe(monitors[i].process, t).OtherError? {
      var m := monitors[i];
      var live := AfterVisit(monitors, m, probe, t);
      var tail := From(live, i + 1, probe, t);
      FromUnfold(monitors, i, probe, t);
      FromRaised(live, i + 1, probe, t);
      VisitFacts(m, probe, t);
      PollsConcat(Visit(m, probe, t), tail.trace);
    } else if i < |monitors| && monitors[i].eventSet == WaitSet {
      var m := monitors[i];
      assert From(monitors, i, probe, t).trace == [Polled(m, t, probe(m.process, t))];
      assert [m][1..] == [];
    }
  }

  /** From index `i` on, every monitor polled comes from the live table
      and is a `:wait` one, and a poll fails only as the last one, when the
      tick raises for it. */
  lemma {:induction false} FromServable(monitors: seq<Monitor>, i: nat, probe: Probe, t: real)
    ensures var r := From(monitors, i, probe, t);
            && (forall x :: x in Polls(r.trace) ==> x in monitors)
            && PollsServable(Polls(r.trace), probe, t, r.status)
    decreases if i <= |monitors| then |monitors| - i + 1 else 0
  {
    if i < |monitors| && monitors[i].eventSet == WaitSet && !probe(monitors[i].process, t).OtherError? {
      var m := monitors[i];
      var live := AfterVisit(monitors, m, probe, t);
      var tail := From(live, i + 1, probe, t);
      FromUnfold(monitors, i, probe, t);
      FromServable(live, i + 1, probe, t);
      VisitFacts(m, probe, t);
      ServableCons(m, Visit(m, probe, t), tail.trace, probe, t, tail.status);
      PollsConcat(Visit(m, probe, t), tail.trace);
      forall x | x in Polls(tail.trace)
        ensures x in monitors
      {
        InDelete(monitors, m, x);
      }
    } else if i < |monitors| && monitors[i].eventSet == WaitSet {
      var m := monitors[i];
      assert From(monitors, i, probe, t).trace == [Polled(m, t, probe(m.process, t))];
      assert [m][1..] == [];
      assert Polls([Polled(m, t, probe(m.process, t))]) == [m];
    } else {
      assert Polls([]) == [];
    }
  }

  /** From index `i` on, a walk that finishes has polled one monitor per
      index up to the end of the array it leaves. */
  lemma {:induction false} FromFinished(monitors: seq<Monitor>, i: nat, probe: Probe, t: real)
    ensures var r := From(monitors, i, probe, t);
            r.status == Finished ==> |r.table| <= i + |Polls(r.trace)|
    decreases if i <= |monitors| then |monitors| - i + 1 else 0
  {
    if i < |monitors| && monitors[i].eventSet == WaitSet && !probe(monitors[i].process, t).OtherError? {
      var m := monitors[i];
      var live := AfterVisit(monitors, m, probe, t);
      var tail := From(live, i + 1, probe, t);
      FromUnfold(monitors, i, probe, t);
      FromFinished(live, i + 1, probe, t);
      VisitFacts(m, probe, t);
      PollsConcat(Visit(m, probe, t), tail.trace);
    }
  }

  /** A monitor resumed by one tick is gone from the table it leaves, so
      the next tick cannot resume it again. */
  lemma ResumedOnlyOnce(table: seq<Monitor>, probe: Probe, timeout: Option<real>, probe2: Probe, timeout2: Option<real>)
    ensures var first := Tick(table, probe, timeout);
            var second := Tick(first.table, probe2, timeout2);
            forall x :: x in Resumes(first.trace) ==> x !in Resumes(second.trace)
  {
    var first := Tick(table, probe, timeout);
    var second := Tick(first.table, probe2, timeout2);
    TickFacts(table, probe, timeout, first);
    TickFacts(first.table, probe2, timeout2, second);
    forall x | x in Resumes(first.trace)
      ensures x !in Resumes(second.trace)
    {
      InWithout(table, Resumes(first.trace), x);
    }
  }

  /** The exec tick read in the order of the original table. `skip` says
      the monitor before `rest` was just deleted, so that the walk steps
      over `rest[0]`: it is kept, neither polled nor resumed, and does not
      raise even when its set is unknown. */
  function Scan(rest: seq<Monitor>, skip: bool, probe: Probe, t: real): TickResult
    decreases |rest|
  {
    if rest == [] then TickResult([], [], Finished)
    else if skip then Keep(rest[0], [], Scan(rest[1..], false, probe, t))
    else
      var m := rest[0];
      if m.eventSet != WaitSet then TickResult(rest, [], Raised(UnknownSet(m)))
      else
        var polled := Polled(m, t, probe(m.process, t));
        match probe(m.process, t)
        case OtherError(message) => TickResult(rest, [polled], Raised(PollFailed(m, message)))
        case Returned => Prepend([polled, Deleted(m), Resumed(m)], Scan(rest[1..], true, probe, t))
        case TimeoutError => Keep(m, [polled], Scan(rest[1..], false, probe, t))
  }

  /** Monitor `m` stays in the table, after the events `trace`. */
  function Keep(m: Monitor, trace: seq<Event>, tail: TickResult): TickResult
  {
    TickResult([m] + tail.table, trace + tail.trace, tail.status)
  }

  /** The monitors `kept` in front of the walk, then the tick `tail`. */
  function Behind(kept: seq<Monitor>, tail: TickResult): TickResult
  {
    TickResult(kept + tail.table, tail.trace, tail.status)
  }

  /** On a table without repeated monitors, the index walk is the scan:
      the live array is always the monitors kept so far followed by the
      unvisited rest of the original, and the index sits one past the
      kept ones exactly when the last visit deleted. */
  lemma {:induction false} FromMatchesScan(kept: seq<Monitor>, rest: seq<Monitor>, skip: bool, probe: Probe, t: real)
    requires Distinct(kept + rest)
    ensures From(kept + rest, |kept| + (if skip then 1 else 0), probe, t) == Behind(kept, Scan(rest, skip, probe, t))
    decreases |rest|
  {
    var monitors := kept + rest;
    var i := |kept| + (if skip then 1 else 0);
    if rest == [] {
      assert monitors == kept + [];
    } else if skip {
      var x := rest[0];
      var tail := Scan(rest[1..], false, probe, t);
      assert Scan(rest, skip, probe, t) == Keep(x, [], tail);
      assert (kept + [x]) + rest[1..] == monitors;
      DistinctSplit(kept, rest);
      FromMatchesScan(kept + [x], rest[1..], false, probe, t);
      BehindKeep(kept, x, [], tail);
    } else {
      var m := rest[0];
      assert monitors[i] == m;
      var polled := Polled(m, t, probe(m.process, t));
      if m.eventSet == WaitSet && probe(m.process, t) == Returned {
        var tail := Scan(rest[1..], true, probe, t);
        var events := [polled, Deleted(m), Resumed(m)];
        assert Scan(rest, skip, probe, t) == Prepend(events, tail);
        assert From(monitors, i, probe, t) == Prepend(events, From(Delete(monitors, m), i + 1, probe, t));
        DistinctSplit(kept, rest);
        DeleteVisited(kept, rest);
        FromMatchesScan(kept, rest[1..], true, probe, t);
        BehindPrepend(kept, events, tail);
      } else if m.eventSet == WaitSet && probe(m.process, t) == TimeoutError {
        var tail := Scan(rest[1..], false, probe, t);
        assert Scan(rest, skip, probe, t) == Keep(m, [polled], tail);
        assert From(monitors, i, probe, t) == Prepend([polled], From(monitors, i + 1, probe, t));
        assert (kept + [m]) + rest[1..] == monitors;
        DistinctSplit(kept, rest);
        FromMatchesScan(kept + [m], rest[1..], false, probe, t);
        BehindKeep(kept, m, [polled], tail);
      }
    }
  }

  lemma BehindKeep(kept: seq<Monitor>, m: Monitor, trace: seq<Event>, tail: TickResult)
    ensures Prepend(trace, Behind(kept + [m], tail)) == Behind(kept, Keep(m, trace, tail))
  {
    assert (kept + [m]) + tail.table == kept + ([m] + tail.table);
  }

  lemma BehindPrepend(kept: seq<Monitor>, trace: seq<Event>, tail: TickResult)
    ensures Prepend(trace, Behind(kept, tail)) == Behind(kept, Prepend(trace, tail))
  {
  }

  /** When the visited monitor occurs nowhere else, `delete` removes just
      that one. */
  lemma DeleteVisited(kept: seq<Monitor>, rest: seq<Monitor>)
    requires rest != [] && rest[0] !in kept && rest[0] !in rest[1..]
    ensures Delete(kept + rest, rest[0]) == kept + rest[1..]
  {
    var m := rest[0];
    var tail := rest[1..];
    assert Delete(rest, m) == Delete(tail, m);
    DeleteAbsent(tail, m);
    DeleteAbsent(kept, m);
    DeleteConcat(kept, rest, m);
  }

  /** Splitting a duplicate-free table before its `|kept|`-th monitor. */
  lemma DistinctSplit(kept: seq<Monitor>, rest: seq<Monitor>)
    requires Distinct(kept + rest) && rest != []
    ensures rest[0] !in kept && rest[0] !in rest[1..]
    ensures Distinct(kept + rest[1..]) && Distinct((kept + [rest[0]]) + rest[1..])
  {
    var s := kept + rest;
    assert (kept + [rest[0]]) + rest[1..] == s;
    forall i | 0 <= i < |kept|
      ensures kept[i] != rest[0]
    {
      assert s[i] == kept[i] && s[|kept|] == rest[0];
    }
    forall j | 0 <= j < |rest[1..]|
      ensures rest[1..][j] != rest[0]
    {
      assert s[|kept| + 1 + j] == rest[1..][j] && s[|kept|] == rest[0];
    }
    var d := kept + rest[1..];
    forall i, j | 0 <= i < j < |d|
      ensures d[i] != d[j]
    {
      var i' := if i < |kept| then i else i + 1;
      var j' := if j < |kept| then j else j + 1;
      assert d[i] == s[i'] && d[j] == s[j'];
    }
  }

  /** A tick of a table without repeated monitors is the scan. */
  lemma TickMatchesScan(table: seq<Monitor>, probe: Probe, timeout: Option<real>)
    requires Distinct(table)
    ensures Tick(table, probe, timeout) == Scan(table, false, probe, PollTimeout(timeout))
  {
    assert [] + table == table;
    FromMatchesScan([], table, false, probe, PollTimeout(timeout));
  }

  /** The table the exec tick leaves behind. */
  function TableAfter(table: seq<Monitor>, probe: Probe, timeout: Option<real>): seq<Monitor>
  {
    Tick(table, probe, timeout).table
  }

  /** A tick removes only monitors it resumed, so it gives no task a second
      monitor, repeats no monitor, and keeps every monitor it cannot
      complete. */
  lemma TickKeepsInvariants(table: seq<Monitor>, probe: Probe, timeout: Option<real>)
    ensures var r := Tick(table, probe, timeout);
            && (DistinctTasks(table) ==> DistinctTasks(r.table))
            && (Distinct(table) ==> Distinct(r.table))
            && (forall m :: m in table && !Completable(m, probe, PollTimeout(timeout)) ==> m in r.table)
  {
    var r := Tick(table, probe, timeout);
    TickFacts(table, probe, timeout, r);
    RemovingResumedKeeps(table, r, probe, PollTimeout(timeout));
  }

  lemma TicksKeepInvariants()
    ensures KeepsTasksDistinct(TableAfter) && KeepsPending(TableAfter)
  {
    forall table, probe, timeout
      ensures DistinctTasks(table) ==> DistinctTasks(TableAfter(table, probe, timeout))
      ensures forall m :: m in table && !Completable(m, probe, PollTimeout(timeout)) ==> m in TableAfter(table, probe, timeout)
    {
      TickKeepsInvariants(table, probe, timeout);
    }
  }

  /** Every table built from the empty one by `register` calls of running
      tasks and exec ticks has one monitor per task, so its tick is the
      scan. */
  lemma ReachableTickMatchesScan(ops: seq<Op>, probe: Probe, timeout: Option<real>)
    requires Admissible(TableAfter, [], ops)
    ensures var table := Replay(TableAfter, [], ops);
            Tick(table, probe, timeout) == Scan(table, false, probe, PollTimeout(timeout))
  {
    var table := Replay(TableAfter, [], ops);
    TicksKeepInvariants();
    ReplayKeepsTasksDistinct(TableAfter, [], ops);
    DistinctTasksDistinct(table);
    TickMatchesScan(table, probe, timeout);
  }

  /** Whether visiting `m` deletes it: it is not stepped over and is
      completable. */
  predicate Deletes(m: Monitor, skip: bool, probe: Probe, t: real)
  {
    !skip && Completable(m, probe, t)
  }

  /** The events a scan records for `m` when it does not raise. */
  function ScanEvents(m: Monitor, skip: bool, probe: Probe, t: real): seq<Event>
  {
    if skip then [] else Visit(m, probe, t)
  }

  /** Whether the scan raises at `m`. */
  predicate RaisesAt(m: Monitor, skip: bool, probe: Probe, t: real)
  {
    !skip && (m.eventSet != WaitSet || probe(m.process, t).OtherError?)
  }

  lemma ScanUnfold(rest: seq<Monitor>, skip: bool, probe: Probe, t: real)
    requires rest != [] && !RaisesAt(rest[0], skip, probe, t)
    ensures var r := Scan(rest, skip, probe, t);
            var d := Deletes(rest[0], skip, probe, t);
            var tail := Scan(rest[1..], d, probe, t);
            && r.trace == ScanEvents(rest[0], skip, probe, t) + tail.trace
            && r.table == (if d then [] else [rest[0]]) + tail.table
            && r.status == tail.status
  {
    var m := rest[0];
    if !skip && probe(m.process, t) == Returned {
      assert Visit(m, probe, t) == [Polled(m, t, Returned), Deleted(m), Resumed(m)];
    }
  }

  /** A scan that raises at `rest[0]` resumes nothing and polls at most it. */
  lemma ScanRaising(rest: seq<Monitor>, skip: bool, probe: Probe, t: real)
    requires rest != [] && RaisesAt(rest[0], skip, probe, t)
    ensures Resumes(Scan(rest, skip, probe, t).trace) == []
    ensures forall x :: x in Polls(Scan(rest, skip, probe, t).trace) ==> x == rest[0]
  {
    var m := rest[0];
    var polled := Polled(m, t, probe(m.process, t));
    if m.eventSet == WaitSet {
      assert Scan(rest, skip, probe, t).trace == [polled];
      assert [polled][1..] == [];
    } else {
      assert Scan(rest, skip, probe, t).trace == [];
    }
  }

  /** The polls and resumes of one scanned monitor's events. */
  lemma ScanEventsFacts(m: Monitor, skip: bool, probe: Probe, t: real)
    requires !RaisesAt(m, skip, probe, t)
    ensures Polls(ScanEvents(m, skip, probe, t)) == if skip then [] else [m]
    ensures Resumes(ScanEvents(m, skip, probe, t)) == if Deletes(m, skip, probe, t) then [m] else []
  {
    if !skip {
      VisitFacts(m, probe, t);
    }
  }

  /** Everything a scan polls or resumes comes from the table it scans. */
  lemma {:induction false} ScanFromRest(rest: seq<Monitor>, skip: bool, probe: Probe, t: real)
    ensures forall x :: x in Polls(Scan(rest, skip, probe, t).trace) ==> x in rest
    ensures forall x :: x in Resumes(Scan(rest, skip, probe, t).trace) ==> x in rest
    decreases |rest|
  {
    if rest != [] && RaisesAt(rest[0], skip, probe, t) {
      ScanRaising(rest, skip, probe, t);
    } else if rest != [] {
      var d := Deletes(rest[0], skip, probe, t);
      var events := ScanEvents(rest[0], skip, probe, t);
      var tail := Scan(rest[1..], d, probe, t);
      ScanUnfold(rest, skip, probe, t);
      ScanEventsFacts(rest[0], skip, probe, t);
      ScanFromRest(rest[1..], d, probe, t);
      PollsConcat(events, tail.trace);
      ResumesConcat(events, tail.trace);
      forall x | x in rest[1..]
        ensures x in rest
      {
      }
    }
  }

  /** How one scanned monitor relates a scan to the scan of the rest:
      other monitors are polled, resumed and kept exactly as in the rest. */
  lemma ScanStep(rest: seq<Monitor>, skip: bool, probe: Probe, t: real)
    requires rest != [] && !RaisesAt(rest[0], skip, probe, t)
    ensures var r := Scan(rest, skip, probe, t);
            var tail := Scan(rest[1..], Deletes(rest[0], skip, probe, t), probe, t);
            && (forall x :: x != rest[0] ==> (x in Resumes(r.trace) <==> x in Resumes(tail.trace)))
            && (forall x :: x != rest[0] ==> (x in Polls(r.trace) <==> x in Polls(tail.trace)))
            && (forall x :: x != rest[0] ==> (x in r.table <==> x in tail.table))
            && (rest[0] in Resumes(r.trace) && rest[0] !in rest[1..] ==> Deletes(rest[0], skip, probe, t))
  {
    var m := rest[0];
    var d := Deletes(m, skip, probe, t);
    var events := ScanEvents(m, skip, probe, t);
    var tail := Scan(rest[1..], d, probe, t);
    ScanUnfold(rest, skip, probe, t);
    ScanEventsFacts(m, skip, probe, t);
    PollsConcat(events, tail.trace);
    ResumesConcat(events, tail.trace);
    ScanFromRest(rest[1..], d, probe, t);
  }

  /** In a table without repeated monitors, the monitor right after a
      resumed one is stepped over: it stays in the table unpolled. */
  lemma {:induction false} ScanSkipsSuccessor(rest: seq<Monitor>, skip: bool, probe: Probe, t: real, j: nat)
    requires Distinct(rest) && j + 1 < |rest|
    ensures var r := Scan(rest, skip, probe, t);
            rest[j] in Resumes(r.trace) ==> rest[j + 1] in r.table && rest[j + 1] !in Polls(r.trace)
    decreases |rest|
  {
    var m := rest[0];
    if RaisesAt(m, skip, probe, t) {
      ScanRaising(rest, skip, probe, t);
    } else if j == 0 {
      DistinctTail(rest);
      SuccessorOfFirst(rest, skip, probe, t);
    } else {
      var d := Deletes(m, skip, probe, t);
      DistinctTail(rest);
      ScanStep(rest, skip, probe, t);
      assert rest[j] == rest[1..][j - 1] && rest[j + 1] == rest[1..][j];
      assert rest[0] != rest[j] && rest[0] != rest[j + 1];
      ScanSkipsSuccessor(rest[1..], d, probe, t, j - 1);
    }
  }

  /** The `j == 0` case of `ScanSkipsSuccessor`. */
  lemma SuccessorOfFirst(rest: seq<Monitor>, skip: bool, probe: Probe, t: real)
    requires 1 < |rest| && !RaisesAt(rest[0], skip, probe, t)
    requires rest[0] !in rest[1..] && rest[1] !in rest[2..]
    ensures var r := Scan(rest, skip, probe, t);
            rest[0] in Resumes(r.trace) ==> rest[1] in r.table && rest[1] !in Polls(r.trace)
  {
    var m := rest[0];
    var d := Deletes(m, skip, probe, t);
    ScanStep(rest, skip, probe, t);
    if d {
      var rest' := rest[1..];
      var after := Scan(rest'[1..], false, probe, t);
      assert rest'[1..] == rest[2..];
      assert Scan(rest', true, probe, t) == Keep(rest'[0], [], after);
      ScanFromRest(rest'[1..], false, probe, t);
      assert rest[1] == rest'[0] && rest[1] in rest[1..];
      assert rest[1] != m;
      assert rest[1] in Scan(rest', true, probe, t).table;
      assert rest[1] !in Polls(after.trace);
      assert Scan(rest', true, probe, t).trace == after.trace;
      assert rest[1] !in Polls(Scan(rest', true, probe, t).trace);
    }
  }

  /** `run_once` steps over the monitor that follows each resumed one:
      it stays in the table and its process is not polled this tick. */
  lemma DeletedSuccessorSurvives(table: seq<Monitor>, probe: Probe, timeout: Option<real>, j: nat)
    requires Distinct(table) && j + 1 < |table|
    requires table[j] in Resumes(Tick(table, probe, timeout).trace)
    ensures table[j + 1] in Tick(table, probe, timeout).table
    ensures table[j + 1] !in Polls(Tick(table, probe, timeout).trace)
  {
    TickMatchesScan(table, probe, timeout);
    ScanSkipsSuccessor(table, false, probe, PollTimeout(timeout), j);
  }

  /** Two monitors whose processes have both exited: the tick resumes the
      first, steps over the second and leaves it in the table; only the
      next tick resumes it. */
  lemma SkipAfterDelete(a: Monitor, b: Monitor, probe: Probe, timeout: Option<real>)
    requires a != b
    requires Completable(a, probe, PollTimeout(timeout)) && Completable(b, probe, PollTimeout(timeout))
    ensures var t := PollTimeout(timeout);
            var first := Tick([a, b], probe, timeout);
            var second := Tick(first.table, probe, timeout);
            && first == TickResult([b], [Polled(a, t, Returned), Deleted(a), Resumed(a)], Finished)
            && second == TickResult([], [Polled(b, t, Returned), Deleted(b), Resumed(b)], Finished)
  {
    var t := PollTimeout(timeout);
    assert Distinct([a, b]);
    TickMatchesScan([a, b], probe, timeout);
    assert [a, b][1..] == [b];
    assert Scan([b], true, probe, t) == Keep(b, [], Scan([], false, probe, t));
    assert Distinct([b]);
    TickMatchesScan([b], probe, timeout);
    assert [b][1..] == [];
  }

  /** A monitor with an unknown set right after a resumed one is stepped
      over, so the tick finishes instead of raising. */
  lemma SkippedUnknownSetDoesNotRaise(a: Monitor, x: Monitor, probe: Probe, timeout: Option<real>)
    requires a != x && x.eventSet != WaitSet
    requires Completable(a, probe, PollTimeout(timeout))
    ensures Tick([a, x], probe, timeout).status == Finished
    ensures Tick([a, x], probe, timeout).table == [x]
  {
    assert Distinct([a, x]);
    TickMatchesScan([a, x], probe, timeout);
    var t := PollTimeout(timeout);
    assert [a, x][1..] == [x];
    assert [x][1..] == [];
    assert Scan([x], true, probe, t) == Keep(x, [], Scan([], false, probe, t));
    assert Scan([a, x], false, probe, t) == Prepend([Polled(a, t, Returned), Deleted(a), Resumed(a)], Scan([x], true, probe, t));
  }

  /** When no task waits twice in the table, no task is resumed twice in
      a tick. */
  lemma ResumedTasksDistinct(table: seq<Monitor>, probe: Probe, timeout: Option<real>)
    requires DistinctTasks(table)
    ensures var tasks := Tasks(Resumes(Tick(table, probe, timeout).trace));
            forall i, j :: 0 <= i < j < |tasks| ==> tasks[i] != tasks[j]
  {
    var r := Tick(table, probe, timeout);
    var rs := Resumes(r.trace);
    TickFacts(table, probe, timeout, r);
    var tasks := Tasks(rs);
    forall i, j | 0 <= i < j < |tasks|
      ensures tasks[i] != tasks[j]
    {
      assert rs[i] != rs[j];
      assert rs[i] in rs && rs[j] in rs;
      var a :| 0 <= a < |table| && table[a] == rs[i];
      var b :| 0 <= b < |table| && table[b] == rs[j];
      assert a != b;
      if a < b {
        assert table[a].task != table[b].task;
      } else {
        assert table[b].task != table[a].task;
      }
    }
  }
}
