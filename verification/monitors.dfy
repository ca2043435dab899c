/**
 The monitor table shared by both process-wait reactors: the `Monitor`
 record, `register`, the `exited?` probe and the default poll timeout, plus
 the vocabulary both ticks report in (a trace of polls, deletions and
 resumes). Tasks and child processes are Ruby objects compared by identity,
 so they are modelled as opaque numbers.
 */
module Monitors {
  import opened Wrappers

  /** Identity of a Celluloid task (the coroutine that called `wait`). */
  type TaskId = nat

  /** Identity of a child-process handle. */
  type ProcessId = nat

  /** The Ruby symbol a monitor was registered for. */
  datatype EventSet = Symbol(name: string)

  /** `:wait`, the only set a tick knows how to serve. */
  const WaitSet: EventSet := Symbol("wait")

  /** One registration: `task` is parked until `process` exits; `eventSet`
      is the Ruby field `set`. */
  datatype Monitor = Monitor(task: TaskId, process: ProcessId, eventSet: EventSet)

  /** How one call of `poll_for_exit(timeout)` ends: it returns (the
      process has exited), raises the library's `TimeoutError`, or raises
      anything else. */
  datatype PollOutcome = Returned | TimeoutError | OtherError(message: string)

  /** The process-control library as seen from a tick: the outcome of
      polling a process with a given timeout in seconds. */
  type Probe = (ProcessId, real) -> PollOutcome

  /** Seconds each poll may block when the tick is given no timeout. */
  const DefaultTimeout: real := 0.1

  /** `timeout || 0.1`: a given timeout is used as is (Ruby's `0` is
      truthy, so even a zero timeout is kept); only `nil` falls back. */
  function PollTimeout(timeout: Option<real>): real
  {
    match timeout
    case Some(t) => t
    case None => DefaultTimeout
  }

  /** `exited?`: true when `poll_for_exit` returns, false when it raises
      `TimeoutError`; any other error is not rescued and propagates. */
  function IsExited(probe: Probe, process: ProcessId, timeout: real): (r: Result<bool, string>)
    ensures r == Ok(true) <==> probe(process, timeout) == Returned
    ensures r == Ok(false) <==> probe(process, timeout) == TimeoutError
    ensures r.Err? <==> probe(process, timeout).OtherError?
    ensures r.Err? ==> r.error == probe(process, timeout).message
  {
    match probe(process, timeout)
    case Returned => Ok(true)
    case TimeoutError => Ok(false)
    case OtherError(message) => Err(message)
  }

  /** A monitor whose task a tick resumes when it is visited. */
  predicate Completable(m: Monitor, probe: Probe, t: real)
  {
    m.eventSet == WaitSet && probe(m.process, t) == Returned
  }

  /** `register`: the table after appending a monitor for the current task.
      (Suspending the task afterwards is the scheduler's business.) */
  function Register(table: seq<Monitor>, task: TaskId, process: ProcessId, eventSet: EventSet): (r: seq<Monitor>)
    ensures |r| == |table| + 1
    ensures r[..|table|] == table
    ensures r[|table|] == Monitor(task, process, eventSet)
    // the registering task is running, so it has no monitor yet: the table
    // keeps at most one monitor per task
    ensures DistinctTasks(table) && (forall m :: m in table ==> m.task != task) ==> DistinctTasks(r)
  {
    table + [Monitor(task, process, eventSet)]
  }

  /** No monitor occurs twice. */
  predicate Distinct(s: seq<Monitor>)
  {
    forall i, j :: 0 <= i < j < |s| ==> s[i] != s[j]
  }

  /** Putting a monitor that is not yet there in front keeps a table
      duplicate-free. */
  lemma DistinctCons(m: Monitor, s: seq<Monitor>)
    requires m !in s && Distinct(s)
    ensures Distinct([m] + s)
  {
    var r := [m] + s;
    forall i, j | 0 <= i < j < |r|
      ensures r[i] != r[j]
    {
      assert r[j] == s[j - 1];
      if i > 0 {
        assert r[i] == s[i - 1];
      }
    }
  }

  /** A stretch of a table is its first monitor followed by the rest. */
  lemma SliceCons(s: seq<Monitor>, i: nat, j: nat)
    requires i < j <= |s|
    ensures s[i..j] == [s[i]] + s[i + 1..j]
  {
  }

  /** A stretch of `s` starting right after `i`, with `s[i]` put in front,
      is the stretch starting at `i`. */
  lemma SliceExtend(s: seq<Monitor>, i: nat, tail: seq<Monitor>)
    requires i + 1 + |tail| <= |s| && tail == s[i + 1..i + 1 + |tail|]
    ensures [s[i]] + tail == s[i..i + 1 + |tail|]
  {
    SliceCons(s, i, i + 1 + |tail|);
  }

  /** No task waits twice: a suspended task cannot register again. */
  predicate DistinctTasks(s: seq<Monitor>)
  {
    forall i, j :: 0 <= i < j < |s| ==> s[i].task != s[j].task
  }

  /** Dropping the front of a duplicate-free table. */
  lemma DistinctTail(s: seq<Monitor>)
    requires Distinct(s) && s != []
    ensures Distinct(s[1..]) && s[0] !in s[1..]
  {
    forall j | 0 <= j < |s| - 1
      ensures s[1..][j] != s[0]
    {
      assert s[1..][j] == s[j + 1];
    }
    forall i, j | 0 <= i < j < |s| - 1
      ensures s[1..][i] != s[1..][j]
    {
      assert s[1..][i] == s[i + 1] && s[1..][j] == s[j + 1];
    }
  }

  /** A prefix of a table keeps it free of repeated monitors and tasks. */
  lemma PrefixKeepsDistinct(s: seq<Monitor>, n: nat)
    requires n <= |s|
    ensures Distinct(s) ==> Distinct(s[..n])
    ensures DistinctTasks(s) ==> DistinctTasks(s[..n])
  {
    forall i, j | 0 <= i < j < n
      ensures s[..n][i] == s[i] && s[..n][j] == s[j]
    {
    }
  }

  /** Dropping the front of a table with one monitor per task. */
  lemma DistinctTasksTail(s: seq<Monitor>)
    requires DistinctTasks(s) && s != []
    ensures DistinctTasks(s[1..])
    ensures forall x :: x in s[1..] ==> x.task != s[0].task
  {
    forall x | x in s[1..]
      ensures x.task != s[0].task
    {
      var j :| 0 <= j < |s| - 1 && s[1..][j] == x;
      assert x == s[j + 1];
    }
    forall i, j | 0 <= i < j < |s| - 1
      ensures s[1..][i].task != s[1..][j].task
    {
      assert s[1..][i] == s[i + 1] && s[1..][j] == s[j + 1];
    }
  }

  /** Putting a monitor of a task without one in front keeps one monitor
      per task. */
  lemma DistinctTasksCons(m: Monitor, s: seq<Monitor>)
    requires (forall x :: x in s ==> x.task != m.task) && DistinctTasks(s)
    ensures DistinctTasks([m] + s)
  {
    var r := [m] + s;
    forall i, j | 0 <= i < j < |r|
      ensures r[i].task != r[j].task
    {
      assert r[j] == s[j - 1];
      if i > 0 {
        assert r[i] == s[i - 1];
      }
    }
  }

  /** Two equal monitors belong to the same task, so a table with one
      monitor per task has no repeated monitor. */
  lemma DistinctTasksDistinct(s: seq<Monitor>)
    requires DistinctTasks(s)
    ensures Distinct(s)
  {
    forall i, j | 0 <= i < j < |s|
      ensures s[i] != s[j]
    {
      assert s[i].task != s[j].task;
    }
  }

  /** `Array#delete(m)`: every element equal to `m` is removed, the rest
      keep their order. */
  function Delete(s: seq<Monitor>, m: Monitor): (r: seq<Monitor>)
    ensures |r| <= |s|
    ensures m in s ==> |r| < |s|
  {
    if s == [] then [] else (if s[0] == m then [] else [s[0]]) + Delete(s[1..], m)
  }

  /** `s` with every monitor listed in `gone` filtered out, order kept. */
  function Without(s: seq<Monitor>, gone: seq<Monitor>): (r: seq<Monitor>)
    ensures |r| <= |s|
  {
    if s == [] then [] else (if s[0] in gone then [] else [s[0]]) + Without(s[1..], gone)
  }

  /** Exactly the monitors of `s` not listed in `gone` survive the filter. */
  lemma {:induction false} InWithout(s: seq<Monitor>, gone: seq<Monitor>, x: Monitor)
    ensures x in Without(s, gone) <==> x in s && x !in gone
  {
    if s != [] {
      InWithout(s[1..], gone, x);
      assert s == [s[0]] + s[1..];
    }
  }

  lemma {:induction false} WithoutNothing(s: seq<Monitor>)
    ensures Without(s, []) == s
  {
    if s != [] {
      WithoutNothing(s[1..]);
      assert s == [s[0]] + s[1..];
    }
  }

  /** Filtering never repeats a monitor nor gives a task a second one. */
  lemma {:induction false} WithoutKeepsDistinct(s: seq<Monitor>, gone: seq<Monitor>)
    ensures Distinct(s) ==> Distinct(Without(s, gone))
    ensures DistinctTasks(s) ==> DistinctTasks(Without(s, gone))
  {
    if s != [] {
      var rest := Without(s[1..], gone);
      WithoutKeepsDistinct(s[1..], gone);
      assert Without(s, gone) == (if s[0] in gone then [] else [s[0]]) + rest;
      if Distinct(s) {
        DistinctTail(s);
        InWithout(s[1..], gone, s[0]);
        if s[0] !in gone {
          DistinctCons(s[0], rest);
        }
      }
      if DistinctTasks(s) {
        DistinctTasksTail(s);
        forall x | x in rest
          ensures x.task != s[0].task
        {
          InWithout(s[1..], gone, x);
        }
        if s[0] !in gone {
          DistinctTasksCons(s[0], rest);
        }
      }
    }
  }

  /** A monitor survives `delete(m)` exactly when it is in the table and
      is not `m`. */
  lemma {:induction false} InDelete(s: seq<Monitor>, m: Monitor, x: Monitor)
    ensures x in Delete(s, m) <==> x in s && x != m
  {
    if s != [] {
      InDelete(s[1..], m, x);
      assert s == [s[0]] + s[1..];
    }
  }

  /** Filtering a table after deleting `m` is filtering it by `m` too. */
  lemma {:induction false} WithoutDelete(s: seq<Monitor>, m: Monitor, gone: seq<Monitor>)
    ensures Without(Delete(s, m), gone) == Without(s, [m] + gone)
  {
    if s != [] {
      WithoutDelete(s[1..], m, gone);
      var head := if s[0] == m then [] else [s[0]];
      WithoutConcat(head, Delete(s[1..], m), gone);
      assert Delete(s, m) == head + Delete(s[1..], m);
      if s[0] != m {
        assert Without(head, gone) == (if s[0] in gone then [] else [s[0]]) + Without([], gone);
      }
    }
  }

  lemma {:induction false} WithoutConcat(a: seq<Monitor>, b: seq<Monitor>, gone: seq<Monitor>)
    ensures Without(a + b, gone) == Without(a, gone) + Without(b, gone)
  {
    if a != [] {
      WithoutConcat(a[1..], b, gone);
      assert (a + b)[1..] == a[1..] + b;
    } else {
      assert a + b == b;
    }
  }

  lemma {:induction false} DeleteConcat(a: seq<Monitor>, b: seq<Monitor>, m: Monitor)
    ensures Delete(a + b, m) == Delete(a, m) + Delete(b, m)
  {
    if a != [] {
      DeleteConcat(a[1..], b, m);
      assert (a + b)[1..] == a[1..] + b;
    } else {
      assert a + b == b;
    }
  }

  lemma {:induction false} DeleteAbsent(s: seq<Monitor>, m: Monitor)
    requires m !in s
    ensures Delete(s, m) == s
  {
    if s != [] {
      DeleteAbsent(s[1..], m);
      assert s == [s[0]] + s[1..];
    }
  }

  /** What a tick does, in order. */
  datatype Event =
    | Polled(monitor: Monitor, timeout: real, outcome: PollOutcome)  // `exited?(process, timeout)`
    | Deleted(monitor: Monitor)                                       // `@monitors.delete(monitor)`
    | Resumed(monitor: Monitor)                                       // `monitor.task.resume`

  /** Why a tick raised. */
  datatype TickError =
    | UnknownSet(monitor: Monitor)                 // `raise "unknown set: ..."`
    | PollFailed(monitor: Monitor, message: string) // an error `exited?` does not rescue

  datatype Status = Finished | Raised(error: TickError)

  /** The table a tick leaves behind, what it did, and whether it raised.
      The effects recorded before a raise have already happened. */
  datatype TickResult = TickResult(table: seq<Monitor>, trace: seq<Event>, status: Status)

  /** The events `trace`, followed by the rest `tail` of a tick. */
  function Prepend(trace: seq<Event>, tail: TickResult): TickResult
  {
    TickResult(tail.table, trace + tail.trace, tail.status)
  }

  /** The polls of `r`, a tick from index `i` of `s` on, are the next
      stretch of `s` in order, the whole rest of it when `r` finishes. */
  predicate PollsStretch(s: seq<Monitor>, i: nat, r: TickResult)
  {
    var ps := Polls(r.trace);
    && i + |ps| <= |s|
    && ps == s[i..i + |ps|]
    && (r.status == Finished ==> i + |ps| == |s|)
  }

  /** One visit that polls `s[i]`, before a tick from `i + 1` on, keeps
      the polls a stretch of `s`. */
  lemma StretchPrepend(s: seq<Monitor>, i: nat, step: seq<Event>, tail: TickResult)
    requires i < |s| && Polls(step) == [s[i]] && PollsStretch(s, i + 1, tail)
    ensures PollsStretch(s, i, Prepend(step, tail))
  {
    var ps := Polls(tail.trace);
    var ps' := Polls(Prepend(step, tail).trace);
    assert ps' == [s[i]] + ps by {
      PollsConcat(step, tail.trace);
    }
    assert [s[i]] + ps == s[i..i + 1 + |ps|] by {
      SliceExtend(s, i, ps);
    }
  }

  /** Where `r`, a tick from index `i` of `s` on, raised: an unknown set at
      the first monitor it did not poll, a probe error at its last poll. */
  predicate RaisedAt(s: seq<Monitor>, i: nat, r: TickResult, probe: Probe, t: real)
  {
    var ps := Polls(r.trace);
    && (r.status.Raised? && r.status.error.UnknownSet? ==>
          i + |ps| < |s| && s[i + |ps|] == r.status.error.monitor && s[i + |ps|].eventSet != WaitSet)
    && (r.status.Raised? && r.status.error.PollFailed? ==>
          && ps != []
          && ps[|ps| - 1] == r.status.error.monitor
          && probe(r.status.error.monitor.process, t) == OtherError(r.status.error.message))
  }

  lemma RaisedPrepend(s: seq<Monitor>, i: nat, step: seq<Event>, tail: TickResult, probe: Probe, t: real)
    requires i < |s| && Polls(step) == [s[i]] && RaisedAt(s, i + 1, tail, probe, t)
    ensures RaisedAt(s, i, Prepend(step, tail), probe, t)
  {
    var ps := Polls(tail.trace);
    PollsConcat(step, tail.trace);
    var ps' := Polls(Prepend(step, tail).trace);
    assert ps' == [s[i]] + ps;
    assert |ps'| == |ps| + 1;
    if ps != [] {
      assert ps'[|ps'| - 1] == ps[|ps| - 1];
    }
  }

  /** The polls `ps` of a tick that ended with `status` were all of `:wait`
      monitors, and a poll failed exactly when it was the last one and the
      tick raised a probe error. */
  predicate PollsServable(ps: seq<Monitor>, probe: Probe, t: real, status: Status)
  {
    && (forall x :: x in ps ==> x.eventSet == WaitSet)
    && (status.Raised? && status.error.PollFailed? ==> ps != [])
    && (forall k :: 0 <= k < |ps| ==>
          (probe(ps[k].process, t).OtherError? <==> status.Raised? && status.error.PollFailed? && k == |ps| - 1))
  }

  /** A visit that polls a `:wait` monitor without failure, before the rest
      of a tick, keeps the polls servable. */
  lemma ServableCons(m: Monitor, step: seq<Event>, tail: seq<Event>, probe: Probe, t: real, status: Status)
    requires Polls(step) == [m] && m.eventSet == WaitSet && !probe(m.process, t).OtherError?
    requires PollsServable(Polls(tail), probe, t, status)
    ensures PollsServable(Polls(step + tail), probe, t, status)
  {
    PollsConcat(step, tail);
    var ps := Polls(tail);
    var ps' := [m] + ps;
    assert Polls(step + tail) == ps';
    forall k | 0 <= k < |ps'|
      ensures probe(ps'[k].process, t).OtherError? <==> status.Raised? && status.error.PollFailed? && k == |ps'| - 1
    {
      if k > 0 {
        assert ps'[k] == ps[k - 1];
      }
    }
  }

  lemma PrependTwice(a: seq<Event>, b: seq<Event>, tail: TickResult)
    ensures Prepend(a, Prepend(b, tail)) == Prepend(a + b, tail)
  {
    assert a + (b + tail.trace) == (a + b) + tail.trace;
  }

  /** The live table after visiting `:wait` monitor `m`: `delete(m)` when
      its process has exited, untouched otherwise. */
  function AfterVisit(monitors: seq<Monitor>, m: Monitor, probe: Probe, t: real): seq<Monitor>
  {
    if probe(m.process, t) == Returned then Delete(monitors, m) else monitors
  }

  /** The events a tick that deletes before it resumes records for one
      `:wait` monitor whose poll does not fail. */
  function Visit(m: Monitor, probe: Probe, t: real): seq<Event>
  {
    [Polled(m, t, probe(m.process, t))] + (if probe(m.process, t) == Returned then [Deleted(m), Resumed(m)] else [])
  }

  lemma VisitFacts(m: Monitor, probe: Probe, t: real)
    requires m.eventSet == WaitSet
    ensures Polls(Visit(m, probe, t)) == [m]
    ensures Resumes(Visit(m, probe, t)) == Completed([m], probe, t)
    ensures Resumes(Visit(m, probe, t)) == if probe(m.process, t) == Returned then [m] else []
    ensures PollsUse(Visit(m, probe, t), probe, t)
    ensures DeletesThenResumes(Visit(m, probe, t), t)
  {
    var polled := Polled(m, t, probe(m.process, t));
    if probe(m.process, t) == Returned {
      var rd := [Resumed(m)];
      assert rd[1..] == [];
      assert [Deleted(m)] + rd == [Deleted(m), Resumed(m)];
      PollsConcat([Deleted(m)], rd);
      ResumesConcat([Deleted(m)], rd);
      PollsConcat([polled], [Deleted(m), Resumed(m)]);
      ResumesConcat([polled], [Deleted(m), Resumed(m)]);
    }
    assert [m][1..] == [];
  }

  /** Every poll in `trace` was given timeout `t`, and its outcome is what
      `probe` answers for that process and timeout. */
  predicate PollsUse(trace: seq<Event>, probe: Probe, t: real)
  {
    forall k :: 0 <= k < |trace| && trace[k].Polled? ==>
      trace[k].timeout == t && trace[k].outcome == probe(trace[k].monitor.process, t)
  }

  lemma PollsUseConcat(a: seq<Event>, b: seq<Event>, probe: Probe, t: real)
    requires PollsUse(a, probe, t) && PollsUse(b, probe, t)
    ensures PollsUse(a + b, probe, t)
  {
    forall k | 0 <= k < |a + b| && (a + b)[k].Polled?
      ensures (a + b)[k].timeout == t && (a + b)[k].outcome == probe((a + b)[k].monitor.process, t)
    {
      if k >= |a| {
        assert (a + b)[k] == b[k - |a|];
      }
    }
  }

  /** Every resume in `trace` comes straight after a poll of the same
      monitor, with timeout `t`, that returned. */
  predicate ResumesFollowPolls(trace: seq<Event>, t: real)
  {
    forall k :: 0 <= k < |trace| && trace[k].Resumed? ==>
      0 < k && trace[k - 1] == Polled(trace[k].monitor, t, Returned)
  }

  lemma ResumesFollowPollsConcat(a: seq<Event>, b: seq<Event>, t: real)
    requires ResumesFollowPolls(a, t) && ResumesFollowPolls(b, t)
    ensures ResumesFollowPolls(a + b, t)
  {
    forall k | 0 <= k < |a + b| && (a + b)[k].Resumed?
      ensures 0 < k && (a + b)[k - 1] == Polled((a + b)[k].monitor, t, Returned)
    {
      if k >= |a| {
        assert (a + b)[k] == b[k - |a|];
        if k > |a| {
          assert (a + b)[k - 1] == b[k - 1 - |a|];
        }
      } else {
        assert (a + b)[k] == a[k];
        assert (a + b)[k - 1] == a[k - 1];
      }
    }
  }

  /** Every resume in `trace` comes straight after the deletion of the same
      monitor, and every deletion straight after a poll of that monitor,
      with timeout `t`, that returned. */
  predicate DeletesThenResumes(trace: seq<Event>, t: real)
  {
    && (forall k :: 0 <= k < |trace| && trace[k].Resumed? ==>
          0 < k && trace[k - 1] == Deleted(trace[k].monitor))
    && (forall k :: 0 <= k < |trace| && trace[k].Deleted? ==>
          0 < k && trace[k - 1] == Polled(trace[k].monitor, t, Returned))
  }

  lemma DeletesThenResumesConcat(a: seq<Event>, b: seq<Event>, t: real)
    requires DeletesThenResumes(a, t) && DeletesThenResumes(b, t)
    ensures DeletesThenResumes(a + b, t)
  {
    forall k | 0 <= k < |a + b| && ((a + b)[k].Resumed? || (a + b)[k].Deleted?)
      ensures 0 < k
      ensures (a + b)[k].Resumed? ==> (a + b)[k - 1] == Deleted((a + b)[k].monitor)
      ensures (a + b)[k].Deleted? ==> (a + b)[k - 1] == Polled((a + b)[k].monitor, t, Returned)
    {
      if k >= |a| {
        assert (a + b)[k] == b[k - |a|];
        if k > |a| {
          assert (a + b)[k - 1] == b[k - 1 - |a|];
        }
      } else {
        assert (a + b)[k] == a[k];
        assert (a + b)[k - 1] == a[k - 1];
      }
    }
  }

  /** The monitors polled, in order. */
  function Polls(trace: seq<Event>): seq<Monitor>
  {
    if trace == [] then []
    else (if trace[0].Polled? then [trace[0].monitor] else []) + Polls(trace[1..])
  }

  /** The monitors whose tasks were resumed, in order. */
  function Resumes(trace: seq<Event>): seq<Monitor>
  {
    if trace == [] then []
    else (if trace[0].Resumed? then [trace[0].monitor] else []) + Resumes(trace[1..])
  }

  /** The ordered list of resumed tasks. */
  function Tasks(s: seq<Monitor>): (r: seq<TaskId>)
    ensures |r| == |s|
    ensures forall i :: 0 <= i < |s| ==> r[i] == s[i].task
  {
    if s == [] then [] else [s[0].task] + Tasks(s[1..])
  }

  lemma {:induction false} PollsConcat(a: seq<Event>, b: seq<Event>)
    ensures Polls(a + b) == Polls(a) + Polls(b)
  {
    if a == [] {
      assert a + b == b;
    } else {
      var head := if a[0].Polled? then [a[0].monitor] else [];
      assert (a + b)[0] == a[0];
      assert (a + b)[1..] == a[1..] + b;
      PollsConcat(a[1..], b);
      calc {
        Polls(a + b);
        head + Polls(a[1..] + b);
        head + (Polls(a[1..]) + Polls(b));
        (head + Polls(a[1..])) + Polls(b);
      }
    }
  }

  lemma {:induction false} ResumesConcat(a: seq<Event>, b: seq<Event>)
    ensures Resumes(a + b) == Resumes(a) + Resumes(b)
  {
    if a == [] {
      assert a + b == b;
    } else {
      var head := if a[0].Resumed? then [a[0].monitor] else [];
      assert (a + b)[0] == a[0];
      assert (a + b)[1..] == a[1..] + b;
      ResumesConcat(a[1..], b);
      calc {
        Resumes(a + b);
        head + Resumes(a[1..] + b);
        head + (Resumes(a[1..]) + Resumes(b));
        (head + Resumes(a[1..])) + Resumes(b);
      }
    }
  }

  /** The completable monitors of `s`, in table order. */
  function Completed(s: seq<Monitor>, probe: Probe, t: real): (r: seq<Monitor>)
    ensures forall x :: x in r <==> x in s && Completable(x, probe, t)
  {
    if s == [] then []
    else (if Completable(s[0], probe, t) then [s[0]] else []) + Completed(s[1..], probe, t)
  }

  /** The monitors of `s` that are not completable, in table order. */
  function Pending(s: seq<Monitor>, probe: Probe, t: real): (r: seq<Monitor>)
    ensures forall x :: x in r <==> x in s && !Completable(x, probe, t)
  {
    if s == [] then []
    else (if Completable(s[0], probe, t) then [] else [s[0]]) + Pending(s[1..], probe, t)
  }

  /** Picking out the completable monitors never repeats a monitor nor
      gives a task a second one. */
  lemma {:induction false} CompletedKeepsDistinct(s: seq<Monitor>, probe: Probe, t: real)
    ensures Distinct(s) ==> Distinct(Completed(s, probe, t))
    ensures DistinctTasks(s) ==> DistinctTasks(Completed(s, probe, t))
  {
    if s != [] {
      var rest := Completed(s[1..], probe, t);
      CompletedKeepsDistinct(s[1..], probe, t);
      assert Completed(s, probe, t) == (if Completable(s[0], probe, t) then [s[0]] else []) + rest;
      if Distinct(s) {
        DistinctTail(s);
        if Completable(s[0], probe, t) {
          DistinctCons(s[0], rest);
        }
      }
      if DistinctTasks(s) {
        DistinctTasksTail(s);
        if Completable(s[0], probe, t) {
          DistinctTasksCons(s[0], rest);
        }
      }
    }
  }

  /** How many times `m` occurs in `s`. */
  function Count(s: seq<Monitor>, m: Monitor): (r: nat)
    ensures r == 0 <==> m !in s
  {
    if s == [] then 0 else (if s[0] == m then 1 else 0) + Count(s[1..], m)
  }

  /** In a duplicate-free sequence, a member occurs exactly once. */
  lemma {:induction false} CountDistinct(s: seq<Monitor>, m: Monitor)
    requires Distinct(s) && m in s
    ensures Count(s, m) == 1
  {
    DistinctTail(s);
    if s[0] != m {
      CountDistinct(s[1..], m);
    }
  }

  lemma {:induction false} CompletedConcat(a: seq<Monitor>, b: seq<Monitor>, probe: Probe, t: real)
    ensures Completed(a + b, probe, t) == Completed(a, probe, t) + Completed(b, probe, t)
  {
    if a == [] {
      assert a + b == b;
    } else {
      var head := if Completable(a[0], probe, t) then [a[0]] else [];
      assert (a + b)[0] == a[0];
      assert (a + b)[1..] == a[1..] + b;
      CompletedConcat(a[1..], b, probe, t);
      calc {
        Completed(a + b, probe, t);
        head + Completed(a[1..] + b, probe, t);
        head + (Completed(a[1..], probe, t) + Completed(b, probe, t));
        (head + Completed(a[1..], probe, t)) + Completed(b, probe, t);
      }
    }
  }

  /** A step in a table's life: some task calls `register`, or the mailbox
      runs one tick with the probe answers and timeout of that moment. */
  datatype Op =
    | RegisterOp(task: TaskId, process: ProcessId, eventSet: EventSet)
    | TickOp(probe: Probe, timeout: Option<real>)

  /** The table a tick leaves behind, for one of the reactors. */
  type TableTick = (seq<Monitor>, Probe, Option<real>) -> seq<Monitor>

  function Apply(tick: TableTick, table: seq<Monitor>, op: Op): seq<Monitor>
  {
    match op
    case RegisterOp(task, process, eventSet) => Register(table, task, process, eventSet)
    case TickOp(probe, timeout) => tick(table, probe, timeout)
  }

  /** The table after `ops`, in order, starting from `table`. */
  function Replay(tick: TableTick, table: seq<Monitor>, ops: seq<Op>): seq<Monitor>
    decreases |ops|
  {
    if ops == [] then table else Replay(tick, Apply(tick, table, ops[0]), ops[1..])
  }

  /** Every registering task is running, so it has no monitor in the table
      at the moment it registers. */
  predicate Admissible(tick: TableTick, table: seq<Monitor>, ops: seq<Op>)
    decreases |ops|
  {
    ops == [] ||
    (&& (ops[0].RegisterOp? ==> forall x :: x in table ==> x.task != ops[0].task)
     && Admissible(tick, Apply(tick, table, ops[0]), ops[1..]))
  }

  /** A tick never gives a task a second monitor. */
  ghost predicate KeepsTasksDistinct(tick: TableTick)
  {
    forall table, probe, timeout :: DistinctTasks(table) ==> DistinctTasks(tick(table, probe, timeout))
  }

  /** A tick keeps every monitor it cannot complete. */
  ghost predicate KeepsPending(tick: TableTick)
  {
    forall table, probe, timeout, m ::
      m in table && !Completable(m, probe, PollTimeout(timeout)) ==> m in tick(table, probe, timeout)
  }

  /** None of the ticks in `ops` can complete `m`. */
  predicate NeverCompletes(ops: seq<Op>, m: Monitor)
  {
    forall i :: 0 <= i < |ops| && ops[i].TickOp? ==> !Completable(m, ops[i].probe, PollTimeout(ops[i].timeout))
  }

  /** Registrations by running tasks and ticks that keep one monitor per
      task keep one monitor per task. */
  lemma {:induction false} ReplayKeepsTasksDistinct(tick: TableTick, table: seq<Monitor>, ops: seq<Op>)
    requires KeepsTasksDistinct(tick) && DistinctTasks(table) && Admissible(tick, table, ops)
    ensures DistinctTasks(Replay(tick, table, ops))
    decreases |ops|
  {
    if ops != [] {
      var next := Apply(tick, table, ops[0]);
      assert DistinctTasks(next);
      ReplayKeepsTasksDistinct(tick, next, ops[1..]);
    }
  }

  /** A monitor that no tick can complete stays in the table through
      registrations and ticks that keep pending monitors. */
  lemma {:induction false} ReplayKeepsPending(tick: TableTick, table: seq<Monitor>, ops: seq<Op>, m: Monitor)
    requires KeepsPending(tick) && m in table && NeverCompletes(ops, m)
    ensures m in Replay(tick, table, ops)
    decreases |ops|
  {
    if ops != [] {
      var next := Apply(tick, table, ops[0]);
      if ops[0].RegisterOp? {
        assert next[..|table|] == table;
      }
      assert m in next;
      assert NeverCompletes(ops[1..], m) by {
        forall i | 0 <= i < |ops| - 1 && ops[1..][i].TickOp?
          ensures !Completable(m, ops[1..][i].probe, PollTimeout(ops[1..][i].timeout))
        {
          assert ops[1..][i] == ops[i + 1];
        }
      }
      ReplayKeepsPending(tick, next, ops[1..], m);
    }
  }

  /** A tick whose table is the original less the resumed monitors, all of
      them completable, keeps one monitor per task, keeps a table without
      repeats, and keeps every monitor it cannot complete. */
  lemma RemovingResumedKeeps(table: seq<Monitor>, r: TickResult, probe: Probe, t: real)
    requires r.table == Without(table, Resumes(r.trace))
    requires forall x :: x in Resumes(r.trace) ==> Completable(x, probe, t)
    ensures DistinctTasks(table) ==> DistinctTasks(r.table)
    ensures Distinct(table) ==> Distinct(r.table)
    ensures forall m :: m in table && !Completable(m, probe, t) ==> m in r.table
  {
    WithoutKeepsDistinct(table, Resumes(r.trace));
    forall m | m in table && !Completable(m, probe, t)
      ensures m in r.table
    {
      InWithout(table, Resumes(r.trace), m);
    }
  }
}
