/** Getting a job's result to the server, and the run's own exit status. */
module Reporting {
  import opened Leases
  import opened Options
  import opened Sorting

  // ---- updateJobWithRetryWindow ----

  datatype UpdateReply = Ok | NotRecorded | Failed

  /** Everything outside the loop: what the n-th update answers and how long the
      calls take, how late the n-th sleep ends, and whether the context ends in it. */
  datatype Server = Server(
    reply: nat -> UpdateReply, took: nat -> nat, renewTook: nat -> nat, late: nat -> nat, contextEnds: nat -> bool)

  /** One update: when it was sent and answered, and, if the loop went on, the
      sleep that followed and when the lease was renewed after it. */
  datatype Attempt = Attempt(at: int, till: int, reply: UpdateReply, slept: int, renewed: Option<int>)

  datatype UpdateEnd = Recorded | Refused | WindowPassed | ContextOver

  /** The k-th wait: doubled while below thirty seconds. */
  function DelayAt(first: int, k: nat): int
  {
    if k == 0 then first
    else
      var d := DelayAt(first, k - 1);
      if d < 30 * SECOND then 2 * d else d
  }

  /** An attempt the loop goes on from: it failed in passing, within the window,
      and the lease was renewed after the k-th wait. */
  ghost predicate WentOn(a: Attempt, k: nat, deadline: int, first: int)
  {
    && a.reply.Failed? && a.at <= a.till <= deadline && a.slept == DelayAt(first, k)
    && a.renewed.Some? && a.till < a.renewed.value && a.till + a.slept <= a.renewed.value
  }

  /** Attempts one after the other: all but the last went on, and no update is
      sent before the renewal that follows the one before it. */
  ghost predicate RetryLog(log: seq<Attempt>, start: int, window: int, first: int)
  {
    && |log| > 0 && log[0].at == start
    && (forall i :: 0 <= i < |log| - 1 ==> WentOn(log[i], i, start + window, first))
    && (forall i, j :: 0 <= i && j == i + 1 < |log| ==> log[i].renewed.Some? && log[i].renewed.value <= log[j].at)
    && log[|log| - 1].at <= log[|log| - 1].till && log[|log| - 1].renewed.None?
  }

  /** What the loop holds when it is about to send the next update at `now`. */
  ghost predicate Retrying(log: seq<Attempt>, start: int, window: int, first: int, now: int)
  {
    && (forall i :: 0 <= i < |log| ==> WentOn(log[i], i, start + window, first))
    && (forall i, j :: 0 <= i && j == i + 1 < |log| ==> log[i].renewed.Some? && log[i].renewed.value <= log[j].at)
    && (if log == [] then now == start else log[0].at == start && log[|log| - 1].renewed.value <= now)
  }

  /** Each reply and time is the server's; each wait lasts its length and at
      least a tick, and the context did not end in it. */
  ghost predicate Happened(s: Server, log: seq<Attempt>)
  {
    && (forall i :: 0 <= i < |log| ==> log[i].reply == s.reply(i) && log[i].till == log[i].at + s.took(i))
    && (forall i :: 0 <= i < |log| && log[i].renewed.Some? ==> !s.contextEnds(i) && log[i].renewed == Some(WokenAt(s, log[i], i)))
    && (forall i, j :: 0 <= i && j == i + 1 < |log| ==> log[j].at == WokenAt(s, log[i], i) + s.renewTook(i))
  }

  function WokenAt(s: Server, a: Attempt, i: nat): int
  {
    a.till + (if a.slept > 1 then a.slept else 1) + s.late(i)
  }

  /** When the next update is sent. */
  function NextAt(s: Server, log: seq<Attempt>, start: int): int
  {
    if log == [] then start
    else
      var i := |log| - 1;
      WokenAt(s, log[i], i) + s.renewTook(i)
  }

  lemma HappenedNext(s: Server, log: seq<Attempt>, start: int, a: Attempt)
    requires Happened(s, log) && a.at == NextAt(s, log, start)
    requires a.reply == s.reply(|log|) && a.till == a.at + s.took(|log|)
    requires a.renewed.Some? ==> !s.contextEnds(|log|) && a.renewed == Some(WokenAt(s, a, |log|))
    ensures Happened(s, log + [a])
  {
    var all := log + [a];
    forall i, j | 0 <= i && j == i + 1 < |all|
      ensures all[j].at == WokenAt(s, all[i], i) + s.renewTook(i)
    {
      assert all[i] == log[i];
      if j < |log| {
        assert all[j] == log[j];
      }
    }
  }

  lemma RetryingNext(log: seq<Attempt>, start: int, window: int, first: int, now: int, a: Attempt, next: int)
    requires Retrying(log, start, window, first, now) && a.at == now
    requires WentOn(a, |log|, start + window, first) && a.renewed.value <= next
    ensures Retrying(log + [a], start, window, first, next)
  {
  }

  lemma RetryingLast(log: seq<Attempt>, start: int, window: int, first: int, now: int, a: Attempt)
    requires Retrying(log, start, window, first, now) && a.at == now && a.at <= a.till && a.renewed.None?
    ensures RetryLog(log + [a], start, window, first)
  {
  }

  /** The loop stands before the next update: all of the above, at `now`. */
  ghost predicate Standing(s: Server, log: seq<Attempt>, start: int, window: int, first: int, now: int)
  {
    Retrying(log, start, window, first, now) && Happened(s, log) && now == NextAt(s, log, start)
  }

  lemma StandingNext(s: Server, log: seq<Attempt>, start: int, window: int, first: int, now: int, a: Attempt, next: int)
    requires Standing(s, log, start, window, first, now) && a.at == now
    requires a.reply == s.reply(|log|) && a.reply.Failed? && a.till == now + s.took(|log|) && a.till <= start + window
    requires a.slept == DelayAt(first, |log|) && !s.contextEnds(|log|) && a.renewed == Some(WokenAt(s, a, |log|))
    requires next == WokenAt(s, a, |log|) + s.renewTook(|log|)
    ensures Standing(s, log + [a], start, window, first, next)
  {
    RetryingNext(log, start, window, first, now, a, next);
    HappenedNext(s, log, start, a);
  }

  lemma StandingLast(s: Server, log: seq<Attempt>, start: int, window: int, first: int, now: int, a: Attempt)
    requires Standing(s, log, start, window, first, now) && a.at == now
    requires a.reply == s.reply(|log|) && a.till == now + s.took(|log|) && a.renewed.None?
    ensures RetryLog(log + [a], start, window, first) && Happened(s, log + [a])
  {
    RetryingLast(log, start, window, first, now, a);
    HappenedNext(s, log, start, a);
  }

  /** How the n-th attempt ended the loop. */
  ghost predicate EndedBy(s: Server, n: nat, a: Attempt, deadline: int, end: UpdateEnd)
  {
    && a.renewed.None?
    && match a.reply
       case Ok => end.Recorded?
       case NotRecorded => end.Refused?
       case Failed => if a.till > deadline then end.WindowPassed? else end.ContextOver? && s.contextEnds(n)
  }

  /** The n-th attempt, and if the loop goes on the sleep and the renewal after
      it. A sleep lasts at least its argument, and at least one tick. */
  method TryOnce(s: Server, n: nat, at: int, delay: int, deadline: int) returns (end: Option<UpdateEnd>, a: Attempt, now: int)
    ensures a.at == at && a.reply == s.reply(n) && a.till == at + s.took(n)
    ensures end.Some? ==> EndedBy(s, n, a, deadline, end.value)
    ensures end.None? ==> a.reply.Failed? && a.till <= deadline && a.slept == delay && !s.contextEnds(n)
    ensures end.None? ==> a.renewed == Some(WokenAt(s, a, n)) && now == WokenAt(s, a, n) + s.renewTook(n)
  {
    var reply := s.reply(n);
    now := at + s.took(n);
    a := Attempt(at, now, reply, 0, None);
    if reply.Ok? {
      return Some(Recorded), a, now;
    }
    if reply.NotRecorded? {
      return Some(Refused), a, now;
    }
    if now > deadline {
      return Some(WindowPassed), a, now;
    }
    if s.contextEnds(n) {
      return Some(ContextOver), a, now;
    }
    var woke := now + (if delay > 1 then delay else 1) + s.late(n);
    return None, Attempt(at, now, reply, delay, Some(woke)), woke + s.renewTook(n);
  }

  method UpdateJobWithRetryWindow(s: Server, start: int, window: int, first: int) returns (end: UpdateEnd, log: seq<Attempt>)
    ensures RetryLog(log, start, window, first) && Happened(s, log)
    ensures EndedBy(s, |log| - 1, log[|log| - 1], start + window, end)
  {
    var deadline := start + window;
    var delay, now := first, start;
    log := [];
    while true
      invariant delay == DelayAt(first, |log|)
      invariant Standing(s, log, start, window, first, now)
      decreases deadline + 1 - now
    {
      var ended, a, next := TryOnce(s, |log|, now, delay, deadline);
      if ended.Some? {
        StandingLast(s, log, start, window, first, now, a);
        return ended.value, log + [a];
      }
      StandingNext(s, log, start, window, first, now, a, next);
      log, now := log + [a], next;
      if delay < 30 * SECOND {
        delay := delay * 2;
      }
    }
  }

  /** The loop succeeds exactly when the server accepted one of its updates,
      which is then the last one sent. */
  lemma SucceedsIffAccepted(s: Server, log: seq<Attempt>, start: int, window: int, first: int, end: UpdateEnd)
    requires RetryLog(log, start, window, first) && Happened(s, log)
    requires EndedBy(s, |log| - 1, log[|log| - 1], start + window, end)
    ensures end.Recorded? <==> exists i: nat :: i < |log| && s.reply(i).Ok?
    ensures end.Refused? <==> exists i: nat :: i < |log| && s.reply(i).NotRecorded?
    ensures forall i: nat :: i < |log| - 1 ==> s.reply(i).Failed?
  {
    forall i: nat | i < |log| - 1
      ensures s.reply(i).Failed?
    {
      assert WentOn(log[i], i, start + window, first) && log[i].reply == s.reply(i);
    }
    assert log[|log| - 1].reply == s.reply(|log| - 1);
  }

  /** The waits that precede the k-th update, added up. */
  function Waited(first: int, k: nat): int
  {
    if k == 0 then 0 else Waited(first, k - 1) + DelayAt(first, k - 1)
  }

  lemma {:induction false} StartsNoSooner(log: seq<Attempt>, start: int, window: int, first: int, k: nat)
    requires RetryLog(log, start, window, first) && k < |log|
    ensures log[k].at >= start + Waited(first, k)
  {
    if k > 0 {
      StartsNoSooner(log, start, window, first, k - 1);
      assert WentOn(log[k - 1], k - 1, start + window, first);
    }
  }

  lemma {:induction false} DefaultDelays(k: nat)
    ensures k == 0 ==> DelayAt(2 * SECOND, k) == 2 * SECOND
    ensures k == 1 ==> DelayAt(2 * SECOND, k) == 4 * SECOND
    ensures k == 2 ==> DelayAt(2 * SECOND, k) == 8 * SECOND
    ensures k == 3 ==> DelayAt(2 * SECOND, k) == 16 * SECOND
    ensures k >= 4 ==> DelayAt(2 * SECOND, k) == 32 * SECOND
  {
    if k > 0 {
      DefaultDelays(k - 1);
    }
  }

  lemma {:induction false} DefaultWaited(k: nat)
    requires k >= 4
    ensures Waited(2 * SECOND, k) == 30 * SECOND + (k - 4) * 32 * SECOND
  {
    DefaultDelays(k - 1);
    if k > 4 {
      DefaultWaited(k - 1);
    } else {
      DefaultDelays(0);
      DefaultDelays(1);
      DefaultDelays(2);
      assert Waited(2 * SECOND, 1) == 2 * SECOND;
      assert Waited(2 * SECOND, 2) == 6 * SECOND;
      assert Waited(2 * SECOND, 3) == 14 * SECOND;
    }
  }

  /** With the window and first wait the run uses, no wait is above 32 seconds
      and at most ten updates are sent, whatever the calls take. */
  lemma DefaultWindowBounds(log: seq<Attempt>, start: int)
    requires RetryLog(log, start, 3 * MINUTE, 2 * SECOND)
    ensures |log| <= 10
    ensures forall i :: 0 <= i < |log| - 1 ==> 2 * SECOND <= log[i].slept <= 32 * SECOND
  {
    forall i | 0 <= i < |log| - 1 ensures 2 * SECOND <= log[i].slept <= 32 * SECOND {
      DefaultDelays(i);
      assert WentOn(log[i], i, start + 3 * MINUTE, 2 * SECOND);
    }
    if |log| > 9 {
      StartsNoSooner(log, start, 3 * MINUTE, 2 * SECOND, 9);
      DefaultWaited(9);
      // the tenth update is sent after the deadline, so none follows it
      assert !WentOn(log[9], 9, start + 3 * MINUTE, 2 * SECOND);
    }
  }

  // ---- the end of runPlan ----

  datatype RunError =
    | NoError
    | RunnerFailed(text: string)
    | Interrupted(signal: string, runner: Option<string>)
    | ResultsNotRecorded(jobs: seq<string>)
    | LogsUndelivered(chunks: nat)

  /** A problem is the exit itself or printed as a warning. */
  predicate Told(problem: RunError, err: RunError, warnings: seq<RunError>)
  {
    err == problem || problem in warnings
  }

  /** How a run ends, from what the runner returned, a signal, the jobs whose
      result was given up, and the log chunks left when the pipeline, if there
      is one, was closed. A problem that does not become the exit is a warning. */
  ghost predicate EndsAs(
    runner: Option<string>, signal: Option<string>, unrecorded: seq<string>, undrained: Option<nat>,
    err: RunError, warnings: seq<RunError>)
  {
    && (err.NoError? <==> runner.None? && signal.None? && unrecorded == [] && (undrained.None? || undrained.value == 0))
    && (signal.Some? ==> err == Interrupted(signal.value, runner))
    && (signal.None? && runner.Some? ==> err == RunnerFailed(runner.value))
    && (unrecorded != [] ==> Told(ResultsNotRecorded(SortBy(unrecorded, StrLess)), err, warnings))
    && (undrained.Some? && undrained.value > 0 ==> Told(LogsUndelivered(undrained.value), err, warnings))
    && (err.LogsUndelivered? ==> unrecorded == [])
  }

  method FinishRun(runner: Option<string>, signal: Option<string>, unrecorded: seq<string>, undrained: Option<nat>)
    returns (err: RunError, warnings: seq<RunError>)
    ensures EndsAs(runner, signal, unrecorded, undrained, err, warnings)
  {
    err, warnings := NoError, [];
    if runner.Some? {
      err := RunnerFailed(runner.value);
    }
    if signal.Some? {
      err := Interrupted(signal.value, runner);
    }
    if |unrecorded| > 0 {
      var ids := SortBy(unrecorded, StrLess);
      if err.NoError? {
        err := ResultsNotRecorded(ids);
      } else {
        warnings := warnings + [ResultsNotRecorded(ids)];
      }
    }
    if undrained.Some? && undrained.value > 0 {
      if err.NoError? {
        err := LogsUndelivered(undrained.value);
      } else {
        warnings := warnings + [LogsUndelivered(undrained.value)];
      }
    }
  }
}
