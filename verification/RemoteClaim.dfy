/** Single-job runs: claim the job, and wait while it cannot be claimed. The
    coordinator, the clock and the context are a World of answers, one per call. */
module RemoteClaim {
  import opened Walks
  import opened Leases
  import opened Options
  import opened Plans
  import opened Coordinator
  import opened FailFast

  const DEP_WAIT := 30 * MINUTE
  const INIT_DELAY := 2 * SECOND
  const MAX_DELAY := 60 * SECOND
  const INIT_READY := 2 * MINUTE
  const POLL_MAX := 15 * SECOND
  const DEFAULT_HEARTBEAT := 20 * SECOND

  /** The status of a job that was not claimed, read without regard to case. */
  datatype Standing = Succeeded | FailedThere | Unrecorded | HeldElsewhere | Unclear

  datatype ClaimReply =
    | NotFound
    | Broken
    | Answer(claimed: bool, leaseSeconds: int, heartbeatSeconds: int,
             depsBlocked: bool, depsWaiting: bool, standing: Standing)

  /** A job in the loaded run state; `beat` is its last heartbeat, if it parses. */
  datatype DepState = DepState(phase: Phase, beat: Option<int>)

  type RunState = map<string, DepState>

  /** What the n-th call answers and takes. A wait ends at least one tick after
      it began, `late` by at most that much; `woken` is when the server's hold
      ended it, if the server can hold one. */
  datatype World = World(
    claim: nat -> ClaimReply, runnable: nat -> Option<seq<string>>, state: nat -> Option<RunState>,
    took: nat -> nat, late: nat -> nat, woken: nat -> Option<nat>, contextEnds: nat -> bool)

  datatype Clock = Clock(calls: nat, now: int)

  function AfterCall(w: World, c: Clock): Clock
  {
    Clock(c.calls + 1, c.now + w.took(c.calls))
  }

  function AtLeastOne(d: int): int
  {
    if d > 1 then d else 1
  }

  function AfterSleep(w: World, c: Clock, d: int): Clock
  {
    Clock(c.calls + 1, c.now + AtLeastOne(d) + w.late(c.calls))
  }

  /** A held wait ends with the first event, at the latest after d. */
  function AfterHold(w: World, c: Clock, d: int, event: nat): Clock
  {
    AfterSleep(w, c, if event < d then event else d)
  }

  ghost predicate CallsWithin(w: World, b: nat)
  {
    forall n :: w.took(n) <= b && w.late(n) <= b
  }

  // ---- backing off ----

  function NextBackoff(current: int, max: int): int
  {
    var next := current * 2;
    if next > max then max else next
  }

  /** What a wait that follows these is. */
  function NextWait(ds: seq<int>, first: int, max: int): int
  {
    if ds == [] then first else NextBackoff(ds[|ds| - 1], max)
  }

  ghost predicate Backoffs(ds: seq<int>, first: int, max: int)
  {
    forall i :: 0 <= i < |ds| ==> ds[i] == NextWait(ds[..i], first, max)
  }

  lemma BackoffsGrow(ds: seq<int>, d: int, first: int, max: int)
    requires Backoffs(ds, first, max) && d == NextWait(ds, first, max)
    ensures Backoffs(ds + [d], first, max)
    ensures NextWait(ds + [d], first, max) == NextBackoff(d, max)
  {
  }

  function Doubled(d: int, k: nat): int
  {
    if k == 0 then d else 2 * Doubled(d, k - 1)
  }

  function Min(a: int, b: int): int
  {
    if a < b then a else b
  }

  /** After k steps a wait has doubled k times, or reached its maximum. */
  lemma {:induction false} BackoffDoubles(ds: seq<int>, first: int, max: int, k: nat)
    requires Backoffs(ds, first, max) && k < |ds| && max > 0
    ensures ds[k] == if k == 0 then first else Min(Doubled(first, k), max)
  {
    if k > 0 {
      BackoffDoubles(ds, first, max, k - 1);
      assert ds[k] == NextWait(ds[..k], first, max);
    }
  }

  // ---- waitForJobRunnable ----

  datatype Verdict = Fine | DepFailed(dep: string) | DepBlocked(dep: string) | DepStale(dep: string)

  function PhasesOf(view: RunState): Jobs
  {
    map j | j in view :: view[j].phase
  }

  /** What the loaded state says against waiting for one dependency. */
  function Judge(view: RunState, plan: Plan, dep: string, now: int, stale: int, retry: bool): Verdict
    requires Acyclic(DepEdges(plan.jobs))
  {
    if dep !in view then Fine
    else
      var s := view[dep];
      if s.phase.Failed? then (if retry then Fine else DepFailed(dep))
      else if s.phase.Pending? && IsTransitivelyBlocked(PhasesOf(view), plan, dep) then
        (if retry then Fine else DepBlocked(dep))
      else if s.phase.Running? && s.beat.Some? && now - s.beat.value > stale then DepStale(dep)
      else Fine
  }

  /** The first dependency anything is held against decides. */
  ghost predicate FirstVerdict(v: Verdict, view: RunState, plan: Plan, deps: seq<string>, now: int, stale: int, retry: bool)
    requires Acyclic(DepEdges(plan.jobs))
  {
    exists i :: 0 <= i < |deps| && v == Judge(view, plan, deps[i], now, stale, retry) && !v.Fine? &&
      forall k :: 0 <= k < i ==> Judge(view, plan, deps[k], now, stale, retry).Fine?
  }

  method ScanDeps(view: RunState, plan: Plan, deps: seq<string>, now: int, stale: int, retry: bool) returns (v: Verdict)
    requires Acyclic(DepEdges(plan.jobs))
    ensures v.Fine? ==> forall d :: d in deps ==> Judge(view, plan, d, now, stale, retry).Fine?
    ensures !v.Fine? ==> FirstVerdict(v, view, plan, deps, now, stale, retry)
  {
    for i := 0 to |deps|
      invariant forall k :: 0 <= k < i ==> Judge(view, plan, deps[k], now, stale, retry).Fine?
    {
      var dep := deps[i];
      if dep !in view {
        continue;
      }
      var js := view[dep];
      if js.phase.Failed? {
        if retry {
          continue;
        }
        return DepFailed(dep);
      }
      if js.phase.Pending? {
        var blocked := IsTransitivelyBlocked(PhasesOf(view), plan, dep);
        if blocked {
          if retry {
            continue;
          }
          return DepBlocked(dep);
        }
      }
      if js.phase.Running? && js.beat.Some? && now - js.beat.value > stale {
        return DepStale(dep);
      }
    }
    return Fine;
  }

  /** Giving up on a failed or blocked dependency never gives up a job that
      could still have run. */
  lemma VerdictIsSound(v: Verdict, view: RunState, plan: Plan, job: string, now: int, stale: int, retry: bool)
    requires Acyclic(DepEdges(plan.jobs))
    requires FirstVerdict(v, view, plan, FindJob(plan.jobs, job).dependsOn, now, stale, retry)
    ensures !v.DepStale? ==> !retry && NeverRunnable(PhasesOf(view), plan, job)
  {
    if !v.DepStale? {
      assert Hopeless(PhasesOf(view), plan, v.dep);
      FailFastIsSound(PhasesOf(view), plan, job, v.dep);
    }
  }

  /** How exact waiting on is: off a retry run, with the whole state read, the
      job can still run exactly when it has not ended itself, no dependency's
      verdict gives up, and no dependency leads to a cancelled job. The first
      and the last are what the scan does not look at. */
  lemma WaitingIsExact(view: RunState, plan: Plan, job: string, now: int, stale: int)
    requires Acyclic(DepEdges(plan.jobs)) && Sound(plan, PhasesOf(view)) && Whole(plan, PhasesOf(view)) && job in view
    ensures CanStillRun(plan, PhasesOf(view), job) <==>
      && !Coordinator.Terminal(view[job].phase)
      && (forall d :: d in FindJob(plan.jobs, job).dependsOn ==>
            Judge(view, plan, d, now, stale, false).Fine? || Judge(view, plan, d, now, stale, false).DepStale?)
      && (forall d :: d in FindJob(plan.jobs, job).dependsOn ==> !LeadsToCanceled(PhasesOf(view), plan, d))
  {
    GivingUpIsExact(plan, PhasesOf(view), job);
    forall d | d in FindJob(plan.jobs, job).dependsOn
      ensures Hopeless(PhasesOf(view), plan, d)
         <==> Judge(view, plan, d, now, stale, false).DepFailed? || Judge(view, plan, d, now, stale, false).DepBlocked?
    {
    }
  }

  datatype WaitEnd = Appeared | WaitTimedOut | WaitCanceled | PollFailed | GaveUp(v: Verdict)

  method PollOnce(w: World, c0: Clock, plan: Plan, jobID: string, deps: seq<string>, stale: int, retry: bool)
    returns (end: Option<WaitEnd>, c: Clock)
    requires Acyclic(DepEdges(plan.jobs))
    ensures if end.None? then c == AfterPoll(w, c0, deps) && Unremarkable(w, c0, c, plan, jobID, deps, stale, retry)
      else PollEnds(end.value, w, c0, c, plan, jobID, deps, stale, retry)
  {
    var jobs := w.runnable(c0.calls);
    c := AfterCall(w, c0);
    if jobs.None? {
      return Some(PollFailed), c;
    }
    if jobID in jobs.value {
      return Some(Appeared), c;
    }
    end := None;
    if |deps| > 0 {
      var state := w.state(c.calls);
      c := AfterCall(w, c);
      if state.Some? {
        var v := ScanDeps(state.value, plan, deps, c.now, stale, retry);
        if !v.Fine? {
          end := Some(GaveUp(v));
        }
      }
    }
  }

  /** After a poll that consulted the state, which it does only for dependencies. */
  function AfterPoll(w: World, c: Clock, deps: seq<string>): Clock
  {
    if deps == [] then AfterCall(w, c) else AfterCall(w, AfterCall(w, c))
  }

  ghost predicate NotListed(w: World, c: Clock, jobID: string)
  {
    w.runnable(c.calls).Some? && jobID !in w.runnable(c.calls).value
  }

  /** A poll to go on from: it answered, did not list the job, and the state, if
      it could be loaded, holds nothing against a dependency. */
  ghost predicate Unremarkable(w: World, c0: Clock, c: Clock, plan: Plan, jobID: string, deps: seq<string>, stale: int, retry: bool)
    requires Acyclic(DepEdges(plan.jobs))
  {
    && NotListed(w, c0, jobID)
    && (w.state(c0.calls + 1).Some? ==>
          forall d :: d in deps ==> Judge(w.state(c0.calls + 1).value, plan, d, c.now, stale, retry).Fine?)
  }

  /** A poll begun at c0 that ends the wait at c. */
  ghost predicate PollEnds(
      end: WaitEnd, w: World, c0: Clock, c: Clock, plan: Plan, jobID: string, deps: seq<string>, stale: int, retry: bool)
    requires Acyclic(DepEdges(plan.jobs))
  {
    match end
    case Appeared => c == AfterCall(w, c0) && w.runnable(c0.calls).Some? && jobID in w.runnable(c0.calls).value
    case PollFailed => c == AfterCall(w, c0) && w.runnable(c0.calls).None?
    case GaveUp(v) =>
      && c == AfterPoll(w, c0, deps) && NotListed(w, c0, jobID) && w.state(c0.calls + 1).Some?
      && FirstVerdict(v, w.state(c0.calls + 1).value, plan, deps, c.now, stale, retry)
    case _ => false
  }

  /** The wait is a sleep, and the context ends in it. */
  predicate Canceled(w: World, c: Clock)
  {
    w.woken(c.calls).None? && w.contextEnds(c.calls)
  }

  /** Until the server's next event where it can hold the wait, else a sleep. */
  function AfterWait(w: World, c: Clock, poll: int): Clock
  {
    if w.woken(c.calls).Some? then AfterHold(w, c, poll, w.woken(c.calls).value) else AfterSleep(w, c, poll)
  }

  /** An event ends a held wait when it comes; without one, and without a hold,
      the wait takes its whole length. */
  method WaitForEvent(w: World, c0: Clock, poll: int) returns (done: bool, c: Clock)
    ensures done == Canceled(w, c0)
    ensures c == if done then c0 else AfterWait(w, c0, poll)
    ensures !done ==> c.calls == c0.calls + 1 && c0.now < c.now <= c0.now + AtLeastOne(poll) + w.late(c0.calls)
    ensures !done && poll > 0 ==>
      var held := w.woken(c0.calls);
      c.now - c0.now - w.late(c0.calls) == if held.Some? && held.value < poll then AtLeastOne(held.value) else poll
  {
    var event := w.woken(c0.calls);
    if event.Some? {
      return false, AfterHold(w, c0, poll, event.value);
    }
    done := w.contextEnds(c0.calls);
    c := if done then c0 else AfterSleep(w, c0, poll);
  }

  function FirstPoll(initialDelay: int): int
  {
    if initialDelay <= 0 then INIT_DELAY else initialDelay
  }

  function LongestPoll(initialDelay: int): int
  {
    if FirstPoll(initialDelay) > POLL_MAX then FirstPoll(initialDelay) else POLL_MAX
  }

  /** A poll that was gone on from: the wait before it began at `from` and ended
      at `woke`, and the poll was over at `to`. */
  datatype Poll = Poll(wait: int, from: Clock, woke: Clock, to: Clock)

  function Waits(polls: seq<Poll>): (ds: seq<int>)
    ensures |ds| == |polls| && forall i :: 0 <= i < |ds| ==> ds[i] == polls[i].wait
  {
    seq(|polls|, i requires 0 <= i < |polls| => polls[i].wait)
  }

  function NextPollWait(polls: seq<Poll>, initialDelay: int): int
  {
    NextWait(Waits(polls), FirstPoll(initialDelay), POLL_MAX)
  }

  /** When the wait that follows these polls begins. */
  function NextAt(c0: Clock, polls: seq<Poll>): Clock
  {
    if polls == [] then c0 else polls[|polls| - 1].to
  }

  ghost predicate PolledOn(w: World, p: Poll, plan: Plan, jobID: string, deps: seq<string>, deadline: int, stale: int, retry: bool)
    requires Acyclic(DepEdges(plan.jobs))
  {
    && p.from.now <= deadline && !Canceled(w, p.from)
    && p.woke == AfterWait(w, p.from, p.wait) && p.to == AfterPoll(w, p.woke, deps)
    && Unremarkable(w, p.woke, p.to, plan, jobID, deps, stale, retry)
  }

  /** Polls one after the other from c0 on, every one gone on from. */
  ghost predicate Polled(
      w: World, c0: Clock, polls: seq<Poll>, plan: Plan, jobID: string, deps: seq<string>, deadline: int, stale: int, retry: bool)
    requires Acyclic(DepEdges(plan.jobs))
  {
    && (forall i :: 0 <= i < |polls| ==> PolledOn(w, polls[i], plan, jobID, deps, deadline, stale, retry))
    && (forall i :: 0 <= i < |polls| ==> polls[i].from == NextAt(c0, polls[..i]))
  }

  lemma PolledGrows(
      w: World, c0: Clock, polls: seq<Poll>, p: Poll, plan: Plan, jobID: string, deps: seq<string>,
      initialDelay: int, deadline: int, stale: int, retry: bool)
    requires Acyclic(DepEdges(plan.jobs))
    requires Polled(w, c0, polls, plan, jobID, deps, deadline, stale, retry)
    requires Backoffs(Waits(polls), FirstPoll(initialDelay), POLL_MAX) && p.wait == NextPollWait(polls, initialDelay)
    requires p.from == NextAt(c0, polls) && PolledOn(w, p, plan, jobID, deps, deadline, stale, retry)
    ensures Polled(w, c0, polls + [p], plan, jobID, deps, deadline, stale, retry)
    ensures Backoffs(Waits(polls + [p]), FirstPoll(initialDelay), POLL_MAX)
    ensures NextPollWait(polls + [p], initialDelay) == NextBackoff(p.wait, POLL_MAX)
  {
    var all := polls + [p];
    assert Waits(all) == Waits(polls) + [p.wait];
    BackoffsGrow(Waits(polls), p.wait, FirstPoll(initialDelay), POLL_MAX);
    forall i | 0 <= i < |all|
      ensures all[i].from == NextAt(c0, all[..i])
    {
      assert all[..i] == if i < |polls| then polls[..i] else polls;
    }
  }

  /** How a wait that stood at `at` ended at c: after the deadline, with the
      context, or by what the next poll was told. */
  ghost predicate EndsAt(
      end: WaitEnd, w: World, at: Clock, wait: int, c: Clock, plan: Plan, jobID: string, deps: seq<string>,
      deadline: int, stale: int, retry: bool)
    requires Acyclic(DepEdges(plan.jobs))
  {
    if at.now > deadline then end.WaitTimedOut? && c == at
    else if Canceled(w, at) then end.WaitCanceled? && c == at
    else PollEnds(end, w, AfterWait(w, at, wait), c, plan, jobID, deps, stale, retry)
  }

  /** A whole wait from c0 to c. */
  ghost predicate WaitRan(
      w: World, c0: Clock, plan: Plan, jobID: string, deps: seq<string>, initialDelay: int, deadline: int,
      stale: int, retry: bool, end: WaitEnd, c: Clock, polls: seq<Poll>)
    requires Acyclic(DepEdges(plan.jobs))
  {
    && Polled(w, AfterCall(w, c0), polls, plan, jobID, deps, deadline, stale, retry)
    && Backoffs(Waits(polls), FirstPoll(initialDelay), POLL_MAX)
    && EndsAt(end, w, NextAt(AfterCall(w, c0), polls), NextPollWait(polls, initialDelay), c,
              plan, jobID, deps, deadline, stale, retry)
  }

  /** The first call is the one that sets the event wait up. */
  method WaitForJobRunnable(
      w: World, c0: Clock, plan: Plan, jobID: string, deps: seq<string>,
      initialDelay: int, deadline: int, retry: bool, leases: JobLeases)
    returns (end: WaitEnd, c: Clock, polls: seq<Poll>)
    requires Acyclic(DepEdges(plan.jobs))
    ensures WaitRan(w, c0, plan, jobID, deps, initialDelay, deadline, StaleAfter(leases.leaseTTL), retry, end, c, polls)
    ensures end.Appeared? || end.GaveUp? ==> c.now > c0.now
    ensures c.now >= c0.now && c.calls > c0.calls
    ensures forall b: nat :: CallsWithin(w, b) && c0.now <= deadline ==> c.now <= deadline + LongestPoll(initialDelay) + 3 * b
  {
    var poll := FirstPoll(initialDelay);
    var stale := leases.StaleAfterNow();
    polls := [];
    c := AfterCall(w, c0);
    while true
      invariant c.now >= c0.now && c.calls > c0.calls
      invariant 0 < poll <= LongestPoll(initialDelay)
      invariant poll == NextPollWait(polls, initialDelay) && c == NextAt(AfterCall(w, c0), polls)
      invariant Polled(w, AfterCall(w, c0), polls, plan, jobID, deps, deadline, stale, retry)
      invariant Backoffs(Waits(polls), FirstPoll(initialDelay), POLL_MAX)
      invariant forall b: nat :: CallsWithin(w, b) && c0.now <= deadline ==> c.now <= deadline + LongestPoll(initialDelay) + 3 * b
      decreases deadline + 1 - c.now
    {
      if c.now > deadline {
        return WaitTimedOut, c, polls;
      }
      var at := c;
      var ended;
      ended, c := WaitAndPoll(w, at, poll, plan, jobID, deps, stale, retry);
      if ended.Some? {
        return ended.value, c, polls;
      }
      var p := Poll(poll, at, AfterWait(w, at, poll), c);
      PolledGrows(w, AfterCall(w, c0), polls, p, plan, jobID, deps, initialDelay, deadline, stale, retry);
      polls := polls + [p];
      poll := NextBackoff(poll, POLL_MAX);
    }
  }

  /** The state shows the dependency running, its last heartbeat older than
      two of the leases granted, or than five minutes before any was. */
  predicate BeatLapsed(view: RunState, dep: string, now: int, ttl: int)
  {
    && dep in view && view[dep].phase.Running? && view[dep].beat.Some?
    && now - view[dep].beat.value > if ttl > 0 then 2 * ttl else 300_000
  }

  /** A poll that was gone on from read no state that shows such a dependency. */
  lemma PassedShowsNone(
      w: World, p: Poll, plan: Plan, jobID: string, deps: seq<string>, deadline: int, ttl: int, retry: bool, dep: string)
    requires Acyclic(DepEdges(plan.jobs)) && PolledOn(w, p, plan, jobID, deps, deadline, StaleAfter(ttl), retry)
    requires dep in deps && w.state(p.woke.calls + 1).Some?
    ensures !BeatLapsed(w.state(p.woke.calls + 1).value, dep, p.to.now, ttl)
  {
    assert Judge(w.state(p.woke.calls + 1).value, plan, dep, p.to.now, StaleAfter(ttl), retry).Fine?;
  }

  lemma VerdictMeans(v: Verdict, view: RunState, plan: Plan, deps: seq<string>, now: int, ttl: int, retry: bool)
    requires Acyclic(DepEdges(plan.jobs)) && FirstVerdict(v, view, plan, deps, now, StaleAfter(ttl), retry)
    ensures v.DepStale? ==> v.dep in deps && BeatLapsed(view, v.dep, now, ttl)
    ensures v.DepFailed? ==> v.dep in deps && v.dep in view && view[v.dep].phase.Failed?
    ensures v.DepBlocked? ==> v.dep in deps && v.dep in view && view[v.dep].phase.Pending?
    ensures retry ==> v.DepStale?
    ensures deps != []
  {
  }

  /** A wait gives up on a stale dependency only when the state its last poll
      read shows one, and on a retry run on nothing else. */
  lemma StaleMeansLapsed(
      w: World, at: Clock, wait: int, plan: Plan, jobID: string, deps: seq<string>, deadline: int,
      ttl: int, retry: bool, end: WaitEnd, c: Clock)
    requires Acyclic(DepEdges(plan.jobs)) && end.GaveUp?
    requires EndsAt(end, w, at, wait, c, plan, jobID, deps, deadline, StaleAfter(ttl), retry)
    ensures c.calls > 0 && w.state(c.calls - 1).Some?
    ensures end.v.DepStale? ==> end.v.dep in deps && BeatLapsed(w.state(c.calls - 1).value, end.v.dep, c.now, ttl)
    ensures retry ==> end.v.DepStale?
  {
    var woke := AfterWait(w, at, wait);
    assert PollEnds(end, w, woke, c, plan, jobID, deps, StaleAfter(ttl), retry);
    VerdictMeans(end.v, w.state(woke.calls + 1).value, plan, deps, c.now, ttl, retry);
    assert c.calls - 1 == woke.calls + 1;
  }

  /** The i-th wait: first the caller's delay, two seconds if it gave none, then
      doubled up to 15 seconds. */
  lemma PollIntervals(
      w: World, c0: Clock, plan: Plan, jobID: string, deps: seq<string>, initialDelay: int, deadline: int,
      stale: int, retry: bool, end: WaitEnd, c: Clock, polls: seq<Poll>, i: nat)
    requires Acyclic(DepEdges(plan.jobs)) && i < |polls|
    requires WaitRan(w, c0, plan, jobID, deps, initialDelay, deadline, stale, retry, end, c, polls)
    ensures var first := if initialDelay > 0 then initialDelay else 2_000;
      polls[i].wait == if i == 0 then first else Min(Doubled(first, i), 15_000)
  {
    BackoffDoubles(Waits(polls), FirstPoll(initialDelay), POLL_MAX, i);
  }

  /** One wait and the poll after it. */
  method WaitAndPoll(w: World, at: Clock, poll: int, plan: Plan, jobID: string, deps: seq<string>, stale: int, retry: bool)
    returns (end: Option<WaitEnd>, c: Clock)
    requires Acyclic(DepEdges(plan.jobs))
    ensures end.None? ==> !Canceled(w, at) && c == AfterPoll(w, AfterWait(w, at, poll), deps)
    ensures end.None? ==> Unremarkable(w, AfterWait(w, at, poll), c, plan, jobID, deps, stale, retry)
    ensures end.Some? ==>
      if Canceled(w, at) then end.value.WaitCanceled? && c == at
      else PollEnds(end.value, w, AfterWait(w, at, poll), c, plan, jobID, deps, stale, retry)
    ensures c.now >= at.now && c.calls >= at.calls
    ensures !Canceled(w, at) ==> c.now > at.now
    ensures forall b: nat :: CallsWithin(w, b) ==> c.now <= at.now + AtLeastOne(poll) + 3 * b
  {
    var done, woke := WaitForEvent(w, at, poll);
    if done {
      return Some(WaitCanceled), at;
    }
    end, c := PollOnce(w, woke, plan, jobID, deps, stale, retry);
    assert woke.now <= c.now <= woke.now + w.took(woke.calls) + w.took(woke.calls + 1);
  }

  // ---- performRemoteJobClaim ----

  datatype ClaimEnd =
    | NotInPlan
    | Started(heartbeat: int)
    | ClaimFailed
    | BlockedForGood
    | AlreadyComplete
    | AlreadyFailed
    | ResultMissing
    | DeadlinePassed
    | WaitEnded(how: WaitEnd)
    | Interrupted

  function HeartbeatInterval(reply: ClaimReply): int
    requires reply.Answer?
  {
    if reply.heartbeatSeconds > 0 then reply.heartbeatSeconds * SECOND else DEFAULT_HEARTBEAT
  }

  /** Not claimed, and nothing final said: the loop may wait and ask again. */
  predicate Undecided(reply: ClaimReply, retry: bool)
  {
    && reply.Answer? && !reply.claimed
    && if reply.depsBlocked then retry else reply.standing.HeldElsewhere? || reply.standing.Unclear?
  }

  /** What a final answer means. */
  function Decision(reply: ClaimReply): ClaimEnd
  {
    if !reply.Answer? then ClaimFailed
    else if reply.claimed then Started(HeartbeatInterval(reply))
    else if reply.depsBlocked then BlockedForGood
    else if reply.standing.Succeeded? then AlreadyComplete
    else if reply.standing.FailedThere? then AlreadyFailed
    else ResultMissing
  }

  /** An end the loop comes to at `c` while it waits: too late, interrupted, a
      poll that failed, or, off a retry run, a job that the state just loaded
      shows can never run. A stale dependency is none of these. */
  ghost predicate EndsWaiting(end: ClaimEnd, w: World, c: Clock, plan: Plan, jobID: string, deadline: int, retry: bool)
  {
    match end
    case DeadlinePassed => c.now > deadline
    case WaitEnded(WaitTimedOut) => c.now > deadline
    case Interrupted => w.contextEnds(c.calls)
    case WaitEnded(WaitCanceled) => w.contextEnds(c.calls)
    case WaitEnded(PollFailed) => c.calls > 0 && w.runnable(c.calls - 1).None?
    case WaitEnded(GaveUp(v)) =>
      && !v.DepStale? && !retry && c.calls > 0 && w.state(c.calls - 1).Some?
      && NeverRunnable(PhasesOf(w.state(c.calls - 1).value), plan, jobID)
    case _ => false
  }

  /** The least time that passes between the answer and the next claim. */
  function Pause(reply: ClaimReply, delay: int): int
  {
    if reply.NotFound? then INIT_DELAY
    else if SaysWait(reply) then 1
    else delay
  }

  method SleepUntilNext(w: World, c0: Clock, delay: int, deadline: int) returns (end: Option<ClaimEnd>, c: Clock)
    ensures end.None? <==> c0.now <= deadline && !w.contextEnds(c0.calls)
    ensures end.None? ==> c == AfterSleep(w, c0, delay)
    ensures end.Some? ==> c == c0 && end.value == if c0.now > deadline then DeadlinePassed else Interrupted
  {
    if c0.now > deadline {
      return Some(DeadlinePassed), c0;
    }
    if w.contextEnds(c0.calls) {
      return Some(Interrupted), c0;
    }
    return None, AfterSleep(w, c0, delay);
  }

  /** The wait let the loop go on: the job appeared, or a dependency is stale. */
  predicate Resumes(how: WaitEnd)
  {
    how.Appeared? || (how.GaveUp? && how.v.DepStale?)
  }

  /** A wait for the job's dependencies from c0 let the loop go on at c. */
  ghost predicate AwaitedTo(w: World, c0: Clock, plan: Plan, job: PlanJob, delay: int, deadline: int, retry: bool, c: Clock)
    requires Acyclic(DepEdges(plan.jobs))
  {
    exists stale, how, polls {:trigger WaitRan(w, c0, plan, job.id, job.dependsOn, delay, deadline, stale, retry, how, c, polls)} ::
      WaitRan(w, c0, plan, job.id, job.dependsOn, delay, deadline, stale, retry, how, c, polls) && Resumes(how)
  }

  /** The loop, standing at c0 with an answer, ended at c: at once, or with the
      end of a wait for the dependencies. */
  ghost predicate EndsFrom(
      w: World, c0: Clock, plan: Plan, job: PlanJob, delay: int, deadline: int, retry: bool, end: ClaimEnd, c: Clock)
    requires Acyclic(DepEdges(plan.jobs))
  {
    if end.WaitEnded? then
      exists stale, polls {:trigger WaitRan(w, c0, plan, job.id, job.dependsOn, delay, deadline, stale, retry, end.how, c, polls)} ::
        WaitRan(w, c0, plan, job.id, job.dependsOn, delay, deadline, stale, retry, end.how, c, polls)
    else c == c0
  }

  lemma PollExplained(
      w: World, c0: Clock, plan: Plan, job: PlanJob, deadline: int, stale: int, retry: bool, how: WaitEnd, c: Clock)
    requires Acyclic(DepEdges(plan.jobs)) && job == FindJob(plan.jobs, job.id) && !Resumes(how)
    requires PollEnds(how, w, c0, c, plan, job.id, job.dependsOn, stale, retry)
    ensures EndsWaiting(WaitEnded(how), w, c, plan, job.id, deadline, retry)
  {
    if how.GaveUp? {
      VerdictIsSound(how.v, w.state(c0.calls + 1).value, plan, job.id, c.now, stale, retry);
      assert job.dependsOn != [] && c.calls - 1 == c0.calls + 1;
    }
  }

  lemma WaitExplained(
      w: World, at: Clock, wait: int, plan: Plan, job: PlanJob, deadline: int, stale: int, retry: bool, how: WaitEnd, c: Clock)
    requires Acyclic(DepEdges(plan.jobs)) && job == FindJob(plan.jobs, job.id) && !Resumes(how)
    requires EndsAt(how, w, at, wait, c, plan, job.id, job.dependsOn, deadline, stale, retry)
    ensures EndsWaiting(WaitEnded(how), w, c, plan, job.id, deadline, retry)
  {
    if at.now <= deadline && !Canceled(w, at) {
      PollExplained(w, AfterWait(w, at, wait), plan, job, deadline, stale, retry, how, c);
    }
  }

  method AwaitDependencies(
      w: World, c0: Clock, plan: Plan, job: PlanJob, delay: int, deadline: int, retry: bool, leases: JobLeases)
    returns (end: Option<ClaimEnd>, c: Clock)
    requires Acyclic(DepEdges(plan.jobs)) && job == FindJob(plan.jobs, job.id) && 0 < delay <= MAX_DELAY
    ensures end.None? ==> c0.now <= deadline && c.now > c0.now && AwaitedTo(w, c0, plan, job, delay, deadline, retry, c)
    ensures end.Some? ==> EndsWaiting(end.value, w, c, plan, job.id, deadline, retry)
    ensures end.Some? ==> EndsFrom(w, c0, plan, job, delay, deadline, retry, end.value, c)
    ensures c.now >= c0.now && c.calls >= c0.calls
    ensures c0.now > deadline ==> c == c0
    ensures forall b: nat :: CallsWithin(w, b) && c0.now <= deadline ==> c.now <= deadline + MAX_DELAY + 3 * b
  {
    if c0.now > deadline {
      return Some(DeadlinePassed), c0;
    }
    var how, polls;
    how, c, polls := WaitForJobRunnable(w, c0, plan, job.id, job.dependsOn, delay, deadline, retry, leases);
    if Resumes(how) {
      return None, c;
    }
    WaitExplained(w, NextAt(AfterCall(w, c0), polls), NextPollWait(polls, delay), plan, job, deadline,
                  StaleAfter(leases.leaseTTL), retry, how, c);
    end := Some(WaitEnded(how));
  }

  /** The answer sends the loop to wait for dependencies. */
  predicate SaysWait(reply: ClaimReply)
  {
    reply.Answer? && reply.depsWaiting && !reply.depsBlocked
  }

  /** After an answer at c0 the next claim is sent at c: after a wait for the
      dependencies, or after a sleep of the pause. */
  ghost predicate ResumedAt(
      w: World, c0: Clock, plan: Plan, job: PlanJob, reply: ClaimReply, delay: int, deadline: int, retry: bool, c: Clock)
    requires Acyclic(DepEdges(plan.jobs))
  {
    if SaysWait(reply) then AwaitedTo(w, c0, plan, job, delay, deadline, retry, c)
    else c == AfterSleep(w, c0, Pause(reply, delay))
  }

  /** What an answer that did not claim the job, received at c0, leads to at c:
      a final one decides at once; after any other the loop ends waiting or goes on. */
  ghost predicate Considered(
      w: World, c0: Clock, plan: Plan, job: PlanJob, reply: ClaimReply, delay: int, deadline: int, retry: bool,
      end: Option<ClaimEnd>, c: Clock)
    requires Acyclic(DepEdges(plan.jobs))
  {
    if end.None? then
      && Undecided(reply, retry) && c0.now <= deadline && c.now >= c0.now + Pause(reply, delay) && c.calls >= c0.calls
      && ResumedAt(w, c0, plan, job, reply, delay, deadline, retry, c)
    else
      && EndsFrom(w, c0, plan, job, delay, deadline, retry, end.value, c)
      && if Undecided(reply, retry) then EndsWaiting(end.value, w, c, plan, job.id, deadline, retry)
         else end.value == Decision(reply)
  }

  /** One answer that did not claim the job. */
  method Consider(
      w: World, c0: Clock, plan: Plan, job: PlanJob, reply: ClaimReply, delay: int, deadline: int, retry: bool, leases: JobLeases)
    returns (end: Option<ClaimEnd>, c: Clock)
    requires Acyclic(DepEdges(plan.jobs)) && job == FindJob(plan.jobs, job.id) && 0 < delay <= MAX_DELAY
    requires reply.Answer? && !reply.claimed
    ensures Considered(w, c0, plan, job, reply, delay, deadline, retry, end, c)
    ensures end.None? ==> c0.now <= deadline && c.now > c0.now
    ensures c.now >= c0.now
    ensures c0.now > deadline ==> c == c0
    ensures forall b: nat :: CallsWithin(w, b) && c0.now <= deadline ==> c.now <= deadline + MAX_DELAY + 3 * b
  {
    if reply.depsBlocked {
      if !retry {
        return Some(BlockedForGood), c0;
      }
      end, c := SleepUntilNext(w, c0, delay, deadline);
    } else if reply.standing.Succeeded? {
      return Some(AlreadyComplete), c0;
    } else if reply.standing.FailedThere? {
      return Some(AlreadyFailed), c0;
    } else if reply.standing.Unrecorded? {
      return Some(ResultMissing), c0;
    } else if reply.depsWaiting {
      end, c := AwaitDependencies(w, c0, plan, job, delay, deadline, retry, leases);
    } else {
      end, c := SleepUntilNext(w, c0, delay, deadline);
    }
  }

  /** One claim: its place among the calls, when it was sent and answered, and
      the delay then in force. */
  datatype Round = Round(call: nat, asked: int, answered: int, reply: ClaimReply, delay: int)

  /** What one run of the loop is about. */
  datatype Claiming = Claiming(w: World, start: int, plan: Plan, job: PlanJob, retry: bool)
  {
    function Deadline(): int
    {
      start + DEP_WAIT
    }

    /** The claim sent at c. */
    function Sent(c: Clock, delay: int): Round
    {
      Round(c.calls, c.now, c.now + w.took(c.calls), w.claim(c.calls), delay)
    }
  }

  function DelayAfter(r: Round): int
  {
    if r.reply.NotFound? then r.delay else NextBackoff(r.delay, MAX_DELAY)
  }

  ghost predicate WentOn(r: Round, start: int, retry: bool)
  {
    && r.asked <= r.answered
    && (if r.reply.NotFound? then r.answered < start + INIT_READY
        else Undecided(r.reply, retry) && r.answered <= start + DEP_WAIT)
  }

  /** The loop went on from r, and stands at c before the next claim. */
  ghost predicate NextClaimAt(k: Claiming, r: Round, c: Clock)
    requires Acyclic(DepEdges(k.plan.jobs))
  {
    && WentOn(r, k.start, k.retry)
    && c.calls > r.call && c.now >= r.answered + Pause(r.reply, r.delay)
    && ResumedAt(k.w, Clock(r.call + 1, r.answered), k.plan, k.job, r.reply, r.delay, k.Deadline(), k.retry, c)
  }

  /** One claim follows the other: after its pause, with the delay backed off. */
  ghost predicate Follows(k: Claiming, r: Round, next: Round)
    requires Acyclic(DepEdges(k.plan.jobs))
  {
    NextClaimAt(k, r, Clock(next.call, next.asked)) && next.delay == DelayAfter(r)
  }

  /** Every round is a claim that was sent and what the server answered to it. */
  ghost predicate Rounds(k: Claiming, rounds: seq<Round>)
    requires Acyclic(DepEdges(k.plan.jobs))
  {
    && (rounds != [] ==> rounds[0] == k.Sent(Clock(0, k.start), INIT_DELAY))
    && (forall i :: 0 <= i < |rounds| ==> rounds[i] == k.Sent(Clock(rounds[i].call, rounds[i].asked), rounds[i].delay))
    && (forall i, j :: 0 <= i && j == i + 1 < |rounds| ==> Follows(k, rounds[i], rounds[j]))
  }

  /** The rounds so far, all gone on from, and the next to be sent at c. */
  ghost predicate Asking(k: Claiming, rounds: seq<Round>, c: Clock, delay: int)
    requires Acyclic(DepEdges(k.plan.jobs))
  {
    && Rounds(k, rounds) && 0 < delay <= MAX_DELAY
    && if rounds == [] then c == Clock(0, k.start) && delay == INIT_DELAY
       else NextClaimAt(k, rounds[|rounds| - 1], c) && delay == DelayAfter(rounds[|rounds| - 1])
  }

  lemma AskingLast(k: Claiming, rounds: seq<Round>, c: Clock, delay: int)
    requires Acyclic(DepEdges(k.plan.jobs)) && Asking(k, rounds, c, delay)
    ensures Rounds(k, rounds + [k.Sent(c, delay)])
  {
    var all := rounds + [k.Sent(c, delay)];
    forall i, j | 0 <= i && j == i + 1 < |all|
      ensures Follows(k, all[i], all[j])
    {
      if j < |rounds| {
        assert all[i] == rounds[i] && all[j] == rounds[j];
      }
    }
  }

  lemma AskingNext(k: Claiming, rounds: seq<Round>, c: Clock, delay: int, c2: Clock)
    requires Acyclic(DepEdges(k.plan.jobs)) && Asking(k, rounds, c, delay) && NextClaimAt(k, k.Sent(c, delay), c2)
    ensures Asking(k, rounds + [k.Sent(c, delay)], c2, DelayAfter(k.Sent(c, delay)))
  {
    AskingLast(k, rounds, c, delay);
  }

  /** How the loop ended at c, from its last claim. */
  ghost predicate EndsBy(end: ClaimEnd, k: Claiming, last: Round, c: Clock)
    requires Acyclic(DepEdges(k.plan.jobs))
  {
    && EndsFrom(k.w, Clock(last.call + 1, last.answered), k.plan, k.job, last.delay, k.Deadline(), k.retry, end, c)
    && if Undecided(last.reply, k.retry) then EndsWaiting(end, k.w, c, k.plan, k.job.id, k.Deadline(), k.retry)
       else if last.reply.NotFound? && last.answered < k.start + INIT_READY then end.Interrupted? && k.w.contextEnds(c.calls)
       else end == Decision(last.reply)
  }

  function Observed(ttl: int, reply: ClaimReply): int
  {
    if reply.Answer? then ObserveLease(ttl, reply.leaseSeconds) else ttl
  }

  /** The lease length the table holds after these answers. */
  function TtlAfter(ttl: int, rounds: seq<Round>): int
  {
    if rounds == [] then ttl
    else Observed(TtlAfter(ttl, rounds[..|rounds| - 1]), rounds[|rounds| - 1].reply)
  }

  /** What one round leaves: an end, or the clock at the next claim. */
  ghost predicate Leaves(k: Claiming, r: Round, end: Option<ClaimEnd>, c: Clock)
    requires Acyclic(DepEdges(k.plan.jobs))
  {
    if end.Some? then EndsBy(end.value, k, r, c) else NextClaimAt(k, r, c)
  }

  /** A claim that brought no answer: retried while the run may not be visible yet. */
  method Unanswered(k: Claiming, c0: Clock, delay: int) returns (end: Option<ClaimEnd>, c: Clock)
    requires Acyclic(DepEdges(k.plan.jobs)) && !k.w.claim(c0.calls).Answer?
    ensures Leaves(k, k.Sent(c0, delay), end, c)
    ensures c.now >= c0.now
    ensures end.Some? ==> c == AfterCall(k.w, c0)
    ensures end.None? ==> AfterCall(k.w, c0).now < k.start + INIT_READY && c == AfterSleep(k.w, AfterCall(k.w, c0), INIT_DELAY)
  {
    var reply := k.w.claim(c0.calls);
    c := AfterCall(k.w, c0);
    if !reply.NotFound? || c.now >= k.start + INIT_READY {
      return Some(ClaimFailed), c;
    }
    if k.w.contextEnds(c.calls) {
      return Some(Interrupted), c;
    }
    return None, AfterSleep(k.w, c, INIT_DELAY);
  }

  lemma ConsideredLeaves(k: Claiming, c0: Clock, delay: int, end: Option<ClaimEnd>, c: Clock)
    requires Acyclic(DepEdges(k.plan.jobs)) && k.w.claim(c0.calls).Answer? && !k.w.claim(c0.calls).claimed
    requires Considered(k.w, AfterCall(k.w, c0), k.plan, k.job, k.w.claim(c0.calls), delay, k.Deadline(), k.retry, end, c)
    ensures Leaves(k, k.Sent(c0, delay), end, c)
  {
    var r := k.Sent(c0, delay);
    assert AfterCall(k.w, c0) == Clock(r.call + 1, r.answered) && r.reply == k.w.claim(c0.calls) && r.reply.Answer?;
    if end.None? {
      assert WentOn(r, k.start, k.retry);
      assert NextClaimAt(k, r, c);
    } else {
      assert EndsBy(end.value, k, r, c);
    }
  }

  method Answered(k: Claiming, c0: Clock, delay: int, leases: JobLeases) returns (end: Option<ClaimEnd>, c: Clock)
    requires Acyclic(DepEdges(k.plan.jobs)) && k.job == FindJob(k.plan.jobs, k.job.id) && 0 < delay <= MAX_DELAY
    requires k.w.claim(c0.calls).Answer?
    modifies leases`leaseTTL
    ensures leases.leaseTTL == Observed(old(leases.leaseTTL), k.w.claim(c0.calls))
    ensures Leaves(k, k.Sent(c0, delay), end, c)
    ensures end.None? ==> AfterCall(k.w, c0).now <= k.Deadline() && c.now > AfterCall(k.w, c0).now
    ensures AfterCall(k.w, c0).now > k.Deadline() ==> c == AfterCall(k.w, c0)
    ensures forall b: nat :: CallsWithin(k.w, b) && AfterCall(k.w, c0).now <= k.Deadline() ==> c.now <= k.Deadline() + MAX_DELAY + 3 * b
  {
    var reply := k.w.claim(c0.calls);
    c := AfterCall(k.w, c0);
    leases.ObserveLeaseSeconds(reply.leaseSeconds);
    if reply.claimed {
      return Some(Started(HeartbeatInterval(reply))), c;
    }
    end, c := Consider(k.w, c, k.plan, k.job, reply, delay, k.Deadline(), k.retry, leases);
    ConsideredLeaves(k, c0, delay, end, c);
  }

  method OneRound(k: Claiming, c0: Clock, delay: int, leases: JobLeases) returns (end: Option<ClaimEnd>, c: Clock)
    requires Acyclic(DepEdges(k.plan.jobs)) && k.job == FindJob(k.plan.jobs, k.job.id) && 0 < delay <= MAX_DELAY
    modifies leases`leaseTTL
    ensures leases.leaseTTL == Observed(old(leases.leaseTTL), k.w.claim(c0.calls))
    ensures Leaves(k, k.Sent(c0, delay), end, c)
    ensures end.None? ==> c0.now <= k.Deadline() && c.now > c0.now
    ensures forall b: nat :: CallsWithin(k.w, b) && c0.now <= k.Deadline() + MAX_DELAY + 3 * b ==>
      c.now <= k.Deadline() + MAX_DELAY + (if end.Some? then 4 else 3) * b
  {
    if k.w.claim(c0.calls).Answer? {
      end, c := Answered(k, c0, delay, leases);
    } else {
      end, c := Unanswered(k, c0, delay);
    }
  }

  method PerformRemoteJobClaim(w: World, start: int, plan: Plan, jobID: string, retry: bool, leases: JobLeases)
    returns (end: ClaimEnd, c: Clock, rounds: seq<Round>)
    requires Acyclic(DepEdges(plan.jobs))
    modifies leases`leaseTTL
    ensures end.NotInPlan? <==> FindJob(plan.jobs, jobID).id == ""
    ensures end.NotInPlan? <==> rounds == []
    ensures Rounds(Claiming(w, start, plan, FindJob(plan.jobs, jobID), retry), rounds)
    ensures rounds != [] ==> EndsBy(end, Claiming(w, start, plan, FindJob(plan.jobs, jobID), retry), rounds[|rounds| - 1], c)
    ensures leases.leaseTTL == TtlAfter(old(leases.leaseTTL), rounds)
    ensures forall b: nat :: CallsWithin(w, b) ==> c.now <= start + DEP_WAIT + MAX_DELAY + 4 * b
  {
    var job := FindJob(plan.jobs, jobID);
    var k := Claiming(w, start, plan, job, retry);
    c, rounds := Clock(0, start), [];
    if job.id == "" {
      return NotInPlan, c, rounds;
    }
    var delay := INIT_DELAY;
    while true
      invariant Asking(k, rounds, c, delay)
      invariant leases.leaseTTL == TtlAfter(old(leases.leaseTTL), rounds)
      invariant forall b: nat :: CallsWithin(w, b) ==> c.now <= k.Deadline() + MAX_DELAY + 3 * b
      decreases k.Deadline() + 1 - c.now
    {
      var r := k.Sent(c, delay);
      var ended, next := OneRound(k, c, delay, leases);
      AskingLast(k, rounds, c, delay);
      assert (rounds + [r])[..|rounds|] == rounds;
      if ended.Some? {
        return ended.value, next, rounds + [r];
      }
      AskingNext(k, rounds, c, delay, next);
      rounds, c, delay := rounds + [r], next, DelayAfter(r);
    }
  }

  // ---- what the rounds say ----

  /** How many of the rounds backed the delay off. */
  function Counted(rounds: seq<Round>): nat
  {
    if rounds == [] then 0
    else Counted(rounds[..|rounds| - 1]) + if rounds[|rounds| - 1].reply.NotFound? then 0 else 1
  }

  ghost predicate DelayChain(rounds: seq<Round>)
  {
    && (rounds != [] ==> rounds[0].delay == INIT_DELAY)
    && (forall i, j :: 0 <= i && j == i + 1 < |rounds| ==> rounds[j].delay == DelayAfter(rounds[i]))
  }

  lemma RoundsChain(k: Claiming, rounds: seq<Round>)
    requires Acyclic(DepEdges(k.plan.jobs)) && Rounds(k, rounds)
    ensures DelayChain(rounds)
  {
    forall i, j | 0 <= i && j == i + 1 < |rounds|
      ensures rounds[j].delay == DelayAfter(rounds[i])
    {
      assert Follows(k, rounds[i], rounds[j]);
    }
  }

  lemma {:induction false} ChainDelays(rounds: seq<Round>, n: nat)
    requires DelayChain(rounds) && n < |rounds|
    ensures rounds[n].delay == Min(Doubled(INIT_DELAY, Counted(rounds[..n])), MAX_DELAY)
    ensures INIT_DELAY <= rounds[n].delay <= MAX_DELAY
  {
    if n == 0 {
      assert rounds[..0] == [];
    } else {
      ChainDelays(rounds, n - 1);
      assert rounds[..n][..n - 1] == rounds[..n - 1];
    }
  }

  /** The delay doubles with every answered claim, never below two seconds or
      above sixty; a run not yet visible does not count. */
  lemma ClaimDelays(k: Claiming, rounds: seq<Round>, n: nat)
    requires Acyclic(DepEdges(k.plan.jobs)) && Rounds(k, rounds) && n < |rounds|
    ensures rounds[n].delay == Min(Doubled(INIT_DELAY, Counted(rounds[..n])), MAX_DELAY)
    ensures INIT_DELAY <= rounds[n].delay <= MAX_DELAY
  {
    RoundsChain(k, rounds);
    ChainDelays(rounds, n);
  }

  /** A job starts exactly when the server answered a claim of it with claimed,
      and that is the last claim sent. */
  lemma StartsOnlyWhenClaimed(end: ClaimEnd, k: Claiming, rounds: seq<Round>, c: Clock)
    requires Acyclic(DepEdges(k.plan.jobs)) && Rounds(k, rounds) && rounds != []
    requires EndsBy(end, k, rounds[|rounds| - 1], c)
    ensures end.Started? <==>
      exists r :: r in rounds && k.w.claim(r.call).Answer? && k.w.claim(r.call).claimed
    ensures end.Started? ==> end.heartbeat > 0 && end.heartbeat == HeartbeatInterval(k.w.claim(rounds[|rounds| - 1].call))
    ensures forall i :: 0 <= i < |rounds| - 1 ==> !(k.w.claim(rounds[i].call).Answer? && k.w.claim(rounds[i].call).claimed)
  {
    var last := |rounds| - 1;
    assert rounds[last].reply == k.w.claim(rounds[last].call) && rounds[last] in rounds;
    forall i | 0 <= i < last
      ensures !(k.w.claim(rounds[i].call).Answer? && k.w.claim(rounds[i].call).claimed)
    {
      assert Follows(k, rounds[i], rounds[i + 1]) && rounds[i].reply == k.w.claim(rounds[i].call);
    }
    if r :| r in rounds && k.w.claim(r.call).Answer? && k.w.claim(r.call).claimed {
      var i :| 0 <= i < |rounds| && rounds[i] == r;
      assert i == last;
    }
  }

  /** The fields of an answer that did not claim the job. */
  predicate Refused(reply: ClaimReply)
  {
    reply.Answer? && !reply.claimed
  }

  /** What the end says of the server's last answer, in that answer's own
      fields: each final end stands for one kind of answer, in the order in
      which the fields are read, and every other end is one of a wait. */
  lemma EndTellsLastAnswer(end: ClaimEnd, k: Claiming, rounds: seq<Round>, c: Clock)
    requires Acyclic(DepEdges(k.plan.jobs)) && Rounds(k, rounds) && rounds != []
    requires EndsBy(end, k, rounds[|rounds| - 1], c)
    ensures var last := rounds[|rounds| - 1];
      var a := k.w.claim(last.call);
      && (end.AlreadyComplete? <==> Refused(a) && !a.depsBlocked && a.standing.Succeeded?)
      && (end.AlreadyFailed? <==> Refused(a) && !a.depsBlocked && a.standing.FailedThere?)
      && (end.ResultMissing? <==> Refused(a) && !a.depsBlocked && a.standing.Unrecorded?)
      && (end.BlockedForGood? <==> Refused(a) && a.depsBlocked && !k.retry)
      && (end.Started? <==> a.Answer? && a.claimed)
      && (end.Started? ==> end.heartbeat == if a.heartbeatSeconds > 0 then a.heartbeatSeconds * 1000 else 20_000)
      && (end.ClaimFailed? <==> a.Broken? || (a.NotFound? && last.answered >= k.start + 120_000))
      && (end.DeadlinePassed? || end.WaitEnded? ==>
            Refused(a) && if a.depsBlocked then k.retry else a.standing.HeldElsewhere? || a.standing.Unclear?)
      && (end.DeadlinePassed? ==> last.answered > k.start + 1_800_000)
      && !end.NotInPlan?
  {
    var last := rounds[|rounds| - 1];
    assert last.reply == k.w.claim(last.call);
  }

  /** The claim after the i-th is sent a sleep later: of two seconds while the
      run is not visible, of the delay then in force, two to sixty seconds, after
      any other answer but one that sends it to wait for dependencies. */
  lemma SleepsBetweenClaims(k: Claiming, rounds: seq<Round>, i: nat)
    requires Acyclic(DepEdges(k.plan.jobs)) && Rounds(k, rounds) && i + 1 < |rounds|
    ensures var r, next := rounds[i], rounds[i + 1];
      var a := k.w.claim(r.call);
      && (a.NotFound? ==> next.asked == r.answered + 2_000 + k.w.late(r.call + 1) && next.delay == r.delay)
      && (a.Answer? && (a.depsBlocked || !a.depsWaiting) ==> next.asked == r.answered + r.delay + k.w.late(r.call + 1))
      && (a.Answer? ==> next.delay == if 2 * r.delay > 60_000 then 60_000 else 2 * r.delay)
      && 2_000 <= r.delay <= 60_000 && (i == 0 ==> r.delay == 2_000)
  {
    ClaimDelays(k, rounds, i);
    assert Follows(k, rounds[i], rounds[i + 1]);
  }

  /** No call is a claim twice. */
  lemma {:induction false} ClaimsInOrder(k: Claiming, rounds: seq<Round>, i: nat, j: nat)
    requires Acyclic(DepEdges(k.plan.jobs)) && Rounds(k, rounds) && i < j < |rounds|
    ensures rounds[i].call < rounds[j].call && rounds[i].answered < rounds[j].asked
    decreases j
  {
    ClaimDelays(k, rounds, j - 1);
    assert Follows(k, rounds[j - 1], rounds[j]);
    if i < j - 1 {
      ClaimsInOrder(k, rounds, i, j - 1);
    }
  }
}
