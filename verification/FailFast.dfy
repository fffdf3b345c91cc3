/** How exact giving up early is: a waiting job can still run, retries aside,
    exactly when no dependency chain ends at a failed or cancelled job. */
module FailFast {
  import opened Walks
  import opened Plans
  import opened Coordinator

  /** Every dependency of a known job is known: a whole state, not a part. */
  ghost predicate Whole(plan: Plan, s: Jobs)
  {
    forall j, d :: j in s && d in FindJob(plan.jobs, j).dependsOn ==> d in s
  }

  ghost predicate Doomed(s: Jobs, plan: Plan, job: string)
  {
    exists w :: LeadsToDead(s, plan, w) && w[0] == job
  }

  ghost predicate NoRetry(es: seq<Event>)
  {
    forall j :: Retry(j) !in es
  }

  /** A continuation without retries that leaves the dead jobs as they are. */
  ghost predicate Continues(plan: Plan, s: Jobs, es: seq<Event>)
  {
    && Possible(plan, s, es) && NoRetry(es)
    && After(s, es).Keys == s.Keys
    && forall j :: j in s ==>
      (Dead(After(s, es)[j]) <==> Dead(s[j])) && (s[j].Completed? ==> After(s, es)[j].Completed?)
  }

  /** Only what `job` reaches, itself included, has changed from s to t. */
  ghost predicate OnlyUnder(plan: Plan, s: Jobs, t: Jobs, job: string)
  {
    forall j :: j in s && j in t && !Reaches(DepEdges(plan.jobs), job, j) ==> t[j] == s[j]
  }

  ghost predicate OnlyBelow(plan: Plan, s: Jobs, t: Jobs, job: string)
  {
    forall j :: j in s && j in t && !ReachesPlus(DepEdges(plan.jobs), job, j) ==> t[j] == s[j]
  }

  ghost predicate DepsDone(plan: Plan, t: Jobs, job: string, n: nat)
    requires n <= |FindJob(plan.jobs, job).dependsOn|
  {
    forall d :: d in FindJob(plan.jobs, job).dependsOn[..n] ==> d in t && t[d].Completed?
  }

  lemma {:induction false} RunsJoin(plan: Plan, s: Jobs, a: seq<Event>, b: seq<Event>)
    requires Possible(plan, s, a) && Possible(plan, After(s, a), b)
    ensures Possible(plan, s, a + b) && After(s, a + b) == After(After(s, a), b)
    decreases |a|
  {
    if a == [] {
      assert a + b == b;
    } else {
      RunsJoin(plan, Next(s, a[0]), a[1..], b);
      assert (a + b)[1..] == a[1..] + b;
    }
  }

  lemma ContinuesJoin(plan: Plan, s: Jobs, a: seq<Event>, b: seq<Event>)
    requires Continues(plan, s, a) && Continues(plan, After(s, a), b)
    ensures Continues(plan, s, a + b) && After(s, a + b) == After(After(s, a), b)
  {
    RunsJoin(plan, s, a, b);
  }

  lemma DoomStays(plan: Plan, s: Jobs, t: Jobs, job: string)
    requires t.Keys == s.Keys && forall j :: j in s ==> (Dead(t[j]) <==> Dead(s[j]))
    ensures Doomed(t, plan, job) ==> Doomed(s, plan, job)
  {
    if w :| LeadsToDead(t, plan, w) && w[0] == job {
      assert LeadsToDead(s, plan, w);
    }
  }

  /** A job above a doomed dependency is doomed too. */
  lemma DoomSpreads(plan: Plan, s: Jobs, job: string, dep: string)
    requires dep in FindJob(plan.jobs, job).dependsOn && Doomed(s, plan, dep)
    ensures Doomed(s, plan, job)
  {
    var w :| LeadsToDead(s, plan, w) && w[0] == dep;
    DepEdge(plan.jobs, job, dep);
    var v := [job] + w;
    assert forall i :: 0 < i < |v| ==> v[i] == w[i - 1];
    assert LeadsToDead(s, plan, v);
  }

  /** The last steps of a job whose dependencies have completed. */
  lemma RunOne(plan: Plan, s: Jobs, job: string) returns (es: seq<Event>)
    requires job in s && !Dead(s[job])
    requires DepsDone(plan, s, job, |FindJob(plan.jobs, job).dependsOn|)
    ensures Continues(plan, s, es) && After(s, es)[job].Completed?
    ensures forall j :: j in s && j != job ==> After(s, es)[j] == s[j]
  {
    var deps := FindJob(plan.jobs, job).dependsOn;
    assert deps[..|deps|] == deps;
    if s[job].Completed? {
      es := [];
    } else if s[job].Running? {
      es := [Succeed(job)];
      FirstEvent(plan, s, Succeed(job), []);
    } else {
      es := [Claim(job)] + [Succeed(job)];
      FirstEvent(plan, Next(s, Claim(job)), Succeed(job), []);
      FirstEvent(plan, s, Claim(job), [Succeed(job)]);
    }
  }

  /** An undoomed job can be brought to completion. */
  lemma {:induction false} Complete(plan: Plan, s: Jobs, job: string) returns (es: seq<Event>)
    requires Acyclic(DepEdges(plan.jobs)) && Whole(plan, s) && job in s && !Doomed(s, plan, job)
    ensures Continues(plan, s, es) && After(s, es)[job].Completed?
    ensures OnlyUnder(plan, s, After(s, es), job)
    decreases Below(DepEdges(plan.jobs), job), 1, 0
  {
    forall d | d in FindJob(plan.jobs, job).dependsOn
      ensures !Doomed(s, plan, d)
    {
      if Doomed(s, plan, d) {
        DoomSpreads(plan, s, job, d);
      }
    }
    assert LeadsToDead(s, plan, [job]) || !Dead(s[job]);
    var before := CompleteDeps(plan, s, job, |FindJob(plan.jobs, job).dependsOn|);
    var t := After(s, before);
    var last := RunOne(plan, t, job);
    ContinuesJoin(plan, s, before, last);
    es := before + last;
    UnderJob(plan, s, t, After(t, last), job);
  }

  lemma UnderJob(plan: Plan, s: Jobs, t: Jobs, u: Jobs, job: string)
    requires s.Keys == t.Keys == u.Keys && OnlyBelow(plan, s, t, job)
    requires forall j :: j in t && j != job ==> u[j] == t[j]
    ensures OnlyUnder(plan, s, u, job)
  {
    ReachesSelf(DepEdges(plan.jobs), job);
    forall j ensures ReachesPlus(DepEdges(plan.jobs), job, j) ==> Reaches(DepEdges(plan.jobs), job, j) {
      PlusReaches(DepEdges(plan.jobs), job, j);
    }
  }

  lemma BelowDep(plan: Plan, s: Jobs, t: Jobs, u: Jobs, job: string, dep: string)
    requires dep in FindJob(plan.jobs, job).dependsOn && s.Keys == t.Keys == u.Keys
    requires OnlyBelow(plan, s, t, job) && OnlyUnder(plan, t, u, dep)
    ensures OnlyBelow(plan, s, u, job)
  {
    var edges := DepEdges(plan.jobs);
    DepEdge(plan.jobs, job, dep);
    EdgeReaches(edges, job, dep);
    forall j | Reaches(edges, dep, j)
      ensures ReachesPlus(edges, job, j)
    {
      ReachesTransitive(edges, job, dep, j);
    }
  }

  lemma OneMoreDone(plan: Plan, t: Jobs, u: Jobs, job: string, n: nat)
    requires n < |FindJob(plan.jobs, job).dependsOn| && DepsDone(plan, t, job, n) && u.Keys == t.Keys
    requires forall j :: j in t && t[j].Completed? ==> u[j].Completed?
    requires FindJob(plan.jobs, job).dependsOn[n] in u && u[FindJob(plan.jobs, job).dependsOn[n]].Completed?
    ensures DepsDone(plan, u, job, n + 1)
  {
    var deps := FindJob(plan.jobs, job).dependsOn;
    assert deps[..n + 1] == deps[..n] + [deps[n]];
  }

  /** Its first n dependencies, one after the other. */
  lemma {:induction false} CompleteDeps(plan: Plan, s: Jobs, job: string, n: nat) returns (es: seq<Event>)
    requires Acyclic(DepEdges(plan.jobs)) && Whole(plan, s) && job in s
    requires n <= |FindJob(plan.jobs, job).dependsOn|
    requires forall d :: d in FindJob(plan.jobs, job).dependsOn ==> !Doomed(s, plan, d)
    ensures Continues(plan, s, es)
    ensures DepsDone(plan, After(s, es), job, n) && OnlyBelow(plan, s, After(s, es), job)
    decreases Below(DepEdges(plan.jobs), job), 0, n
  {
    if n == 0 {
      return [];
    }
    var before := CompleteDeps(plan, s, job, n - 1);
    var t, dep := After(s, before), FindJob(plan.jobs, job).dependsOn[n - 1];
    DepEdge(plan.jobs, job, dep);
    BelowShrinks(DepEdges(plan.jobs), job, dep);
    DoomStays(plan, s, t, dep);
    var more := Complete(plan, t, dep);
    ContinuesJoin(plan, s, before, more);
    BelowDep(plan, s, t, After(t, more), job, dep);
    OneMoreDone(plan, t, After(t, more), job, n - 1);
    es := before + more;
  }

  /** What the waiting job still has to hope for, retries aside. */
  ghost predicate CanStillRun(plan: Plan, s: Jobs, job: string)
  {
    exists es :: Possible(plan, s, es) && NoRetry(es) && Runnable(plan, After(s, es), job)
  }

  lemma DoomedNeverRuns(plan: Plan, s: Jobs, job: string, dep: string)
    requires Sound(plan, s) && dep in FindJob(plan.jobs, job).dependsOn && Doomed(s, plan, dep)
    ensures !CanStillRun(plan, s, job)
  {
    var w :| LeadsToDead(s, plan, w) && w[0] == dep;
    forall es | Possible(plan, s, es) && NoRetry(es)
      ensures !Runnable(plan, After(s, es), job)
    {
      ChainStays(s, plan, w, es);
      EveryRunIsSound(plan, s, es);
      ChainNeverCompleted(After(s, es), plan, w);
    }
  }

  lemma {:induction false} TerminalStays(plan: Plan, s: Jobs, job: string, es: seq<Event>)
    requires job in s && Terminal(s[job]) && Possible(plan, s, es) && NoRetry(es)
    ensures job in After(s, es) && Terminal(After(s, es)[job])
    decreases |es|
  {
    if es != [] {
      assert es[0] in es;
      TerminalStays(plan, Next(s, es[0]), job, es[1..]);
    }
  }

  lemma PendingCanRun(plan: Plan, s: Jobs, job: string)
    requires Acyclic(DepEdges(plan.jobs)) && Whole(plan, s) && job in s && s[job].Pending?
    requires forall d :: d in FindJob(plan.jobs, job).dependsOn ==> !Doomed(s, plan, d)
    ensures CanStillRun(plan, s, job)
  {
    var deps := FindJob(plan.jobs, job).dependsOn;
    var es := CompleteDeps(plan, s, job, |deps|);
    assert deps[..|deps|] == deps;
    assert !ReachesPlus(DepEdges(plan.jobs), job, job);
    assert Runnable(plan, After(s, es), job);
  }

  /** A running job is runnable again once its lease has lapsed. */
  lemma RunningCanRun(plan: Plan, s: Jobs, job: string)
    requires Sound(plan, s) && job in s && s[job].Running?
    ensures CanStillRun(plan, s, job)
  {
    FirstEvent(plan, s, Requeue(job), []);
    var es := [Requeue(job)] + [];
    assert NoRetry(es) && Runnable(plan, After(s, es), job);
  }

  /** A job can still run exactly when it has not ended and no dependency of it
      leads to a failed or cancelled job. */
  lemma CanStillRunIff(plan: Plan, s: Jobs, job: string)
    requires Acyclic(DepEdges(plan.jobs)) && Sound(plan, s) && Whole(plan, s) && job in s
    ensures CanStillRun(plan, s, job)
       <==> !Terminal(s[job]) && forall d :: d in FindJob(plan.jobs, job).dependsOn ==> !Doomed(s, plan, d)
  {
    if d :| d in FindJob(plan.jobs, job).dependsOn && Doomed(s, plan, d) {
      DoomedNeverRuns(plan, s, job, d);
    } else if Terminal(s[job]) {
      forall es | Possible(plan, s, es) && NoRetry(es)
        ensures !Runnable(plan, After(s, es), job)
      {
        TerminalStays(plan, s, job, es);
      }
    } else if s[job].Running? {
      RunningCanRun(plan, s, job);
    } else {
      PendingCanRun(plan, s, job);
    }
  }

  // ---- what the client notices ----

  ghost predicate LeadsToCanceled(s: Jobs, plan: Plan, job: string)
  {
    exists w :: IsWalk(DepEdges(plan.jobs), w) && w[0] == job && w[|w| - 1] in s && s[w[|w| - 1]].Canceled?
  }

  lemma {:induction false} ChainKnown(plan: Plan, s: Jobs, w: seq<string>, k: nat)
    requires Whole(plan, s) && IsWalk(DepEdges(plan.jobs), w) && w[0] in s && k < |w|
    ensures forall i :: 0 <= i <= k ==> w[i] in s
  {
    if k > 0 {
      ChainKnown(plan, s, w, k - 1);
      DepEdge(plan.jobs, w[k - 1], w[k]);
    }
  }

  lemma FailedChainIsNoticed(plan: Plan, s: Jobs, w: seq<string>)
    requires Acyclic(DepEdges(plan.jobs)) && Sound(plan, s) && Whole(plan, s)
    requires LeadsToDead(s, plan, w) && w[0] in s && s[w[|w| - 1]].Failed? && !s[w[0]].Canceled?
    ensures Hopeless(s, plan, w[0])
  {
    if !s[w[0]].Failed? {
      ChainNeverCompleted(s, plan, w);
      ChainKnown(plan, s, w, |w| - 1);
      ChainBlocks(s, plan, w);
    }
  }

  /** Of the two ways a dependency can be doomed the client notices one. */
  lemma DoomedSplits(plan: Plan, s: Jobs, dep: string)
    requires Acyclic(DepEdges(plan.jobs)) && Sound(plan, s) && Whole(plan, s) && dep in s
    ensures Doomed(s, plan, dep) <==> Hopeless(s, plan, dep) || LeadsToCanceled(s, plan, dep)
  {
    if Hopeless(s, plan, dep) {
      var w := HopelessChain(s, s, plan, dep);
    }
    if w :| IsWalk(DepEdges(plan.jobs), w) && w[0] == dep && w[|w| - 1] in s && s[w[|w| - 1]].Canceled? {
      assert LeadsToDead(s, plan, w);
    }
    var alone := [dep];
    assert IsWalk(DepEdges(plan.jobs), alone) && alone[0] == dep && alone[|alone| - 1] == dep;
    if w :| LeadsToDead(s, plan, w) && w[0] == dep && !LeadsToCanceled(s, plan, dep) {
      FailedChainIsNoticed(plan, s, w);
    }
  }

  /** How exact giving up is, in every state of a run read whole: the job can
      still run exactly when it has not ended, no dependency is hopeless, and
      no dependency leads to a cancelled job. */
  lemma GivingUpIsExact(plan: Plan, s: Jobs, job: string)
    requires Acyclic(DepEdges(plan.jobs)) && Sound(plan, s) && Whole(plan, s) && job in s
    ensures CanStillRun(plan, s, job) <==>
      !Terminal(s[job]) && forall d :: d in FindJob(plan.jobs, job).dependsOn ==>
        !Hopeless(s, plan, d) && !LeadsToCanceled(s, plan, d)
  {
    CanStillRunIff(plan, s, job);
    forall d | d in FindJob(plan.jobs, job).dependsOn
      ensures Doomed(s, plan, d) <==> Hopeless(s, plan, d) || LeadsToCanceled(s, plan, d)
    {
      DoomedSplits(plan, s, d);
    }
  }

  /** Nothing is held against any dependency, yet the job can no longer run. */
  ghost predicate WaitsInVain(plan: Plan, s: Jobs, job: string)
    requires Acyclic(DepEdges(plan.jobs))
  {
    !CanStillRun(plan, s, job) && forall d :: d in FindJob(plan.jobs, job).dependsOn ==> !Hopeless(s, plan, d)
  }

  /** The client waits in vain exactly when nothing is hopeless and the job
      itself has ended or a dependency leads to a cancelled job. */
  lemma WaitsInVainIff(plan: Plan, s: Jobs, job: string)
    requires Acyclic(DepEdges(plan.jobs)) && Sound(plan, s) && Whole(plan, s) && job in s
    ensures WaitsInVain(plan, s, job) <==>
      && (forall d :: d in FindJob(plan.jobs, job).dependsOn ==> !Hopeless(s, plan, d))
      && (Terminal(s[job]) || exists d :: d in FindJob(plan.jobs, job).dependsOn && LeadsToCanceled(s, plan, d))
  {
    GivingUpIsExact(plan, s, job);
  }

  // ---- runs by the coordinator's rules ----

  ghost predicate DepsCompleted(plan: Plan, s: Jobs, job: string)
  {
    forall d :: d in FindJob(plan.jobs, job).dependsOn ==> d in s && s[d].Completed?
  }

  /** Only jobs whose dependencies have completed are retried. */
  ghost predicate RetriesReady(plan: Plan, s: Jobs, es: seq<Event>)
    decreases |es|
  {
    es == [] || ((es[0].Retry? ==> DepsCompleted(plan, s, es[0].job)) && RetriesReady(plan, Next(s, es[0]), es[1..]))
  }

  /** A failure is reported by the holder of a claim, or follows a claim whose
      lease lapsed once too often: the job's dependencies had completed. */
  ghost predicate OnlyClaimedFail(plan: Plan, s: Jobs, es: seq<Event>)
    decreases |es|
  {
    es == [] || ((es[0].Fail? ==> DepsCompleted(plan, s, es[0].job)) && OnlyClaimedFail(plan, Next(s, es[0]), es[1..]))
  }

  ghost predicate FailedWereReady(plan: Plan, s: Jobs)
  {
    forall j :: j in s && s[j].Failed? ==> DepsCompleted(plan, s, j)
  }

  /** Then every retry is ready as well. */
  lemma {:induction false} RuledRetriesReady(plan: Plan, s: Jobs, es: seq<Event>)
    requires Possible(plan, s, es) && OnlyClaimedFail(plan, s, es) && FailedWereReady(plan, s)
    ensures RetriesReady(plan, s, es)
    decreases |es|
  {
    if es != [] {
      RuledRetriesReady(plan, Next(s, es[0]), es[1..]);
    }
  }

  /** No job that has not ended leads to a cancelled one. */
  ghost predicate OpenAreClear(plan: Plan, s: Jobs)
  {
    forall j :: j in s && !Terminal(s[j]) ==> !LeadsToCanceled(s, plan, j)
  }

  /** Below a completed job everything has completed. */
  lemma {:induction false} CompletedBelow(plan: Plan, s: Jobs, w: seq<string>)
    requires Sound(plan, s) && IsWalk(DepEdges(plan.jobs), w) && w[0] in s && s[w[0]].Completed?
    ensures w[|w| - 1] in s && s[w[|w| - 1]].Completed?
    decreases |w|
  {
    if |w| > 1 {
      DepEdge(plan.jobs, w[0], w[1]);
      CompletedBelow(plan, s, w[1..]);
    }
  }

  lemma ReadyIsClear(plan: Plan, s: Jobs, job: string)
    requires Sound(plan, s) && job in s && !s[job].Canceled? && DepsCompleted(plan, s, job)
    ensures !LeadsToCanceled(s, plan, job)
  {
    forall w | IsWalk(DepEdges(plan.jobs), w) && w[0] == job && w[|w| - 1] in s
      ensures !s[w[|w| - 1]].Canceled?
    {
      if |w| > 1 {
        DepEdge(plan.jobs, w[0], w[1]);
        CompletedBelow(plan, s, w[1..]);
      }
    }
  }

  lemma NothingNewCanceled(plan: Plan, s: Jobs, t: Jobs, job: string)
    requires forall j :: j in t && t[j].Canceled? ==> j in s && s[j].Canceled?
    ensures LeadsToCanceled(t, plan, job) ==> LeadsToCanceled(s, plan, job)
  {
  }

  lemma StepKeepsClear(plan: Plan, s: Jobs, e: Event)
    requires Sound(plan, s) && OpenAreClear(plan, s) && Allowed(plan, s, e)
    requires e.Retry? ==> DepsCompleted(plan, s, e.job)
    ensures OpenAreClear(plan, Next(s, e))
  {
    var t := Next(s, e);
    if !e.CancelRun? {
      forall j | j in t && !Terminal(t[j])
        ensures !LeadsToCanceled(t, plan, j)
      {
        NothingNewCanceled(plan, s, t, j);
        if e.Retry? && j == e.job {
          ReadyIsClear(plan, s, j);
        }
      }
    }
  }

  lemma {:induction false} RunKeepsClear(plan: Plan, s: Jobs, es: seq<Event>)
    requires Sound(plan, s) && OpenAreClear(plan, s) && Possible(plan, s, es) && RetriesReady(plan, s, es)
    ensures OpenAreClear(plan, After(s, es))
    decreases |es|
  {
    if es != [] {
      StepKeepsClear(plan, s, es[0]);
      EveryRunIsSound(plan, s, [es[0]] + []);
      FirstEvent(plan, s, es[0], []);
      RunKeepsClear(plan, Next(s, es[0]), es[1..]);
    }
  }

  lemma {:induction false} KeysStay(plan: Plan, s: Jobs, es: seq<Event>)
    requires Possible(plan, s, es)
    ensures After(s, es).Keys == s.Keys
    decreases |es|
  {
    if es != [] {
      KeysStay(plan, Next(s, es[0]), es[1..]);
    }
  }

  lemma ClearIsExact(plan: Plan, s: Jobs, job: string)
    requires Acyclic(DepEdges(plan.jobs)) && Sound(plan, s) && Whole(plan, s) && OpenAreClear(plan, s) && job in s
    ensures CanStillRun(plan, s, job) <==>
      !Terminal(s[job]) && forall d :: d in FindJob(plan.jobs, job).dependsOn ==> !Hopeless(s, plan, d)
  {
    GivingUpIsExact(plan, s, job);
    forall d | d in FindJob(plan.jobs, job).dependsOn && LeadsToCanceled(s, plan, d)
      ensures LeadsToCanceled(s, plan, job)
    {
      CanceledSpreads(plan, s, job, d);
    }
  }

  lemma CanceledSpreads(plan: Plan, s: Jobs, job: string, dep: string)
    requires dep in FindJob(plan.jobs, job).dependsOn && LeadsToCanceled(s, plan, dep)
    ensures LeadsToCanceled(s, plan, job)
  {
    var w :| IsWalk(DepEdges(plan.jobs), w) && w[0] == dep && w[|w| - 1] in s && s[w[|w| - 1]].Canceled?;
    DepEdge(plan.jobs, job, dep);
    var v := [job] + w;
    assert forall i :: 0 < i < |v| ==> v[i] == w[i - 1];
    assert IsWalk(DepEdges(plan.jobs), v) && v[|v| - 1] == w[|w| - 1];
  }

  /** Where only ready jobs are retried, as in every run without retries, only
      the job's own end is ever missed. */
  lemma ExactIfRetriesReady(plan: Plan, es: seq<Event>, job: string)
    requires Acyclic(DepEdges(plan.jobs)) && Whole(plan, Initial(plan)) && job in Initial(plan)
    requires Possible(plan, Initial(plan), es) && RetriesReady(plan, Initial(plan), es)
    ensures var s := After(Initial(plan), es);
      job in s && (CanStillRun(plan, s, job) <==>
        !Terminal(s[job]) && forall d :: d in FindJob(plan.jobs, job).dependsOn ==> !Hopeless(s, plan, d))
  {
    InitialIsClear(plan);
    ReachableIsSound(plan, es);
    KeysStay(plan, Initial(plan), es);
    RunKeepsClear(plan, Initial(plan), es);
    ClearIsExact(plan, After(Initial(plan), es), job);
  }

  lemma InitialIsClear(plan: Plan)
    ensures Sound(plan, Initial(plan)) && OpenAreClear(plan, Initial(plan)) && FailedWereReady(plan, Initial(plan))
  {
  }

  /** In every state that a run by the coordinator's rules reaches, retries
      included, the job can still run exactly when it has not ended and no
      dependency is hopeless. */
  lemma ExactInEveryRun(plan: Plan, es: seq<Event>, job: string)
    requires Acyclic(DepEdges(plan.jobs)) && Whole(plan, Initial(plan)) && job in Initial(plan)
    requires Possible(plan, Initial(plan), es) && OnlyClaimedFail(plan, Initial(plan), es)
    ensures var s := After(Initial(plan), es);
      job in s && (CanStillRun(plan, s, job) <==>
        !Terminal(s[job]) && forall d :: d in FindJob(plan.jobs, job).dependsOn ==> !Hopeless(s, plan, d))
  {
    InitialIsClear(plan);
    RuledRetriesReady(plan, Initial(plan), es);
    ExactIfRetriesReady(plan, es, job);
  }

  lemma {:induction false} NoRetryIsReady(plan: Plan, s: Jobs, es: seq<Event>)
    requires NoRetry(es)
    ensures RetriesReady(plan, s, es)
    decreases |es|
  {
    if es != [] {
      assert es[0] in es;
      NoRetryIsReady(plan, Next(s, es[0]), es[1..]);
    }
  }

  /** Nor is anything else missed without retries, whichever job fails. */
  lemma ExactWithoutRetries(plan: Plan, es: seq<Event>, job: string)
    requires Acyclic(DepEdges(plan.jobs)) && Whole(plan, Initial(plan)) && job in Initial(plan)
    requires Possible(plan, Initial(plan), es) && NoRetry(es)
    ensures var s := After(Initial(plan), es);
      job in s && (CanStillRun(plan, s, job) <==>
        !Terminal(s[job]) && forall d :: d in FindJob(plan.jobs, job).dependsOn ==> !Hopeless(s, plan, d))
  {
    NoRetryIsReady(plan, Initial(plan), es);
    ExactIfRetriesReady(plan, es, job);
  }

  function Two(a: Phase, b: Phase): Jobs
  {
    map["a" := a, "b" := b]
  }

  lemma TwoStart()
    ensures Initial(TWO_JOBS) == Two(Pending, Pending)
  {
    var a, b := TWO_JOBS.jobs[0], TWO_JOBS.jobs[1];
    assert a in TWO_JOBS.jobs && b in TWO_JOBS.jobs && a.id == "a" && b.id == "b";
  }

  lemma CanceledIsNotHopeless()
    ensures Acyclic(DepEdges(TWO_JOBS.jobs)) && WaitsInVain(TWO_JOBS, Two(Canceled, Canceled), "b")
  {
    TwoJobs();
    assert LeadsToDead(Two(Canceled, Canceled), TWO_JOBS, ["a"]);
    DoomedNeverRuns(TWO_JOBS, Two(Canceled, Canceled), "b", "a");
  }

  /** A run cancelled while b waits for a: b can never run, yet nothing is held
      against a, so the client waits until its deadline. */
  lemma CancellationGoesUnnoticed()
    ensures Acyclic(DepEdges(TWO_JOBS.jobs))
    ensures Possible(TWO_JOBS, Initial(TWO_JOBS), [CancelRun]) && OnlyClaimedFail(TWO_JOBS, Initial(TWO_JOBS), [CancelRun])
    ensures After(Initial(TWO_JOBS), [CancelRun]) == Two(Canceled, Canceled)
    ensures WaitsInVain(TWO_JOBS, Two(Canceled, Canceled), "b")
  {
    TwoStart();
    CanceledIsNotHopeless();
    FirstEvent(TWO_JOBS, Two(Pending, Pending), CancelRun, []);
    assert [CancelRun] == [CancelRun] + [] && Next(Two(Pending, Pending), CancelRun) == Two(Canceled, Canceled);
  }
}
