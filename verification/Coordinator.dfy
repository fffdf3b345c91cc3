/** The coordinator's side of a run, as the client's comments and its fold of
    the event stream state it: a job is runnable once every dependency has
    completed, a terminal job stays terminal, and only a retry re-opens a
    failed one. Against it, the client's early "this can never run". */
module Coordinator {
  import opened Walks
  import opened Plans

  datatype Phase = Pending | Running | Completed | Failed | Canceled

  type Jobs = map<string, Phase>

  datatype Event =
    | Claim(job: string)
    | Memoize(job: string)
    | Requeue(job: string)
    | Succeed(job: string)
    | Fail(job: string)
    | Retry(job: string)
    | CancelRun

  predicate Terminal(p: Phase)
  {
    p.Completed? || p.Failed? || p.Canceled?
  }

  predicate Runnable(plan: Plan, s: Jobs, job: string)
  {
    && job in s && s[job].Pending?
    && forall d :: d in FindJob(plan.jobs, job).dependsOn ==> d in s && s[d].Completed?
  }

  predicate Allowed(plan: Plan, s: Jobs, e: Event)
  {
    match e
    case Claim(j) => Runnable(plan, s, j)
    case Memoize(j) => Runnable(plan, s, j)
    case Requeue(j) => j in s && s[j].Running?
    case Succeed(j) => j in s && s[j].Running?
    case Fail(j) => j in s && !Terminal(s[j])
    case Retry(j) => j in s && s[j].Failed?
    case CancelRun => true
  }

  function Next(s: Jobs, e: Event): Jobs
  {
    match e
    case Claim(j) => s[j := Running]
    case Memoize(j) => s[j := Completed]
    case Requeue(j) => s[j := Pending]
    case Succeed(j) => s[j := Completed]
    case Fail(j) => s[j := Failed]
    case Retry(j) => s[j := Pending]
    case CancelRun => map j | j in s :: if Terminal(s[j]) then s[j] else Canceled
  }

  function Initial(plan: Plan): Jobs
  {
    map j | j in plan.jobs :: j.id := Pending
  }

  ghost predicate Possible(plan: Plan, s: Jobs, es: seq<Event>)
    decreases |es|
  {
    es == [] || (Allowed(plan, s, es[0]) && Possible(plan, Next(s, es[0]), es[1..]))
  }

  function After(s: Jobs, es: seq<Event>): Jobs
    decreases |es|
  {
    if es == [] then s else After(Next(s, es[0]), es[1..])
  }

  /** What ran had all its dependencies completed. */
  ghost predicate Sound(plan: Plan, s: Jobs)
  {
    forall j, d :: j in s && (s[j].Running? || s[j].Completed?) && d in FindJob(plan.jobs, j).dependsOn
      ==> d in s && s[d].Completed?
  }

  /** Every run, retries included, keeps Sound. */
  lemma {:induction false} EveryRunIsSound(plan: Plan, s: Jobs, es: seq<Event>)
    requires Sound(plan, s) && Possible(plan, s, es)
    ensures Sound(plan, After(s, es))
    decreases |es|
  {
    if es != [] {
      EveryRunIsSound(plan, Next(s, es[0]), es[1..]);
    }
  }

  /** In every state a run can reach, what runs or has completed had all its
      dependencies completed. */
  lemma ReachableIsSound(plan: Plan, es: seq<Event>)
    requires Possible(plan, Initial(plan), es)
    ensures Sound(plan, After(Initial(plan), es))
  {
    EveryRunIsSound(plan, Initial(plan), es);
  }

  // ---- isTransitivelyBlocked ----

  /** True when some dependency of dep, followed only through jobs the state
      knows, has failed. */
  predicate IsTransitivelyBlocked(s: Jobs, plan: Plan, dep: string)
    requires Acyclic(DepEdges(plan.jobs))
    decreases Below(DepEdges(plan.jobs), dep)
  {
    exists t :: t in FindJob(plan.jobs, dep).dependsOn && t in s &&
      (s[t].Failed? ||
       (DepEdge(plan.jobs, dep, t);
        BelowShrinks(DepEdges(plan.jobs), dep, t);
        IsTransitivelyBlocked(s, plan, t)))
  }

  /** A dependency chain to a failed job, every member after the first known
      to the state. */
  ghost predicate FailedChain(s: Jobs, plan: Plan, w: seq<string>)
  {
    && IsWalk(DepEdges(plan.jobs), w) && |w| > 1
    && (forall i :: 0 < i < |w| ==> w[i] in s)
    && s[w[|w| - 1]].Failed?
  }

  lemma ChainGrows(s: Jobs, plan: Plan, dep: string, w: seq<string>)
    requires IsWalk(DepEdges(plan.jobs), w) && (forall i :: 0 <= i < |w| ==> w[i] in s) && s[w[|w| - 1]].Failed?
    requires (dep, w[0]) in DepEdges(plan.jobs)
    ensures FailedChain(s, plan, [dep] + w)
  {
  }

  lemma {:induction false} BlockedHasChain(s: Jobs, plan: Plan, dep: string) returns (w: seq<string>)
    requires Acyclic(DepEdges(plan.jobs)) && IsTransitivelyBlocked(s, plan, dep)
    ensures FailedChain(s, plan, w) && w[0] == dep
    decreases Below(DepEdges(plan.jobs), dep)
  {
    var t :| t in FindJob(plan.jobs, dep).dependsOn && t in s &&
      (s[t].Failed? || IsTransitivelyBlocked(s, plan, t));
    DepEdge(plan.jobs, dep, t);
    var v := [t];
    if !s[t].Failed? {
      BelowShrinks(DepEdges(plan.jobs), dep, t);
      v := BlockedHasChain(s, plan, t);
    }
    ChainGrows(s, plan, dep, v);
    w := [dep] + v;
  }

  lemma {:induction false} ChainBlocks(s: Jobs, plan: Plan, w: seq<string>)
    requires Acyclic(DepEdges(plan.jobs)) && FailedChain(s, plan, w)
    ensures IsTransitivelyBlocked(s, plan, w[0])
    decreases |w|
  {
    DepEdge(plan.jobs, w[0], w[1]);
    if |w| > 2 {
      ChainBlocks(s, plan, w[1..]);
    }
  }

  /** The search answers true exactly when a failed chain leaves dep. */
  lemma BlockedIffChain(s: Jobs, plan: Plan, dep: string)
    requires Acyclic(DepEdges(plan.jobs))
    ensures IsTransitivelyBlocked(s, plan, dep) <==> exists w :: FailedChain(s, plan, w) && w[0] == dep
  {
    if IsTransitivelyBlocked(s, plan, dep) {
      var w := BlockedHasChain(s, plan, dep);
    }
    forall w | FailedChain(s, plan, w) && w[0] == dep
      ensures IsTransitivelyBlocked(s, plan, dep)
    {
      ChainBlocks(s, plan, w);
    }
  }

  // ---- fail fast ----

  /** What the client holds against a dependency when it gives up. */
  ghost predicate Hopeless(view: Jobs, plan: Plan, dep: string)
    requires Acyclic(DepEdges(plan.jobs))
  {
    dep in view && (view[dep].Failed? || (view[dep].Pending? && IsTransitivelyBlocked(view, plan, dep)))
  }

  /** A read of the run: a part of it, as it was at some moment. */
  ghost predicate ViewOf(view: Jobs, s: Jobs)
  {
    forall j :: j in view ==> j in s && s[j] == view[j]
  }

  /** A job that will not complete unless a retry re-opens it. */
  predicate Dead(p: Phase)
  {
    p.Failed? || p.Canceled?
  }

  ghost predicate LeadsToDead(s: Jobs, plan: Plan, w: seq<string>)
  {
    IsWalk(DepEdges(plan.jobs), w) && w[|w| - 1] in s && Dead(s[w[|w| - 1]])
  }

  /** Nothing on a chain to a dead job has completed. */
  lemma {:induction false} ChainNeverCompleted(s: Jobs, plan: Plan, w: seq<string>)
    requires Sound(plan, s) && LeadsToDead(s, plan, w)
    ensures w[0] in s ==> !s[w[0]].Completed?
    ensures w[0] in s && |w| > 1 ==> !s[w[0]].Running?
    decreases |w|
  {
    if |w| > 1 {
      DepEdge(plan.jobs, w[0], w[1]);
      ChainNeverCompleted(s, plan, w[1..]);
    }
  }

  /** Only a retry of its dead end opens a chain again. */
  lemma {:induction false} ChainStays(s: Jobs, plan: Plan, w: seq<string>, es: seq<Event>)
    requires LeadsToDead(s, plan, w) && Possible(plan, s, es)
    requires Retry(w[|w| - 1]) !in es
    ensures LeadsToDead(After(s, es), plan, w)
    decreases |es|
  {
    if es != [] {
      assert es[0] in es;
      ChainStays(Next(s, es[0]), plan, w, es[1..]);
    }
  }

  lemma HopelessChain(view: Jobs, s: Jobs, plan: Plan, dep: string) returns (w: seq<string>)
    requires Acyclic(DepEdges(plan.jobs)) && Hopeless(view, plan, dep) && ViewOf(view, s)
    ensures LeadsToDead(s, plan, w) && w[0] == dep
  {
    if view[dep].Failed? {
      w := [dep];
    } else {
      w := BlockedHasChain(view, plan, dep);
    }
  }

  /** From any moment the view was read at, whatever happens afterwards
      without a retry, the job is never runnable. */
  ghost predicate NeverRunnable(view: Jobs, plan: Plan, job: string)
  {
    forall s, es :: Sound(plan, s) && ViewOf(view, s) && Possible(plan, s, es) && (forall j :: Retry(j) !in es)
      ==> !Runnable(plan, After(s, es), job)
  }

  lemma FailFastIsSound(view: Jobs, plan: Plan, job: string, dep: string)
    requires Acyclic(DepEdges(plan.jobs))
    requires dep in FindJob(plan.jobs, job).dependsOn && Hopeless(view, plan, dep)
    ensures NeverRunnable(view, plan, job)
  {
    forall s, es | Sound(plan, s) && ViewOf(view, s) && Possible(plan, s, es) && (forall j :: Retry(j) !in es)
      ensures !Runnable(plan, After(s, es), job)
    {
      var w := HopelessChain(view, s, plan, dep);
      ChainStays(s, plan, w, es);
      EveryRunIsSound(plan, s, es);
      ChainNeverCompleted(After(s, es), plan, w);
    }
  }

  /** With retries allowed, a hopeless job that became runnable after all saw
      a retry at the failed end of every chain that held it back. */
  lemma OnlyARetryReopens(s: Jobs, plan: Plan, job: string, w: seq<string>, es: seq<Event>)
    requires Sound(plan, s) && LeadsToDead(s, plan, w) && w[0] in FindJob(plan.jobs, job).dependsOn
    requires Possible(plan, s, es) && Runnable(plan, After(s, es), job)
    ensures Retry(w[|w| - 1]) in es
  {
    if Retry(w[|w| - 1]) !in es {
      ChainStays(s, plan, w, es);
      EveryRunIsSound(plan, s, es);
      ChainNeverCompleted(After(s, es), plan, w);
      assert false;
    }
  }

  const TWO_JOBS := Plan([EMPTY_JOB.(id := "a"), EMPTY_JOB.(id := "b", dependsOn := ["a"])], [])

  const A_FAILED: Jobs := map["a" := Failed, "b" := Pending]

  lemma TwoJobs()
    ensures FindJob(TWO_JOBS.jobs, "a").dependsOn == [] && FindJob(TWO_JOBS.jobs, "b").dependsOn == ["a"]
    ensures Acyclic(DepEdges(TWO_JOBS.jobs))
  {
    var a, b := TWO_JOBS.jobs[0], TWO_JOBS.jobs[1];
    assert FindJob([b], "b") == b && TWO_JOBS.jobs[1..] == [b];
    forall x, y ensures (x, y) in DepEdges(TWO_JOBS.jobs) <==> (x, y) == ("b", "a") {
      DepEdge(TWO_JOBS.jobs, x, y);
    }
    assert DepEdges(TWO_JOBS.jobs) == {("b", "a")};
    OneEdgeIsAcyclic("b", "a");
  }

  lemma FirstEvent(plan: Plan, s: Jobs, e: Event, rest: seq<Event>)
    ensures After(s, [e] + rest) == After(Next(s, e), rest)
    ensures Possible(plan, s, [e] + rest) <==> Allowed(plan, s, e) && Possible(plan, Next(s, e), rest)
  {
  }

  /** A retry does re-open one, which is why the client keeps waiting on
      --retry runs: b is hopeless while a has failed, and runnable after. */
  lemma RetryCanReopen()
    ensures Acyclic(DepEdges(TWO_JOBS.jobs)) && Sound(TWO_JOBS, A_FAILED) && Hopeless(A_FAILED, TWO_JOBS, "a")
    ensures "a" in FindJob(TWO_JOBS.jobs, "b").dependsOn
    ensures var es := [Retry("a"), Claim("a"), Succeed("a")];
      Possible(TWO_JOBS, A_FAILED, es) && Runnable(TWO_JOBS, After(A_FAILED, es), "b")
  {
    TwoJobs();
    var s1 := Next(A_FAILED, Retry("a"));
    var s2 := Next(s1, Claim("a"));
    FirstEvent(TWO_JOBS, s2, Succeed("a"), []);
    FirstEvent(TWO_JOBS, s1, Claim("a"), [Succeed("a")]);
    FirstEvent(TWO_JOBS, A_FAILED, Retry("a"), [Claim("a"), Succeed("a")]);
    assert [Retry("a"), Claim("a"), Succeed("a")] == [Retry("a")] + [Claim("a"), Succeed("a")];
    assert [Claim("a"), Succeed("a")] == [Claim("a")] + [Succeed("a")] && [Succeed("a")] == [Succeed("a")] + [];
  }
}
