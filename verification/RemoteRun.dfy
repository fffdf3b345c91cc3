/** One process running several jobs against the coordinator: for each start
    of a job, its heartbeat races the hook that reports its result, both over
    the shared lease table. Steps interleave freely; what the server answers
    and when contexts end is chosen by the environment. */
module RemoteRun {
  import opened Leases
  import opened Options

  /** A start's heartbeat: between beats, awaiting an answer, told the lease is
      lost, about to cancel the job, or over. */
  datatype Beat = Ticking | Asking | ToldLost | Stopping | Gone

  /** The hook that runs when the job ends: not called yet, reporting, or
      returned. The runner may call it again, when the job's finalizer fails
      after a step did. */
  datatype Hook = Live | Reporting | Returned

  /** How one call of the hook ended: nothing sent because the lease was gone,
      the result accepted, or given up and listed. */
  datatype CallEnd = Skipped | Delivered | GivenUp

  /** `stopped`: the heartbeat's context is over. `canceled`: the job's context
      was cancelled as lease-lost. `calls`: the hook's calls that have
      returned. `updates`: terminal updates sent. `accepted`: one of them was
      answered without an error, the result taken or superseded by another's. */
  datatype JobStart = JobStart(
    job: string, beat: Beat, stopped: bool, canceled: bool,
    hook: Hook, calls: seq<CallEnd>, updates: nat, accepted: bool)

  datatype Run = Run(table: Table, starts: seq<JobStart>, unrecorded: seq<string>)

  datatype Reply = Accepted | Rejected(giveUp: bool)

  datatype Step =
    | SetBeat(job: string, d: int)
    | Begin(job: string)
    | Tick(g: nat)
    | Answer(g: nat, lost: bool)
    | BeatStops(g: nat)
    | TellLost(g: nat)
    | CancelJob(g: nat)
    | ContextEnds(g: nat)
    | JobEnds(g: nat)
    | Update(g: nat, reply: Reply)

  const EMPTY := Run(map[], [], [])

  /** Nothing later was started for the job. */
  predicate Current(r: Run, g: nat)
    requires g < |r.starts|
  {
    forall k :: g < k < |r.starts| ==> r.starts[k].job != r.starts[g].job
  }

  /** Enabled, except that a job may start again while an earlier start's
      heartbeat may still be told that the lease is lost. A job starts again,
      and its hook is called again, only after the call before has returned. */
  predicate Possible(r: Run, step: Step)
  {
    match step
    case SetBeat(_, _) => true
    case Begin(job) => forall s :: s in r.starts && s.job == job ==> s.hook.Returned?
    case Tick(g) => g < |r.starts| && r.starts[g].beat.Ticking?
    case Answer(g, _) => g < |r.starts| && r.starts[g].beat.Asking?
    case BeatStops(g) => g < |r.starts| && r.starts[g].beat.Ticking? && r.starts[g].stopped
    case TellLost(g) => g < |r.starts| && r.starts[g].beat.ToldLost?
    case CancelJob(g) => g < |r.starts| && r.starts[g].beat.Stopping?
    case ContextEnds(g) => g < |r.starts|
    case JobEnds(g) => g < |r.starts| && !r.starts[g].hook.Reporting? && Current(r, g)
    case Update(g, _) => g < |r.starts| && r.starts[g].hook.Reporting?
  }

  /** A heartbeat that will not touch the lease table again. */
  predicate Quiet(b: Beat)
  {
    b.Stopping? || b.Gone?
  }

  /** A job starts again only once its earlier heartbeats are quiet. */
  predicate Enabled(r: Run, step: Step)
  {
    Possible(r, step) && (step.Begin? ==> forall s :: s in r.starts && s.job == step.job ==> Quiet(s.beat))
  }

  function With(r: Run, g: nat, s: JobStart): Run
    requires g < |r.starts|
  {
    r.(starts := r.starts[g := s])
  }

  function Stop(r: Run, beat: Option<nat>): Run
  {
    if beat.Some? && beat.value < |r.starts| then With(r, beat.value, r.starts[beat.value].(stopped := true)) else r
  }

  function AfterBegin(r: Run, job: string): Run
  {
    r.(table := Start(r.table, job, |r.starts|),
       starts := r.starts + [JobStart(job, Ticking, false, false, Live, [], 0, false)])
  }

  function AfterTellLost(r: Run, g: nat): Run
    requires g < |r.starts|
  {
    var s := r.starts[g];
    var genuine := !Get(r.table, s.job).done;
    With(r, g, s.(beat := if genuine then Stopping else Gone)).(table := Lost(r.table, s.job))
  }

  /** The hook is called: it returns at once when the lease was lost before. */
  function AfterJobEnds(r: Run, g: nat): Run
    requires g < |r.starts|
  {
    var lease := Get(r.table, r.starts[g].job);
    var q := Stop(r, lease.stopBeat).(table := Terminal(r.table, r.starts[g].job));
    var s := q.starts[g];
    With(q, g, if lease.preempted then Ended(s, Skipped) else s.(hook := Reporting))
  }

  function Ended(s: JobStart, end: CallEnd): JobStart
  {
    s.(hook := Returned, calls := s.calls + [end])
  }

  function AfterUpdate(r: Run, g: nat, reply: Reply): Run
    requires g < |r.starts|
  {
    var s := r.starts[g].(updates := r.starts[g].updates + 1);
    match reply
    case Accepted => With(r, g, Ended(s, Delivered).(accepted := true))
    case Rejected(false) => With(r, g, s)
    case Rejected(true) => With(r, g, Ended(s, GivenUp)).(unrecorded := r.unrecorded + [s.job])
  }

  /** What a step of the heartbeat or its context does to the start. */
  function Beaten(s: JobStart, step: Step): JobStart
  {
    match step
    case Tick(_) => s.(beat := Asking)
    case Answer(_, lost) => s.(beat := if lost then ToldLost else Ticking)
    case BeatStops(_) => s.(beat := Gone)
    case CancelJob(_) => s.(beat := Gone, canceled := true, stopped := true)
    case ContextEnds(_) => s.(stopped := true)
    case _ => s
  }

  function Next(r: Run, step: Step): Run
    requires Possible(r, step)
  {
    match step
    case SetBeat(job, d) => r.(table := SetInterval(r.table, job, d))
    case Begin(job) => AfterBegin(r, job)
    case TellLost(g) => AfterTellLost(r, g)
    case JobEnds(g) => AfterJobEnds(r, g)
    case Update(g, reply) => AfterUpdate(r, g, reply)
    case _ => With(r, step.g, Beaten(r.starts[step.g], step))
  }

  ghost predicate AllEnabled(r: Run, steps: seq<Step>)
    decreases |steps|
  {
    steps == [] || (Enabled(r, steps[0]) && AllEnabled(Next(r, steps[0]), steps[1..]))
  }

  function After(r: Run, steps: seq<Step>): Run
    requires AllEnabled(r, steps)
    decreases |steps|
  {
    if steps == [] then r else After(Next(r, steps[0]), steps[1..])
  }

  // ---- the invariant ----

  /** The heartbeat decided that the lease was lost while the job was live. */
  predicate LeaseGone(s: JobStart)
  {
    s.beat.Stopping? || s.canceled
  }

  ghost predicate Consistent(s: JobStart)
  {
    && (s.hook.Live? ==> s.calls == [] && s.updates == 0)
    && (!s.hook.Live? || s.canceled ==> s.stopped)
    && (s.hook.Returned? ==> s.calls != [])
    && (LeaseGone(s) ==> s.updates == 0 && !s.hook.Reporting? && forall c :: c in s.calls ==> c.Skipped?)
    && (!LeaseGone(s) ==> s.updates >= |s.calls| && forall c :: c in s.calls ==> !c.Skipped?)
    && (s.canceled ==> s.beat.Gone?)
    && (s.accepted <==> Delivered in s.calls)
  }

  /** The table speaks of a job's latest start; earlier ones are over. */
  ghost predicate Agrees(r: Run, g: nat)
    requires g < |r.starts|
  {
    var s, lease := r.starts[g], Get(r.table, r.starts[g].job);
    if Current(r, g) then
      lease.stopBeat == Some(g) && (lease.done <==> !s.hook.Live?) && (lease.preempted <==> LeaseGone(s))
    else
      s.hook.Returned? && Quiet(s.beat)
  }

  function GivenUps(calls: seq<CallEnd>): nat
  {
    multiset(calls)[GivenUp]
  }

  /** The jobs whose result was given up, once for each such call of the hook. */
  ghost function Listed(starts: seq<JobStart>): multiset<string>
  {
    if starts == [] then multiset{}
    else
      var n := |starts| - 1;
      Listed(starts[..n]) + multiset{}[starts[n].job := GivenUps(starts[n].calls)]
  }

  ghost predicate Inv(r: Run)
  {
    && (forall g :: 0 <= g < |r.starts| ==> Consistent(r.starts[g]) && Agrees(r, g))
    && multiset(r.unrecorded) == Listed(r.starts)
  }

  /** Changing one start changes the list by what it gave up in between. */
  lemma {:induction false} ListedUpdate(starts: seq<JobStart>, g: nat, s: JobStart)
    requires g < |starts| && s.job == starts[g].job && GivenUps(s.calls) >= GivenUps(starts[g].calls)
    ensures Listed(starts[g := s])
         == Listed(starts) + multiset{}[s.job := GivenUps(s.calls) - GivenUps(starts[g].calls)]
  {
    var n := |starts| - 1;
    var t := starts[g := s];
    if g == n {
      assert t[..n] == starts[..n];
    } else {
      assert t[..n] == starts[..n][g := s] && t[n] == starts[n];
      ListedUpdate(starts[..n], g, s);
    }
  }

  lemma ListGrows(starts: seq<JobStart>, unrecorded: seq<string>, g: nat, s: JobStart)
    requires g < |starts| && s.job == starts[g].job && multiset(unrecorded) == Listed(starts)
    requires s.calls == starts[g].calls + [GivenUp]
    ensures multiset(unrecorded + [s.job]) == Listed(starts[g := s])
  {
    assert GivenUps(s.calls) == GivenUps(starts[g].calls) + 1;
    ListedUpdate(starts, g, s);
  }

  /** Which start is the latest depends on the jobs alone. */
  lemma CurrentKept(r: Run, q: Run, k: nat)
    requires |q.starts| == |r.starts| && k < |r.starts|
    requires forall i :: 0 <= i < |r.starts| ==> q.starts[i].job == r.starts[i].job
    ensures Current(q, k) <==> Current(r, k)
  {
  }

  lemma EarlierIsNotCurrent(r: Run, k: nat, g: nat)
    requires k < |r.starts| && g < |r.starts| && k != g
    requires r.starts[k].job == r.starts[g].job && Current(r, g)
    ensures k < g && !Current(r, k)
  {
  }

  /** Changing start g, and the table at its job only, leaves every other start in order. */
  lemma OthersKept(r: Run, q: Run, g: nat)
    requires Inv(r) && g < |r.starts| && |q.starts| == |r.starts|
    requires q.starts[g].job == r.starts[g].job
    requires forall k :: 0 <= k < |r.starts| && k != g ==> q.starts[k] == r.starts[k]
    requires forall j :: j != r.starts[g].job ==> Get(q.table, j) == Get(r.table, j)
    requires q.table == r.table || Current(r, g)
    requires Consistent(q.starts[g]) && Agrees(q, g)
    ensures forall k :: 0 <= k < |q.starts| ==> Consistent(q.starts[k]) && Agrees(q, k)
  {
    forall k | 0 <= k < |r.starts| && k != g
      ensures Consistent(q.starts[k]) && Agrees(q, k)
    {
      CurrentKept(r, q, k);
      assert Agrees(r, k);
      if r.starts[k].job == r.starts[g].job && Current(r, g) {
        EarlierIsNotCurrent(r, k, g);
      }
    }
  }

  /** The last piece of each step: start g changed and nothing was listed. */
  lemma OneChanged(r: Run, q: Run, g: nat)
    requires Inv(r) && g < |r.starts| && |q.starts| == |r.starts| && q.starts == r.starts[g := q.starts[g]]
    requires q.starts[g].job == r.starts[g].job
    requires forall j :: j != r.starts[g].job ==> Get(q.table, j) == Get(r.table, j)
    requires q.table == r.table || Current(r, g)
    requires Consistent(q.starts[g])
    requires Current(r, g) ==> var s, lease := q.starts[g], Get(q.table, r.starts[g].job);
      lease.stopBeat == Some(g) && (lease.done <==> !s.hook.Live?) && (lease.preempted <==> LeaseGone(s))
    requires !Current(r, g) ==> q.starts[g].hook.Returned? && Quiet(q.starts[g].beat)
    requires GivenUps(q.starts[g].calls) == GivenUps(r.starts[g].calls) && q.unrecorded == r.unrecorded
    ensures Inv(q)
  {
    CurrentKept(r, q, g);
    OthersKept(r, q, g);
    ListedUpdate(r.starts, g, q.starts[g]);
  }

  lemma BeatStep(r: Run, step: Step)
    requires Inv(r) && Enabled(r, step)
    requires step.Tick? || step.Answer? || step.BeatStops? || step.CancelJob? || step.ContextEnds?
    ensures Inv(With(r, step.g, Beaten(r.starts[step.g], step)))
  {
    assert Consistent(r.starts[step.g]) && Agrees(r, step.g);
    OneChanged(r, With(r, step.g, Beaten(r.starts[step.g], step)), step.g);
  }

  lemma TellLostStep(r: Run, g: nat)
    requires Inv(r) && g < |r.starts| && r.starts[g].beat.ToldLost?
    ensures Inv(AfterTellLost(r, g))
  {
    assert Consistent(r.starts[g]) && Agrees(r, g);
    OneChanged(r, AfterTellLost(r, g), g);
  }

  lemma JobEndsStep(r: Run, g: nat)
    requires Inv(r) && g < |r.starts| && !r.starts[g].hook.Reporting? && Current(r, g)
    ensures Inv(AfterJobEnds(r, g))
  {
    assert Consistent(r.starts[g]) && Agrees(r, g);
    OneChanged(r, AfterJobEnds(r, g), g);
  }

  lemma UpdateKeepsOthers(r: Run, g: nat, reply: Reply)
    requires Inv(r) && g < |r.starts| && r.starts[g].hook.Reporting?
    ensures var q := AfterUpdate(r, g, reply);
      forall k :: 0 <= k < |q.starts| ==> Consistent(q.starts[k]) && Agrees(q, k)
  {
    var q := AfterUpdate(r, g, reply);
    assert Consistent(r.starts[g]) && Agrees(r, g);
    assert Current(r, g);
    CurrentKept(r, q, g);
    OthersKept(r, q, g);
  }

  lemma UpdateStep(r: Run, g: nat, reply: Reply)
    requires Inv(r) && g < |r.starts| && r.starts[g].hook.Reporting?
    ensures Inv(AfterUpdate(r, g, reply))
  {
    UpdateKeepsOthers(r, g, reply);
    var s := AfterUpdate(r, g, reply).starts[g];
    if reply == Rejected(true) {
      ListGrows(r.starts, r.unrecorded, g, s);
    } else {
      assert GivenUps(s.calls) == GivenUps(r.starts[g].calls);
      ListedUpdate(r.starts, g, s);
    }
  }

  ghost predicate MayBegin(r: Run, job: string)
  {
    forall s :: s in r.starts && s.job == job ==> s.hook.Returned? && Quiet(s.beat)
  }

  lemma BeginKeepsEarlier(r: Run, job: string, g: nat)
    requires Inv(r) && MayBegin(r, job) && g < |r.starts|
    ensures Agrees(AfterBegin(r, job), g)
  {
    var q, n := AfterBegin(r, job), |r.starts|;
    assert q.starts[g] == r.starts[g] && q.starts[n].job == job;
    assert Agrees(r, g);
    if r.starts[g].job == job {
      assert r.starts[g] in r.starts;
      EarlierIsNotCurrent(q, g, n);
    } else {
      assert forall k :: 0 <= k < n ==> q.starts[k].job == r.starts[k].job;
      assert Current(q, g) <==> Current(r, g);
    }
  }

  lemma BeginIsCurrent(r: Run, job: string)
    ensures var q := AfterBegin(r, job); Consistent(q.starts[|r.starts|]) && Agrees(q, |r.starts|)
    ensures Listed(AfterBegin(r, job).starts) == Listed(r.starts)
  {
  }

  lemma BeginStep(r: Run, job: string)
    requires Inv(r) && MayBegin(r, job)
    ensures Inv(AfterBegin(r, job))
  {
    var q := AfterBegin(r, job);
    BeginIsCurrent(r, job);
    forall g | 0 <= g < |q.starts|
      ensures Consistent(q.starts[g]) && Agrees(q, g)
    {
      if g < |r.starts| {
        BeginKeepsEarlier(r, job, g);
        assert Consistent(r.starts[g]);
      }
    }
  }

  lemma SetBeatStep(r: Run, job: string, d: int)
    requires Inv(r)
    ensures Inv(r.(table := SetInterval(r.table, job, d)))
  {
  }

  lemma StepKeepsInv(r: Run, step: Step)
    requires Inv(r) && Enabled(r, step)
    ensures Inv(Next(r, step))
  {
    match step
    case SetBeat(job, d) => SetBeatStep(r, job, d);
    case Begin(job) => BeginStep(r, job);
    case TellLost(g) => TellLostStep(r, g);
    case JobEnds(g) => JobEndsStep(r, g);
    case Update(g, reply) => UpdateStep(r, g, reply);
    case _ => BeatStep(r, step);
  }

  lemma {:induction false} EveryRun(r: Run, steps: seq<Step>)
    requires Inv(r) && AllEnabled(r, steps)
    ensures Inv(After(r, steps))
    decreases |steps|
  {
    if steps != [] {
      StepKeepsInv(r, steps[0]);
      EveryRun(Next(r, steps[0]), steps[1..]);
    }
  }

  // ---- what every run keeps ----

  /** No start both has its context cancelled as lease-lost and sends a
      terminal update, in any interleaving, however often its hook is called. */
  lemma NeverCanceledAndReported(steps: seq<Step>, g: nat)
    requires AllEnabled(EMPTY, steps) && g < |After(EMPTY, steps).starts|
    ensures var s := After(EMPTY, steps).starts[g]; !(LeaseGone(s) && s.updates > 0)
  {
    EveryRun(EMPTY, steps);
    assert Consistent(After(EMPTY, steps).starts[g]);
  }

  /** A lost lease stays lost, a call of the hook that returned keeps its end,
      and one that has begun to report will not end as skipped. */
  ghost predicate Keeps(s: JobStart, t: JobStart)
  {
    && t.job == s.job
    && (LeaseGone(s) ==> LeaseGone(t))
    && (!s.hook.Live? ==> !t.hook.Live?)
    && s.calls <= t.calls && s.updates <= t.updates && (s.accepted ==> t.accepted)
    && (s.hook.Reporting? ==> if |t.calls| == |s.calls| then t.hook.Reporting? else !t.calls[|s.calls|].Skipped?)
  }

  lemma WithKeeps(r: Run, k: nat, s: JobStart, g: nat)
    requires k < |r.starts| && g < |r.starts| && Keeps(r.starts[k], s)
    ensures Keeps(r.starts[g], With(r, k, s).starts[g])
  {
  }

  lemma JobEndsKeeps(r: Run, k: nat, g: nat)
    requires k < |r.starts| && g < |r.starts| && !r.starts[k].hook.Reporting?
    ensures |AfterJobEnds(r, k).starts| == |r.starts| && Keeps(r.starts[g], AfterJobEnds(r, k).starts[g])
  {
    var q := AfterJobEnds(r, k);
    assert g != k ==> q.starts[g] == r.starts[g] || q.starts[g] == r.starts[g].(stopped := true);
  }

  lemma UpdateKeeps(r: Run, k: nat, reply: Reply, g: nat)
    requires k < |r.starts| && g < |r.starts| && r.starts[k].hook.Reporting?
    ensures |AfterUpdate(r, k, reply).starts| == |r.starts| && Keeps(r.starts[g], AfterUpdate(r, k, reply).starts[g])
  {
    WithKeeps(r, k, AfterUpdate(r, k, reply).starts[k], g);
  }

  lemma StepKeeps(r: Run, step: Step, g: nat)
    requires Possible(r, step) && g < |r.starts|
    ensures |r.starts| <= |Next(r, step).starts| && Keeps(r.starts[g], Next(r, step).starts[g])
  {
    match step
    case SetBeat(_, _) =>
    case Begin(_) =>
    case TellLost(k) => WithKeeps(r, k, AfterTellLost(r, k).starts[k], g);
    case JobEnds(k) => JobEndsKeeps(r, k, g);
    case Update(k, reply) => UpdateKeeps(r, k, reply, g);
    case _ => WithKeeps(r, step.g, Beaten(r.starts[step.g], step), g);
  }

  lemma KeepsOn(s: JobStart, t: JobStart, u: JobStart)
    requires Keeps(s, t) && Keeps(t, u)
    ensures Keeps(s, u)
  {
  }

  lemma {:induction false} RunKeeps(r: Run, steps: seq<Step>, g: nat)
    requires AllEnabled(r, steps) && g < |r.starts|
    ensures |r.starts| <= |After(r, steps).starts| && Keeps(r.starts[g], After(r, steps).starts[g])
    decreases |steps|
  {
    if steps != [] {
      var q := Next(r, steps[0]);
      StepKeeps(r, steps[0], g);
      RunKeeps(q, steps[1..], g);
      KeepsOn(r.starts[g], q.starts[g], After(r, steps).starts[g]);
    }
  }

  /** A lease found lost first suppresses every update for good; a report begun
      first makes every later lease-lost answer harmless. */
  lemma WhoeverIsFirstWins(before: seq<Step>, later: seq<Step>, g: nat)
    requires AllEnabled(EMPTY, before) && g < |After(EMPTY, before).starts|
    requires AllEnabled(After(EMPTY, before), later)
    ensures var r := After(EMPTY, before);
      var q := After(r, later);
      && |r.starts| <= |q.starts|
      && (LeaseGone(r.starts[g]) ==> q.starts[g].updates == 0)
      && (!r.starts[g].hook.Live? && !LeaseGone(r.starts[g]) ==> !LeaseGone(q.starts[g]))
  {
    var r := After(EMPTY, before);
    EveryRun(EMPTY, before);
    EveryRun(r, later);
    RunKeeps(r, later, g);
    var s, t := r.starts[g], After(r, later).starts[g];
    assert Consistent(s) && Consistent(t);
    if s.calls != [] {
      assert t.calls[0] == s.calls[0] && s.calls[0] in s.calls && t.calls[0] in t.calls;
    }
  }

  ghost predicate GaveUpFor(starts: seq<JobStart>, job: string)
  {
    exists s :: s in starts && s.job == job && GivenUp in s.calls
  }

  lemma InPlus(m: multiset<string>, j: string, k: nat, job: string)
    ensures job in m + multiset{}[j := k] <==> job in m || (job == j && k > 0)
  {
  }

  lemma {:induction false} InListed(starts: seq<JobStart>, job: string)
    ensures job in Listed(starts) <==> GaveUpFor(starts, job)
  {
    if starts != [] {
      var rest, last := starts[..|starts| - 1], starts[|starts| - 1];
      InListed(rest, job);
      InPlus(Listed(rest), last.job, GivenUps(last.calls), job);
      assert starts == rest + [last];
      assert GivenUp in last.calls <==> GivenUps(last.calls) > 0;
    }
  }

  /** Results are conserved, call by call: on a start whose lease was lost every
      call of the hook was skipped and nothing was sent; on any other every call
      sent its result and was delivered or given up; an update was accepted
      exactly when a call was delivered; and the run's list of unrecorded jobs
      holds each call that was given up, once. */
  lemma ResultsConserved(steps: seq<Step>, g: nat)
    requires AllEnabled(EMPTY, steps) && g < |After(EMPTY, steps).starts|
    ensures var r := After(EMPTY, steps);
      var s := r.starts[g];
      && (s.hook.Returned? ==> s.calls != [])
      && (LeaseGone(s) ==> s.updates == 0 && !s.accepted && forall c :: c in s.calls ==> c.Skipped?)
      && (!LeaseGone(s) ==> s.updates >= |s.calls| && forall c :: c in s.calls ==> c.Delivered? || c.GivenUp?)
      && (s.accepted <==> Delivered in s.calls)
      && multiset(r.unrecorded) == Listed(r.starts)
  {
    EveryRun(EMPTY, steps);
    assert Consistent(After(EMPTY, steps).starts[g]);
  }

  ghost predicate EndedBothWays(s: JobStart)
  {
    exists i, j :: 0 <= i < |s.calls| && 0 <= j < |s.calls| && s.calls[i].Delivered? && s.calls[j].GivenUp?
  }

  /** A job is on the list exactly when a call for it was given up. */
  lemma ListedIff(steps: seq<Step>, job: string)
    requires AllEnabled(EMPTY, steps)
    ensures var r := After(EMPTY, steps);
      job in r.unrecorded <==> GaveUpFor(r.starts, job)
  {
    var r := After(EMPTY, steps);
    EveryRun(EMPTY, steps);
    InListed(r.starts, job);
    assert job in r.unrecorded <==> job in multiset(r.unrecorded);
  }

  ghost predicate OnlyStart(r: Run, g: nat)
    requires g < |r.starts|
  {
    forall k :: 0 <= k < |r.starts| && k != g ==> r.starts[k].job != r.starts[g].job
  }

  /** A start's result was accepted and the run still lists its job as
      unrecorded exactly when a call of its hook was delivered and a call for the
      job was given up. For the only start of its job these are two calls of one
      hook that ended differently, so a hook called once never comes to it. */
  lemma AcceptedAndListedIff(steps: seq<Step>, g: nat)
    requires AllEnabled(EMPTY, steps) && g < |After(EMPTY, steps).starts|
    ensures var r := After(EMPTY, steps);
      var s := r.starts[g];
      && (s.accepted && s.job in r.unrecorded <==> Delivered in s.calls && GaveUpFor(r.starts, s.job))
      && (OnlyStart(r, g) ==> (s.accepted && s.job in r.unrecorded <==> EndedBothWays(s)))
      && (EndedBothWays(s) ==> |s.calls| >= 2)
  {
    var r := After(EMPTY, steps);
    var s := r.starts[g];
    ResultsConserved(steps, g);
    ListedIff(steps, s.job);
    assert s in r.starts;
    if OnlyStart(r, g) {
      forall t | t in r.starts && t.job == s.job
        ensures t == s
      {
        var k :| 0 <= k < |r.starts| && r.starts[k] == t;
      }
    }
  }

  lemma EmptyListIff(steps: seq<Step>)
    requires AllEnabled(EMPTY, steps)
    ensures var r := After(EMPTY, steps);
      r.unrecorded == [] <==> forall s :: s in r.starts ==> GivenUp !in s.calls
  {
    var r := After(EMPTY, steps);
    if r.unrecorded != [] {
      ListedIff(steps, r.unrecorded[0]);
    } else {
      forall s | s in r.starts
        ensures GivenUp !in s.calls
      {
        ListedIff(steps, s.job);
      }
    }
  }

  /** Every call of the hook delivered its result, or the job had been taken
      over and nothing was sent. */
  ghost predicate Settles(s: JobStart)
  {
    if LeaseGone(s) then s.updates == 0 else s.accepted && forall c :: c in s.calls ==> c.Delivered?
  }

  lemma SettlesIff(s: JobStart)
    requires Consistent(s) && s.hook.Returned?
    ensures Settles(s) <==> GivenUp !in s.calls
  {
    assert s.calls[0] in s.calls;
  }

  /** Once every hook has returned, the list that turns the run's exit red is
      empty exactly when every start is settled. */
  lemma NothingUnrecorded(steps: seq<Step>)
    requires AllEnabled(EMPTY, steps)
    requires forall s :: s in After(EMPTY, steps).starts ==> s.hook.Returned?
    ensures var r := After(EMPTY, steps);
      r.unrecorded == [] <==> forall s :: s in r.starts ==> Settles(s)
  {
    var r := After(EMPTY, steps);
    EveryRun(EMPTY, steps);
    EmptyListIff(steps);
    forall s | s in r.starts
      ensures Settles(s) <==> GivenUp !in s.calls
    {
      var g :| 0 <= g < |r.starts| && r.starts[g] == s;
      assert Consistent(r.starts[g]);
      SettlesIff(s);
    }
  }

  /** A settled job stays settled until it is started again. */
  lemma {:induction false} SettledIsStable(r: Run, steps: seq<Step>, job: string)
    requires AllEnabled(r, steps) && Settled(r.table, job) && Begin(job) !in steps
    ensures Settled(After(r, steps).table, job)
    decreases |steps|
  {
    if steps != [] {
      assert steps[0] in steps;
      SettledIsStable(Next(r, steps[0]), steps[1..], job);
    }
  }

  lemma FirstStep(r: Run, step: Step, rest: seq<Step>)
    requires Enabled(r, step) && AllEnabled(Next(r, step), rest)
    ensures AllEnabled(r, [step] + rest) && After(r, [step] + rest) == After(Next(r, step), rest)
  {
    assert ([step] + rest)[1..] == rest;
  }

  const STARTED := JobStart("j", Ticking, false, false, Live, [], 0, false)

  // ---- what a run tells of each start ----

  /** A start not yet begun counts as one to which nothing has happened. */
  function StartAt(r: Run, g: nat): JobStart
  {
    if g < |r.starts| then r.starts[g] else STARTED
  }

  function Times(steps: seq<Step>, what: Step -> bool): nat
  {
    if steps == [] then 0 else (if what(steps[0]) then 1 else 0) + Times(steps[1..], what)
  }

  function Updates(g: nat): Step -> bool
  {
    (step: Step) => step.Update? && step.g == g
  }

  function Exactly(e: Step): Step -> bool
  {
    (step: Step) => step == e
  }

  /** Calls of the hook that have begun. */
  function Begun(s: JobStart): nat
  {
    |s.calls| + if s.hook.Reporting? then 1 else 0
  }

  /** What one step changes about start g, and nothing else does. */
  ghost predicate Tells(s: JobStart, t: JobStart, step: Step, g: nat)
  {
    && t.updates == s.updates + (if step.Update? && step.g == g then 1 else 0)
    && Begun(t) == Begun(s) + (if step == JobEnds(g) then 1 else 0)
    && (t.hook.Live? <==> s.hook.Live? && step != JobEnds(g))
    && (t.canceled <==> s.canceled || step == CancelJob(g))
    && (t.stopped <==> s.stopped || step == JobEnds(g) || step == CancelJob(g) || step == ContextEnds(g))
    && GivenUps(t.calls) == GivenUps(s.calls) + (if step == Update(g, Rejected(true)) then 1 else 0)
    && multiset(t.calls)[Delivered] == multiset(s.calls)[Delivered] + (if step == Update(g, Accepted) then 1 else 0)
  }

  lemma OneMoreEnd(calls: seq<CallEnd>, end: CallEnd)
    ensures GivenUps(calls + [end]) == GivenUps(calls) + (if end.GivenUp? then 1 else 0)
    ensures multiset(calls + [end])[Delivered] == multiset(calls)[Delivered] + (if end.Delivered? then 1 else 0)
  {
  }

  /** The start as a call of its hook leaves it: its heartbeat's context is over. */
  function Called(s: JobStart, preempted: bool): JobStart
  {
    var t := s.(stopped := true);
    if preempted then Ended(t, Skipped) else t.(hook := Reporting)
  }

  lemma JobEndsStarts(r: Run, k: nat)
    requires Inv(r) && Enabled(r, JobEnds(k))
    ensures AfterJobEnds(r, k).starts == r.starts[k := Called(r.starts[k], Get(r.table, r.starts[k].job).preempted)]
  {
    assert Agrees(r, k);
  }

  lemma JobEndsTells(r: Run, k: nat, g: nat)
    requires Inv(r) && Enabled(r, JobEnds(k))
    ensures Tells(StartAt(r, g), StartAt(AfterJobEnds(r, k), g), JobEnds(k), g)
  {
    JobEndsStarts(r, k);
    if g == k {
      OneMoreEnd(r.starts[k].calls, Skipped);
    }
  }

  lemma UpdateTells(r: Run, k: nat, reply: Reply, g: nat)
    requires Enabled(r, Update(k, reply))
    ensures Tells(StartAt(r, g), StartAt(AfterUpdate(r, k, reply), g), Update(k, reply), g)
  {
    if g == k {
      OneMoreEnd(r.starts[k].calls, EndOf(reply));
    }
  }

  lemma BeatTells(r: Run, step: Step, g: nat)
    requires Enabled(r, step)
    requires step.Tick? || step.Answer? || step.BeatStops? || step.CancelJob? || step.ContextEnds?
    ensures Tells(StartAt(r, g), StartAt(With(r, step.g, Beaten(r.starts[step.g], step)), g), step, g)
  {
  }

  lemma BeginTells(r: Run, job: string, g: nat)
    ensures Tells(StartAt(r, g), StartAt(AfterBegin(r, job), g), Begin(job), g)
  {
  }

  lemma TellLostTells(r: Run, k: nat, g: nat)
    requires k < |r.starts|
    ensures Tells(StartAt(r, g), StartAt(AfterTellLost(r, k), g), TellLost(k), g)
  {
  }

  lemma StepTells(r: Run, step: Step, g: nat)
    requires Inv(r) && Enabled(r, step)
    ensures Tells(StartAt(r, g), StartAt(Next(r, step), g), step, g)
  {
    match step
    case SetBeat(_, _) =>
    case Begin(job) => BeginTells(r, job, g);
    case TellLost(k) => TellLostTells(r, k, g);
    case JobEnds(k) => JobEndsTells(r, k, g);
    case Update(k, reply) => UpdateTells(r, k, reply, g);
    case _ => BeatTells(r, step, g);
  }

  ghost predicate TellsAll(s: JobStart, t: JobStart, steps: seq<Step>, g: nat)
  {
    && t.updates == s.updates + Times(steps, Updates(g))
    && Begun(t) == Begun(s) + Times(steps, Exactly(JobEnds(g)))
    && (t.hook.Live? <==> s.hook.Live? && JobEnds(g) !in steps)
    && (t.canceled <==> s.canceled || CancelJob(g) in steps)
    && (t.stopped <==> s.stopped || JobEnds(g) in steps || CancelJob(g) in steps || ContextEnds(g) in steps)
    && GivenUps(t.calls) == GivenUps(s.calls) + Times(steps, Exactly(Update(g, Rejected(true))))
    && multiset(t.calls)[Delivered] == multiset(s.calls)[Delivered] + Times(steps, Exactly(Update(g, Accepted)))
  }

  lemma TellsOn(s: JobStart, q: JobStart, t: JobStart, steps: seq<Step>, g: nat)
    requires steps != [] && Tells(s, q, steps[0], g) && TellsAll(q, t, steps[1..], g)
    ensures TellsAll(s, t, steps, g)
  {
    assert steps == [steps[0]] + steps[1..];
  }

  lemma {:induction false} RunTells(r: Run, steps: seq<Step>, g: nat)
    requires Inv(r) && AllEnabled(r, steps)
    ensures TellsAll(StartAt(r, g), StartAt(After(r, steps), g), steps, g)
    decreases |steps|
  {
    if steps != [] {
      var q := Next(r, steps[0]);
      StepTells(r, steps[0], g);
      StepKeepsInv(r, steps[0]);
      RunTells(q, steps[1..], g);
      TellsOn(StartAt(r, g), StartAt(q, g), StartAt(After(r, steps), g), steps, g);
    }
  }

  /** Every field of a start follows from what happened to it: each update sent
      and each call of its hook is counted, each accepted or given-up reply ends
      one call, and its heartbeat's context is over exactly when the hook was
      called, the job cancelled as lease-lost, or the context ended. */
  lemma StartsTellTheRun(steps: seq<Step>, g: nat)
    requires AllEnabled(EMPTY, steps) && g < |After(EMPTY, steps).starts|
    ensures var s := After(EMPTY, steps).starts[g];
      && s.updates == Times(steps, Updates(g))
      && Begun(s) == Times(steps, Exactly(JobEnds(g)))
      && GivenUps(s.calls) == Times(steps, Exactly(Update(g, Rejected(true))))
      && multiset(s.calls)[Delivered] == Times(steps, Exactly(Update(g, Accepted)))
      && (s.canceled <==> CancelJob(g) in steps)
      && (s.stopped <==> !s.hook.Live? || s.canceled || ContextEnds(g) in steps)
  {
    RunTells(EMPTY, steps, g);
  }

  /** The heartbeat of a job that ended can always stop: once told, it is over,
      and between beats it may stop at any time. */
  lemma EndedBeatCanStop(steps: seq<Step>, g: nat)
    requires AllEnabled(EMPTY, steps) && g < |After(EMPTY, steps).starts|
    requires !After(EMPTY, steps).starts[g].hook.Live? && After(EMPTY, steps).starts[g].beat.Ticking?
    ensures Enabled(After(EMPTY, steps), BeatStops(g))
  {
    EveryRun(EMPTY, steps);
    assert Consistent(After(EMPTY, steps).starts[g]);
  }

  lemma QuietStep(r: Run, step: Step, g: nat)
    requires Possible(r, step) && g < |r.starts| && Quiet(r.starts[g].beat)
    ensures step != Tick(g) && step != TellLost(g) && (r.starts[g].beat.Gone? ==> step != CancelJob(g))
    ensures g < |Next(r, step).starts| && Quiet(Next(r, step).starts[g].beat)
    ensures r.starts[g].beat.Gone? ==> Next(r, step).starts[g].beat.Gone?
  {
  }

  lemma {:induction false} QuietNeverBeats(r: Run, steps: seq<Step>, g: nat)
    requires AllEnabled(r, steps) && g < |r.starts| && Quiet(r.starts[g].beat)
    ensures Tick(g) !in steps && TellLost(g) !in steps
    ensures r.starts[g].beat.Gone? ==> CancelJob(g) !in steps
    decreases |steps|
  {
    if steps != [] {
      QuietStep(r, steps[0], g);
      QuietNeverBeats(Next(r, steps[0]), steps[1..], g);
      assert steps == [steps[0]] + steps[1..];
    }
  }

  /** A heartbeat told that the lease is lost never beats again, nor is it told
      again; it cancels its job only if the job had not ended by then. */
  lemma ToldNeverBeatsAgain(r: Run, steps: seq<Step>, g: nat)
    requires AllEnabled(r, steps) && steps != [] && steps[0] == TellLost(g)
    ensures Tick(g) !in steps[1..] && TellLost(g) !in steps[1..]
    ensures CancelJob(g) in steps ==> !Get(r.table, r.starts[g].job).done
  {
    QuietNeverBeats(Next(r, steps[0]), steps[1..], g);
    assert steps == [steps[0]] + steps[1..];
  }

  /** The interval last set for a job. */
  function LastSet(steps: seq<Step>, job: string, d: int): int
  {
    if steps == [] then d
    else LastSet(steps[1..], job, if steps[0].SetBeat? && steps[0].job == job then steps[0].d else d)
  }

  lemma {:induction false} RunKeepsInterval(r: Run, steps: seq<Step>, job: string)
    requires AllEnabled(r, steps)
    ensures Get(After(r, steps).table, job).heartbeatInterval
         == LastSet(steps, job, Get(r.table, job).heartbeatInterval)
    decreases |steps|
  {
    if steps != [] {
      RunKeepsInterval(Next(r, steps[0]), steps[1..], job);
    }
  }

  /** A job beats at the interval last set for it, whatever happened since. */
  lemma BeatsAtLastInterval(steps: seq<Step>, job: string)
    requires AllEnabled(EMPTY, steps)
    ensures Get(After(EMPTY, steps).table, job).heartbeatInterval == LastSet(steps, job, 0)
  {
    RunKeepsInterval(EMPTY, steps, job);
  }

  // ---- a hook called twice ----

  /** How a reply that ends the reporting ends it. */
  function EndOf(reply: Reply): CallEnd
  {
    if reply.Accepted? then Delivered else GivenUp
  }

  function OneReport(first: Reply): seq<Step>
  {
    [JobEnds(0)] + ([Update(0, first)] + [])
  }

  lemma ReportsOnce(r: Run, reply: Reply)
    requires |r.starts| == 1 && !r.starts[0].hook.Reporting? && !Get(r.table, r.starts[0].job).preempted
    requires reply != Rejected(false)
    ensures AllEnabled(r, OneReport(reply))
    ensures var q := After(r, OneReport(reply));
      && |q.starts| == 1 && q.starts[0].hook.Returned?
      && q.starts[0].job == r.starts[0].job && q.starts[0].beat == r.starts[0].beat
      && q.starts[0].calls == r.starts[0].calls + [EndOf(reply)]
      && q.starts[0].accepted == (r.starts[0].accepted || reply.Accepted?)
      && !Get(q.table, r.starts[0].job).preempted
      && q.unrecorded == r.unrecorded + (if reply.Accepted? then [] else [r.starts[0].job])
  {
    var r1 := Next(r, JobEnds(0));
    FirstStep(r1, Update(0, reply), []);
    FirstStep(r, JobEnds(0), [Update(0, reply)] + []);
  }

  function TwoReports(first: Reply, second: Reply): seq<Step>
  {
    [Begin("j")] + (OneReport(first) + OneReport(second))
  }

  lemma {:induction false} RunsJoin(r: Run, a: seq<Step>, b: seq<Step>)
    requires AllEnabled(r, a) && AllEnabled(After(r, a), b)
    ensures AllEnabled(r, a + b) && After(r, a + b) == After(After(r, a), b)
    decreases |a|
  {
    if a == [] {
      assert a + b == b;
    } else {
      RunsJoin(Next(r, a[0]), a[1..], b);
      FirstStep(r, a[0], a[1..] + b);
      assert a + b == [a[0]] + (a[1..] + b);
    }
  }

  /** It happens: a failed step reports, then the failed finalizer reports
      again. If one report is accepted and the other is not, in either order,
      the job's result was accepted and the run lists it as unrecorded. */
  lemma TwoReportsCanDiffer(first: Reply, second: Reply)
    requires first != Rejected(false) && second != Rejected(false)
    ensures AllEnabled(EMPTY, TwoReports(first, second))
    ensures var r := After(EMPTY, TwoReports(first, second));
      && |r.starts| == 1 && r.starts[0].hook.Returned? && r.starts[0].calls == [EndOf(first), EndOf(second)]
      && (r.starts[0].accepted && r.starts[0].job in r.unrecorded <==> EndOf(first) != EndOf(second))
  {
    var r := Next(EMPTY, Begin("j"));
    ReportsOnce(r, first);
    ReportsOnce(After(r, OneReport(first)), second);
    RunsJoin(r, OneReport(first), OneReport(second));
    FirstStep(EMPTY, Begin("j"), OneReport(first) + OneReport(second));
  }

  // ---- why an old heartbeat must be quiet before a job starts again ----

  /** The hook skipped a result although the start's own lease was never lost. */
  predicate LostSilently(s: JobStart)
  {
    Skipped in s.calls && !LeaseGone(s)
  }

  function LateLoss(g: nat, n: nat): seq<Step>
  {
    [TellLost(g)] + ([JobEnds(n)] + [])
  }

  /** What an old heartbeat g of the job of start n can still do to it. */
  ghost predicate LateBeat(r: Run, g: nat, n: nat)
  {
    && g < n == |r.starts| - 1 && r.starts[g].job == r.starts[n].job && !Quiet(r.starts[g].beat)
    && r.starts[n].hook.Live? && !LeaseGone(r.starts[n]) && r.starts[n].updates == 0 && !Get(r.table, r.starts[n].job).done
  }

  /** The old heartbeat preempts the new start: its result is skipped, nothing
      is sent, and nothing lists it. */
  lemma OverlapDropsAResult(r: Run, g: nat, n: nat)
    requires LateBeat(r, g, n) && r.starts[g].beat.ToldLost?
    ensures AllEnabled(r, LateLoss(g, n))
    ensures var q := After(r, LateLoss(g, n));
      |q.starts| == n + 1 && LostSilently(q.starts[n]) && q.starts[n].updates == 0 && q.unrecorded == r.unrecorded
  {
    var r1 := Next(r, TellLost(g));
    FirstStep(r1, JobEnds(n), []);
    FirstStep(r, TellLost(g), [JobEnds(n)] + []);
  }

  lemma AnyLateBeatDrops(r: Run, g: nat, n: nat) returns (steps: seq<Step>)
    requires LateBeat(r, g, n)
    ensures AllEnabled(r, steps)
    ensures var q := After(r, steps);
      |q.starts| == n + 1 && LostSilently(q.starts[n]) && q.starts[n].updates == 0 && q.unrecorded == r.unrecorded
    decreases if r.starts[g].beat.Ticking? then 1 else 0
  {
    if r.starts[g].beat.ToldLost? {
      OverlapDropsAResult(r, g, n);
      steps := LateLoss(g, n);
    } else if r.starts[g].beat.Asking? {
      var r1 := Next(r, Answer(g, true));
      OverlapDropsAResult(r1, g, n);
      FirstStep(r, Answer(g, true), LateLoss(g, n));
      steps := [Answer(g, true)] + LateLoss(g, n);
    } else {
      var rest := AnyLateBeatDrops(Next(r, Tick(g)), g, n);
      FirstStep(r, Tick(g), rest);
      steps := [Tick(g)] + rest;
    }
  }

  /** Starting a job again is safe exactly when every earlier heartbeat of it is
      quiet: otherwise, and only then, the new start's result can be lost. */
  lemma RestartIsSafeIff(r: Run, job: string)
    requires Inv(r) && Possible(r, Begin(job))
    ensures var q := Next(r, Begin(job));
      (forall steps :: AllEnabled(q, steps) && |r.starts| < |After(q, steps).starts|
         ==> !LostSilently(After(q, steps).starts[|r.starts|]))
      <==> forall s :: s in r.starts && s.job == job ==> Quiet(s.beat)
  {
    var q, n := Next(r, Begin(job)), |r.starts|;
    if s :| s in r.starts && s.job == job && !Quiet(s.beat) {
      var g :| 0 <= g < n && r.starts[g] == s;
      var steps := AnyLateBeatDrops(q, g, n);
    } else {
      forall steps | AllEnabled(q, steps) && n < |After(q, steps).starts|
        ensures !LostSilently(After(q, steps).starts[n])
      {
        BeginStep(r, job);
        EveryRun(q, steps);
        assert Consistent(After(q, steps).starts[n]);
      }
    }
  }

  /** One start of j: reported and accepted, its heartbeat's late answer still to be told. */
  function LateAnswer(): seq<Step>
  {
    [Begin("j")] + ([Tick(0)] + ([Answer(0, true)] + OneReport(Accepted)))
  }

  /** A moment at which restarting is unsafe is reached by a run that keeps to the rules. */
  lemma LateAnswerHappens()
    ensures AllEnabled(EMPTY, LateAnswer())
    ensures var r := After(EMPTY, LateAnswer());
      |r.starts| == 1 && !Quiet(r.starts[0].beat) && r.starts[0].job == "j" && Possible(r, Begin("j"))
  {
    var r := Run(map["j" := Lease(0, Some(0), false, false)], [STARTED.(beat := ToldLost)], []);
    ReportsOnce(r, Accepted);
    ToldLostSteps(OneReport(Accepted));
  }

  lemma ToldLostSteps(rest: seq<Step>)
    requires AllEnabled(Run(map["j" := Lease(0, Some(0), false, false)], [STARTED.(beat := ToldLost)], []), rest)
    ensures var steps := [Begin("j")] + ([Tick(0)] + ([Answer(0, true)] + rest));
      AllEnabled(EMPTY, steps) && After(EMPTY, steps)
        == After(Run(map["j" := Lease(0, Some(0), false, false)], [STARTED.(beat := ToldLost)], []), rest)
  {
    var t: Table := map["j" := Lease(0, Some(0), false, false)];
    var r1, r2 := Run(t, [STARTED], []), Run(t, [STARTED.(beat := Asking)], []);
    assert Next(EMPTY, Begin("j")) == r1 && Next(r1, Tick(0)) == r2;
    assert Next(r2, Answer(0, true)) == Run(t, [STARTED.(beat := ToldLost)], []);
    FirstStep(r2, Answer(0, true), rest);
    FirstStep(r1, Tick(0), [Answer(0, true)] + rest);
    FirstStep(EMPTY, Begin("j"), [Tick(0)] + ([Answer(0, true)] + rest));
  }
}
