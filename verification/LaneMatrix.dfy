/** The lane matrix: each job's depth by a memoised walk of the dependency
    graph, one entry per lane, and the entries bucketed by level. */
module LaneMatrix {
  import opened Walks
  import opened Sorting
  import opened Plans

  datatype Entry = Entry(
    lane: string, name: string, index: int, env: string, jobs: nat, runsOn: string,
    level: int, upstreamLanes: seq<string>, estimatedSeconds: int, vcpu: int)

  // ---- depths ----

  /** Jobs by id; of two jobs with one id the later wins. */
  function ById(jobs: seq<PlanJob>): (m: map<string, PlanJob>)
    ensures forall id :: id in m <==> exists j :: j in jobs && j.id == id
    ensures forall id :: id in m ==> m[id] in jobs && m[id].id == id
  {
    if jobs == [] then map[]
    else
      var n := |jobs| - 1;
      assert jobs == jobs[..n] + [jobs[n]];
      ById(jobs[..n])[jobs[n].id := jobs[n]]
  }

  ghost function InPlan(byId: map<string, PlanJob>): set<(string, string)>
  {
    set id, d | id in byId && d in byId[id].dependsOn && d in byId :: (id, d)
  }

  /** The longest walk that leaves x has n edges. */
  ghost predicate LongestFrom<T(!new)>(edges: set<(T, T)>, x: T, n: int)
  {
    && (exists w :: IsWalk(edges, w) && w[0] == x && |w| == n + 1)
    && (forall w :: IsWalk(edges, w) && w[0] == x ==> |w| <= n + 1)
  }

  /** Walks out of x whose second element is among `seen` have at most n edges, and one has n. */
  ghost predicate LongestThrough(edges: set<(string, string)>, x: string, seen: seq<string>, n: int)
  {
    && (exists w :: IsWalk(edges, w) && w[0] == x && |w| == n + 1)
    && (forall w :: IsWalk(edges, w) && w[0] == x && (|w| > 1 ==> w[1] in seen) ==> |w| <= n + 1)
  }

  lemma ThroughNothing(edges: set<(string, string)>, x: string)
    ensures LongestThrough(edges, x, [], 0)
  {
    assert IsWalk(edges, [x]);
  }

  lemma ThroughOneMore(edges: set<(string, string)>, x: string, seen: seq<string>, n: int, dep: string, m: int)
    requires LongestThrough(edges, x, seen, n) && LongestFrom(edges, dep, m) && (x, dep) in edges
    ensures LongestThrough(edges, x, seen + [dep], if m + 1 > n then m + 1 else n)
  {
    forall w | IsWalk(edges, w) && w[0] == x && (|w| > 1 ==> w[1] in seen + [dep])
      ensures |w| <= n + 1 || |w| <= m + 2
    {
      if |w| > 1 && w[1] == dep {
        assert IsWalk(edges, w[1..]) && w[1..][0] == dep;
      }
    }
    if m + 1 > n {
      var v :| IsWalk(edges, v) && v[0] == dep && |v| == m + 1;
      var w := [x] + v;
      assert forall i :: 0 < i < |w| - 1 ==> (w[i], w[i + 1]) == (v[i - 1], v[i]);
      assert IsWalk(edges, w) && w[0] == x && |w| == m + 2;
    }
  }

  lemma ThroughOutsider(edges: set<(string, string)>, x: string, seen: seq<string>, n: int, dep: string)
    requires LongestThrough(edges, x, seen, n) && (x, dep) !in edges
    ensures LongestThrough(edges, x, seen + [dep], n)
  {
  }

  /** The walk's closure: the index it reads, and the two maps it changes. */
  class DepthWalk {
    const byId: map<string, PlanJob>
    var memo: map<string, int>
    var visiting: set<string>

    ghost predicate Valid()
      reads this
    {
      && visiting <= byId.Keys && memo.Keys <= byId.Keys
      && (forall id :: id in memo ==> memo[id] >= 0)
      && (Acyclic(InPlan(byId)) ==> forall id :: id in memo ==> LongestFrom(InPlan(byId), id, memo[id]))
    }

    constructor (byId: map<string, PlanJob>)
      ensures Valid() && this.byId == byId && memo == map[] && visiting == {}
    {
      this.byId := byId;
      memo := map[];
      visiting := {};
    }

    /** The `visiting` guard is what ends the walk on a cycle; on an acyclic
        plan it never answers. */
    method Walk(id: string) returns (d: int)
      requires Valid() && id in byId
      requires Acyclic(InPlan(byId)) ==> forall v :: v in visiting ==> ReachesPlus(InPlan(byId), v, id)
      modifies this
      ensures Valid() && visiting == old(visiting) && d >= 0
      ensures old(memo).Keys <= memo.Keys
      ensures id in memo || id in visiting
      ensures Acyclic(InPlan(byId)) ==> LongestFrom(InPlan(byId), id, d)
      decreases byId.Keys - visiting, 0
    {
      if id in memo {
        return memo[id];
      }
      if id in visiting {
        return 0;
      }
      visiting := visiting + {id};
      d := 0;
      var deps := byId[id].dependsOn;
      ThroughNothing(InPlan(byId), id);
      for i := 0 to |deps|
        invariant Valid() && visiting == old(visiting) + {id} && d >= 0
        invariant old(memo).Keys <= memo.Keys
        invariant Acyclic(InPlan(byId)) ==> LongestThrough(InPlan(byId), id, deps[..i], d)
      {
        assert deps[..i + 1] == deps[..i] + [deps[i]];
        d := Follow(id, deps[..i], deps[i], d);
      }
      assert deps[..|deps|] == deps;
      if Acyclic(InPlan(byId)) {
        ThroughEverything(byId, id, d);
      }
      visiting := visiting - {id};
      memo := memo[id := d];
    }

    /** One dependency of the job being walked: the depth found so far, raised
        to one above the dependency's when the plan holds it. */
    method Follow(id: string, ghost seen: seq<string>, dep: string, d0: int) returns (d: int)
      requires Valid() && id in byId && dep in byId[id].dependsOn && id in visiting && d0 >= 0
      requires Acyclic(InPlan(byId)) ==> forall v :: v in visiting ==> v == id || ReachesPlus(InPlan(byId), v, id)
      requires Acyclic(InPlan(byId)) ==> LongestThrough(InPlan(byId), id, seen, d0)
      modifies this
      ensures Valid() && visiting == old(visiting) && d >= 0
      ensures old(memo).Keys <= memo.Keys
      ensures Acyclic(InPlan(byId)) ==> LongestThrough(InPlan(byId), id, seen + [dep], d)
      decreases byId.Keys - visiting, 1
    {
      d := d0;
      ghost var edges := InPlan(byId);
      if dep !in byId {
        if Acyclic(edges) {
          ThroughOutsider(edges, id, seen, d, dep);
        }
        return;
      }
      assert (id, dep) in edges;
      forall v | v in visiting && Acyclic(edges)
        ensures ReachesPlus(edges, v, dep)
      {
        OneStepFurther(edges, v, id, dep);
      }
      var v := Walk(dep);
      if Acyclic(edges) {
        ThroughOneMore(edges, id, seen, d, dep, v);
      }
      if v + 1 > d {
        d := v + 1;
      }
    }
  }

  lemma OneStepFurther(edges: set<(string, string)>, v: string, id: string, dep: string)
    requires (id, dep) in edges && (v == id || ReachesPlus(edges, v, id))
    ensures ReachesPlus(edges, v, dep)
  {
    EdgeReaches(edges, id, dep);
    if v != id {
      PlusReaches(edges, v, id);
      ReachesTransitive(edges, v, id, dep);
    }
  }

  lemma ThroughEverything(byId: map<string, PlanJob>, id: string, d: int)
    requires id in byId && LongestThrough(InPlan(byId), id, byId[id].dependsOn, d)
    ensures LongestFrom(InPlan(byId), id, d)
  {
  }

  ghost predicate Depths(byId: map<string, PlanJob>, memo: map<string, int>)
  {
    && memo.Keys == byId.Keys
    && (forall id :: id in memo ==> memo[id] >= 0)
    && (Acyclic(InPlan(byId)) ==> forall id :: id in memo ==> LongestFrom(InPlan(byId), id, memo[id]))
  }

  method IndexJobs(jobs: seq<PlanJob>) returns (byId: map<string, PlanJob>)
    ensures byId == ById(jobs)
  {
    byId := map[];
    for i := 0 to |jobs|
      invariant byId == ById(jobs[..i])
    {
      assert jobs[..i + 1][..i] == jobs[..i];
      byId := byId[jobs[i].id := jobs[i]];
    }
    assert jobs[..|jobs|] == jobs;
  }

  /** Ends on every plan; on an acyclic one every entry is the length of the
      longest dependency chain, whatever order the jobs come in. */
  method JobDepths(jobs: seq<PlanJob>) returns (memo: map<string, int>)
    ensures Depths(ById(jobs), memo)
  {
    var byId := IndexJobs(jobs);
    var walker := new DepthWalk(byId);
    for i := 0 to |jobs|
      invariant walker.Valid() && walker.visiting == {} && walker.byId == byId
      invariant fresh(walker)
      invariant forall k :: 0 <= k < i ==> jobs[k].id in walker.memo
    {
      var _ := walker.Walk(jobs[i].id);
    }
    memo := walker.memo;
    assert memo.Keys == byId.Keys;
  }

  lemma DependencyIsShallower(edges: set<(string, string)>, x: string, n: int, y: string, m: int)
    requires (x, y) in edges && LongestFrom(edges, x, n) && LongestFrom(edges, y, m)
    ensures m < n
  {
    var v :| IsWalk(edges, v) && v[0] == y && |v| == m + 1;
    var w := [x] + v;
    assert forall i :: 0 < i < |w| - 1 ==> (w[i], w[i + 1]) == (v[i - 1], v[i]);
    assert IsWalk(edges, w);
  }

  /** On a longest walk of n edges, the element k steps before the end is k deep. */
  lemma LongestTail<T(!new)>(edges: set<(T, T)>, w: seq<T>, n: nat, k: nat)
    requires IsWalk(edges, w) && |w| == n + 1 && k <= n && LongestFrom(edges, w[0], n)
    ensures LongestFrom(edges, w[n - k], k)
  {
    var x := w[n - k];
    assert IsWalk(edges, w[n - k..]) && |w[n - k..]| == k + 1;
    forall v | IsWalk(edges, v) && v[0] == x
      ensures |v| <= k + 1
    {
      assert Joins(edges, w[..n - k + 1], w[0], x) && Joins(edges, v, x, v[|v| - 1]);
      Concat(edges, w[..n - k + 1], v, w[0], x, v[|v| - 1]);
    }
  }

  /** The depths are the plain recursive ones: above every dependency's, and
      by exactly one above the deepest. */
  lemma DepthIsOneMoreThanDeepest(byId: map<string, PlanJob>, memo: map<string, int>, id: string)
    requires Acyclic(InPlan(byId)) && Depths(byId, memo) && id in byId
    ensures forall d :: d in byId[id].dependsOn && d in byId ==> memo[d] < memo[id]
    ensures memo[id] > 0 ==> exists d :: d in byId[id].dependsOn && d in byId && memo[d] == memo[id] - 1
  {
    var edges := InPlan(byId);
    forall d | d in byId[id].dependsOn && d in byId
      ensures memo[d] < memo[id]
    {
      assert (id, d) in edges;
      DependencyIsShallower(edges, id, memo[id], d, memo[d]);
    }
    if memo[id] > 0 {
      var w :| IsWalk(edges, w) && w[0] == id && |w| == memo[id] + 1;
      assert (w[0], w[1]) in edges;
      LongestTail(edges, w, memo[id], memo[id] - 1);
      assert LongestFrom(edges, w[1], memo[w[1]]);
    }
  }

  /** Only one table has these depths, so the order of the jobs is no matter. */
  lemma DepthsUnique(byId: map<string, PlanJob>, memo: map<string, int>, other: map<string, int>)
    requires Acyclic(InPlan(byId)) && Depths(byId, memo) && Depths(byId, other)
    ensures memo == other
  {
    forall id | id in byId ensures memo[id] == other[id] {
      assert LongestFrom(InPlan(byId), id, memo[id]) && LongestFrom(InPlan(byId), id, other[id]);
    }
  }

  lemma {:induction false} LaterJobWins(jobs: seq<PlanJob>, i: nat)
    requires i < |jobs| && forall j :: i < j < |jobs| ==> jobs[j].id != jobs[i].id
    ensures jobs[i].id in ById(jobs) && ById(jobs)[jobs[i].id] == jobs[i]
  {
    if i < |jobs| - 1 {
      LaterJobWins(jobs[..|jobs| - 1], i);
    }
  }

  lemma SameIndex(jobs: seq<PlanJob>, others: seq<PlanJob>)
    requires multiset(jobs) == multiset(others) && DistinctIds(jobs)
    ensures ById(jobs) == ById(others)
  {
    forall j ensures j in jobs <==> j in others {
      assert j in multiset(jobs) <==> j in multiset(others);
    }
    forall id | id in ById(jobs)
      ensures id in ById(others) && ById(jobs)[id] == ById(others)[id]
    {
      var a, b := ById(jobs)[id], ById(others)[id];
      var i :| 0 <= i < |jobs| && jobs[i] == a;
      var j :| 0 <= j < |jobs| && jobs[j] == b;
      assert i == j;
    }
  }

  /** The order in which a plan lists its jobs is no matter to their depths. */
  lemma DepthsIgnoreOrder(jobs: seq<PlanJob>, others: seq<PlanJob>, memo: map<string, int>, other: map<string, int>)
    requires multiset(jobs) == multiset(others) && DistinctIds(jobs) && Acyclic(InPlan(ById(jobs)))
    requires Depths(ById(jobs), memo) && Depths(ById(others), other)
    ensures memo == other
  {
    SameIndex(jobs, others);
    DepthsUnique(ById(jobs), memo, other);
  }

  // ---- entries ----

  /** A job's dependencies that the plan holds, in their order. */
  function Known(deps: seq<string>, ids: set<string>): (r: seq<string>)
    ensures forall d :: d in r <==> d in deps && d in ids
  {
    if deps == [] then []
    else
      var n := |deps| - 1;
      assert deps == deps[..n] + [deps[n]];
      Known(deps[..n], ids) + (if deps[n] in ids then [deps[n]] else [])
  }

  function JobName(job: PlanJob): string
  {
    if job.checkName != "" then job.checkName else if job.rendered != "" then job.rendered else job.id
  }

  ghost predicate LaneEntry(lane: PlanLane, e: Entry)
  {
    e == Entry(lane.id, lane.name, lane.index, lane.environment, |lane.jobs|, lane.runsOn,
               lane.level, lane.upstreamLanes, lane.estimatedSeconds, lane.vcpu)
  }

  /** A job's entry: its own fields, its in-plan dependencies sorted, and its
      depth, the longest dependency chain when the plan has no cycle. */
  ghost predicate JobEntry(job: PlanJob, byId: map<string, PlanJob>, e: Entry)
  {
    && e == Entry(job.id, JobName(job), job.index, job.environment, 1, job.runsOn,
                  e.level, SortBy(Known(job.dependsOn, byId.Keys), StrLess), job.estimatedSeconds, job.vcpu)
    && e.level >= 0 && (Acyclic(InPlan(byId)) ==> LongestFrom(InPlan(byId), job.id, e.level))
  }

  ghost predicate JobEntries(jobs: seq<PlanJob>, byId: map<string, PlanJob>, entries: seq<Entry>)
  {
    |entries| <= |jobs| && forall i {:trigger entries[i]} :: 0 <= i < |entries| ==> JobEntry(jobs[i], byId, entries[i])
  }

  ghost predicate EntriesOf(plan: Plan, entries: seq<Entry>)
  {
    if |plan.lanes| > 0 then
      |entries| == |plan.lanes| && forall i :: 0 <= i < |entries| ==> LaneEntry(plan.lanes[i], entries[i])
    else
      |entries| == |plan.jobs| && JobEntries(plan.jobs, ById(plan.jobs), entries)
  }

  method InPlanDeps(deps: seq<string>, ids: set<string>) returns (up: seq<string>)
    ensures up == Known(deps, ids)
  {
    up := [];
    for i := 0 to |deps|
      invariant up == Known(deps[..i], ids)
    {
      assert deps[..i + 1][..i] == deps[..i];
      if deps[i] in ids {
        up := up + [deps[i]];
      }
    }
    assert deps[..|deps|] == deps;
  }

  method LanesAsEntries(lanes: seq<PlanLane>) returns (entries: seq<Entry>)
    ensures |entries| == |lanes| && forall i :: 0 <= i < |entries| ==> LaneEntry(lanes[i], entries[i])
  {
    entries := [];
    for i := 0 to |lanes|
      invariant |entries| == i && forall k :: 0 <= k < i ==> LaneEntry(lanes[k], entries[k])
    {
      var l := lanes[i];
      entries := entries + [Entry(l.id, l.name, l.index, l.environment, |l.jobs|, l.runsOn,
                                  l.level, l.upstreamLanes, l.estimatedSeconds, l.vcpu)];
    }
  }

  method JobIds(jobs: seq<PlanJob>) returns (ids: set<string>)
    ensures ids == ById(jobs).Keys
  {
    ids := {};
    for i := 0 to |jobs|
      invariant ids == ById(jobs[..i]).Keys
    {
      assert jobs[..i + 1][..i] == jobs[..i];
      ids := ids + {jobs[i].id};
    }
    assert jobs[..|jobs|] == jobs;
  }

  method OneJobEntry(job: PlanJob, known: set<string>, ghost byId: map<string, PlanJob>, depth: map<string, int>) returns (e: Entry)
    requires known == byId.Keys && job.id in byId && Depths(byId, depth)
    ensures JobEntry(job, byId, e)
  {
    var name := job.checkName;
    if name == "" {
      name := job.rendered;
    }
    if name == "" {
      name := job.id;
    }
    var up := InPlanDeps(job.dependsOn, known);
    e := Entry(job.id, name, job.index, job.environment, 1, job.runsOn,
               depth[job.id], SortBy(up, StrLess), job.estimatedSeconds, job.vcpu);
  }

  lemma JobEntriesNext(jobs: seq<PlanJob>, byId: map<string, PlanJob>, entries: seq<Entry>, e: Entry)
    requires JobEntries(jobs, byId, entries) && |entries| < |jobs| && JobEntry(jobs[|entries|], byId, e)
    ensures JobEntries(jobs, byId, entries + [e])
  {
  }

  method JobsAsEntries(jobs: seq<PlanJob>) returns (entries: seq<Entry>)
    ensures |entries| == |jobs| && JobEntries(jobs, ById(jobs), entries)
  {
    entries := [];
    var depth := JobDepths(jobs);
    var known := JobIds(jobs);
    ghost var byId := ById(jobs);
    for i := 0 to |jobs|
      invariant |entries| == i && JobEntries(jobs, byId, entries)
    {
      assert jobs[i] in jobs;
      var e := OneJobEntry(jobs[i], known, byId, depth);
      JobEntriesNext(jobs, byId, entries, e);
      entries := entries + [e];
    }
  }

  method LaneMatrixEntries(plan: Plan) returns (entries: seq<Entry>)
    ensures EntriesOf(plan, entries)
  {
    if |plan.lanes| > 0 {
      entries := LanesAsEntries(plan.lanes);
    } else {
      entries := JobsAsEntries(plan.jobs);
    }
  }

  lemma {:induction false} KnownCounts(deps: seq<string>, ids: set<string>, d: string)
    ensures multiset(Known(deps, ids))[d] == if d in ids then multiset(deps)[d] else 0
  {
    if deps != [] {
      var n := |deps| - 1;
      assert deps == deps[..n] + [deps[n]];
      KnownCounts(deps[..n], ids, d);
    }
  }

  /** What an entry of a plan without lanes says of its job: the first name
      that is not empty, and in order the dependencies the plan holds, each as
      often as the job declares it. */
  lemma EntrySaysJob(plan: Plan, entries: seq<Entry>, i: nat, d: string)
    requires |plan.lanes| == 0 && EntriesOf(plan, entries) && i < |plan.jobs|
    ensures var e, job := entries[i], plan.jobs[i];
      && e.lane == job.id && e.index == job.index && e.env == job.environment && e.jobs == 1 && e.runsOn == job.runsOn
      && e.estimatedSeconds == job.estimatedSeconds && e.vcpu == job.vcpu
      && (job.checkName != "" ==> e.name == job.checkName)
      && (job.checkName == "" ==> e.name == if job.rendered != "" then job.rendered else job.id)
      && Sorted(e.upstreamLanes, StrLess)
      && multiset(e.upstreamLanes)[d] == if exists j :: j in plan.jobs && j.id == d then multiset(job.dependsOn)[d] else 0
  {
    var known := Known(plan.jobs[i].dependsOn, ById(plan.jobs).Keys);
    assert JobEntry(plan.jobs[i], ById(plan.jobs), entries[i]);
    StrWeakOrder();
    SortBySorts(known, StrLess);
    KnownCounts(plan.jobs[i].dependsOn, ById(plan.jobs).Keys, d);
    assert d in ById(plan.jobs).Keys <==> exists j :: j in plan.jobs && j.id == d;
  }

  // ---- levels ----

  /** The entries at one level, in their order. */
  ghost function AtLevel(entries: seq<Entry>, k: int): seq<Entry>
  {
    if entries == [] then []
    else
      var n := |entries| - 1;
      AtLevel(entries[..n], k) + (if entries[n].level == k then [entries[n]] else [])
  }

  /** Level k holds exactly the entries at level k, and the last level is the deepest one used. */
  ghost predicate SplitByLevel(entries: seq<Entry>, levels: seq<seq<Entry>>)
  {
    && (forall k :: 0 <= k < |levels| ==> levels[k] == AtLevel(entries, k))
    && (forall e :: e in entries ==> 0 <= e.level < |levels|)
    && (|levels| > 0 ==> exists e :: e in entries && e.level == |levels| - 1)
  }

  method Deepest(entries: seq<Entry>) returns (depth: int)
    ensures depth >= -1 && forall e :: e in entries ==> e.level <= depth
    ensures depth >= 0 ==> exists e :: e in entries && e.level == depth
  {
    depth := -1;
    for i := 0 to |entries|
      invariant depth >= -1 && forall k :: 0 <= k < i ==> entries[k].level <= depth
      invariant depth >= 0 ==> exists e :: e in entries && e.level == depth
    {
      if entries[i].level > depth {
        depth := entries[i].level;
      }
    }
  }

  /** Each entry is appended to its level's bucket. */
  method Bucket(entries: seq<Entry>) returns (out: seq<seq<Entry>>)
    requires forall e :: e in entries ==> e.level >= 0
    ensures SplitByLevel(entries, out)
  {
    var depth := Deepest(entries);
    var levels := new seq<Entry>[depth + 1](k => []);
    for i := 0 to |entries|
      invariant forall k :: 0 <= k < levels.Length ==> levels[k] == AtLevel(entries[..i], k)
    {
      assert entries[..i + 1][..i] == entries[..i];
      var e := entries[i];
      levels[e.level] := levels[e.level] + [e];
    }
    assert entries[..|entries|] == entries;
    out := levels[..];
  }

  ghost predicate LevelsOf(plan: Plan, levels: seq<seq<Entry>>)
  {
    exists entries :: EntriesOf(plan, entries) && SplitByLevel(entries, levels)
  }

  /** Lane levels come from the planner and index the result, so they are not negative. */
  method GithubLaneMatrixLevels(plan: Plan) returns (out: seq<seq<Entry>>)
    requires forall l :: l in plan.lanes ==> l.level >= 0
    ensures LevelsOf(plan, out)
  {
    var entries := LaneMatrixEntries(plan);
    forall e | e in entries ensures e.level >= 0 {
      var i :| 0 <= i < |entries| && entries[i] == e;
      if |plan.lanes| > 0 {
        assert LaneEntry(plan.lanes[i], e) && plan.lanes[i] in plan.lanes;
      }
    }
    out := Bucket(entries);
  }

  ghost function AllOf(levels: seq<seq<Entry>>): multiset<Entry>
  {
    if levels == [] then multiset{}
    else AllOf(levels[..|levels| - 1]) + multiset(levels[|levels| - 1])
  }

  ghost function Under(entries: seq<Entry>, k: int): multiset<Entry>
  {
    if entries == [] then multiset{}
    else
      var n := |entries| - 1;
      Under(entries[..n], k) + (if entries[n].level < k then multiset{entries[n]} else multiset{})
  }

  lemma {:induction false} UnderNext(entries: seq<Entry>, k: int)
    ensures Under(entries, k + 1) == Under(entries, k) + multiset(AtLevel(entries, k))
  {
    if entries != [] {
      UnderNext(entries[..|entries| - 1], k);
    }
  }

  lemma {:induction false} UnderEnds(entries: seq<Entry>, k: int)
    ensures (forall e :: e in entries ==> e.level >= k) ==> Under(entries, k) == multiset{}
    ensures (forall e :: e in entries ==> e.level < k) ==> Under(entries, k) == multiset(entries)
  {
    if entries != [] {
      var n := |entries| - 1;
      assert entries == entries[..n] + [entries[n]];
      UnderEnds(entries[..n], k);
    }
  }

  lemma {:induction false} LevelsUnder(entries: seq<Entry>, levels: seq<seq<Entry>>)
    requires forall k :: 0 <= k < |levels| ==> levels[k] == AtLevel(entries, k)
    requires forall e :: e in entries ==> e.level >= 0
    ensures AllOf(levels) == Under(entries, |levels|)
  {
    if levels == [] {
      UnderEnds(entries, 0);
    } else {
      LevelsUnder(entries, levels[..|levels| - 1]);
      UnderNext(entries, |levels| - 1);
    }
  }

  /** The levels are a partition: every entry once, at its level. */
  lemma LevelsPartition(entries: seq<Entry>, levels: seq<seq<Entry>>)
    requires SplitByLevel(entries, levels)
    ensures AllOf(levels) == multiset(entries)
  {
    LevelsUnder(entries, levels);
    UnderEnds(entries, |levels|);
  }

  lemma {:induction false} AtLevelMembers(entries: seq<Entry>, k: int)
    ensures forall e :: e in AtLevel(entries, k) <==> e in entries && e.level == k
  {
    if entries != [] {
      var n := |entries| - 1;
      AtLevelMembers(entries[..n], k);
      assert entries == entries[..n] + [entries[n]];
    }
  }

  /** A level keeps the entries in their order. */
  lemma {:induction false} LevelKeepsOrder(a: seq<Entry>, b: seq<Entry>, k: int)
    ensures AtLevel(a + b, k) == AtLevel(a, k) + AtLevel(b, k)
  {
    if b == [] {
      assert a + b == a;
    } else {
      var n := |b| - 1;
      assert (a + b)[..|a + b| - 1] == a + b[..n];
      LevelKeepsOrder(a, b[..n], k);
    }
  }

  // ---- a safe schedule ----

  /** A plan without lanes, with distinct ids and no dependency cycle. */
  ghost predicate LaneLess(plan: Plan)
  {
    |plan.lanes| == 0 && DistinctIds(plan.jobs) && Acyclic(InPlan(ById(plan.jobs)))
  }

  lemma EntryOf(plan: Plan, entries: seq<Entry>, id: string) returns (e: Entry)
    requires LaneLess(plan) && EntriesOf(plan, entries) && id in ById(plan.jobs)
    ensures e in entries && e.lane == id && LongestFrom(InPlan(ById(plan.jobs)), id, e.level)
  {
    var job := ById(plan.jobs)[id];
    var i :| 0 <= i < |plan.jobs| && plan.jobs[i] == job;
    e := entries[i];
  }

  lemma EntryFacts(plan: Plan, entries: seq<Entry>, e: Entry)
    requires LaneLess(plan) && EntriesOf(plan, entries) && e in entries
    ensures e.lane in ById(plan.jobs) && LongestFrom(InPlan(ById(plan.jobs)), e.lane, e.level)
    ensures forall u :: u in e.upstreamLanes ==> (e.lane, u) in InPlan(ById(plan.jobs))
  {
    var i :| 0 <= i < |entries| && entries[i] == e;
    LaterJobWins(plan.jobs, i);
    StrWeakOrder();
    SortByMembers(Known(plan.jobs[i].dependsOn, ById(plan.jobs).Keys), StrLess);
  }

  /** An upstream lane sits at a strictly lower level. */
  lemma UpstreamIsLower(plan: Plan, entries: seq<Entry>, e: Entry, u: Entry)
    requires LaneLess(plan) && EntriesOf(plan, entries)
    requires e in entries && u in entries && u.lane in e.upstreamLanes
    ensures u.level < e.level
  {
    EntryFacts(plan, entries, e);
    EntryFacts(plan, entries, u);
    DependencyIsShallower(InPlan(ById(plan.jobs)), e.lane, e.level, u.lane, u.level);
  }

  lemma DeepestWalk(plan: Plan, entries: seq<Entry>, n: nat) returns (w: seq<string>)
    requires LaneLess(plan) && EntriesOf(plan, entries)
    requires exists e :: e in entries && e.level == n
    ensures IsWalk(InPlan(ById(plan.jobs)), w) && |w| == n + 1 && w[0] in ById(plan.jobs)
    ensures LongestFrom(InPlan(ById(plan.jobs)), w[0], n)
  {
    var top :| top in entries && top.level == n;
    EntryFacts(plan, entries, top);
    w :| IsWalk(InPlan(ById(plan.jobs)), w) && w[0] == top.lane && |w| == n + 1;
  }

  lemma LevelOfJob(plan: Plan, entries: seq<Entry>, id: string, k: nat)
    requires LaneLess(plan) && EntriesOf(plan, entries)
    requires id in ById(plan.jobs) && LongestFrom(InPlan(ById(plan.jobs)), id, k)
    ensures AtLevel(entries, k) != []
  {
    var e := EntryOf(plan, entries, id);
    assert e.level == k;
    AtLevelMembers(entries, k);
    assert e in AtLevel(entries, k);
  }

  lemma TailElement(edges: set<(string, string)>, ids: set<string>, w: seq<string>, n: nat, k: nat)
    requires forall s :: s in edges ==> s.1 in ids
    requires IsWalk(edges, w) && |w| == n + 1 && w[0] in ids && k <= n && LongestFrom(edges, w[0], n)
    ensures w[n - k] in ids && LongestFrom(edges, w[n - k], k)
  {
    LongestTail(edges, w, n, k);
    if k < n {
      assert (w[n - k - 1], w[n - k]) in edges;
    }
  }

  lemma LevelUsed(plan: Plan, entries: seq<Entry>, n: nat, k: nat)
    requires LaneLess(plan) && EntriesOf(plan, entries)
    requires k <= n && exists e :: e in entries && e.level == n
    ensures AtLevel(entries, k) != []
  {
    var w := DeepestWalk(plan, entries, n);
    TailElement(InPlan(ById(plan.jobs)), ById(plan.jobs).Keys, w, n, k);
    LevelOfJob(plan, entries, w[n - k], k);
  }

  /** No level up to the deepest is empty. */
  lemma NoLevelEmpty(plan: Plan, levels: seq<seq<Entry>>, k: nat)
    requires LaneLess(plan) && LevelsOf(plan, levels) && k < |levels|
    ensures levels[k] != []
  {
    var entries :| EntriesOf(plan, entries) && SplitByLevel(entries, levels);
    LevelUsed(plan, entries, |levels| - 1, k);
  }

  ghost predicate DoneBefore(earlier: seq<Entry>, later: seq<Entry>, start: string -> int, finish: string -> int)
  {
    forall f, e :: f in earlier && e in later ==> finish(f.lane) <= start(e.lane)
  }

  /** Each level starts only once the level before it has finished, as a
      workflow whose level k needs level k-1 runs them. */
  ghost predicate LevelByLevel(levels: seq<seq<Entry>>, start: string -> int, finish: string -> int)
  {
    && (forall k, e :: 0 <= k < |levels| && e in levels[k] ==> start(e.lane) <= finish(e.lane))
    && (forall j, k :: 0 <= j && k == j + 1 < |levels| ==> DoneBefore(levels[j], levels[k], start, finish))
  }

  lemma {:induction false} LowerFinishesFirst(levels: seq<seq<Entry>>, start: string -> int, finish: string -> int,
                                              f: Entry, j: nat, e: Entry, k: nat)
    requires LevelByLevel(levels, start, finish)
    requires forall i :: 0 <= i < |levels| ==> levels[i] != []
    requires j < k < |levels| && f in levels[j] && e in levels[k]
    ensures finish(f.lane) <= start(e.lane)
    decreases k
  {
    assert DoneBefore(levels[k - 1], levels[k], start, finish);
    if j + 1 < k {
      var g := levels[k - 1][0];
      assert g in levels[k - 1];
      LowerFinishesFirst(levels, start, finish, f, j, g, k - 1);
    }
  }

  lemma UpstreamEntry(plan: Plan, entries: seq<Entry>, e: Entry, up: string) returns (u: Entry)
    requires LaneLess(plan) && EntriesOf(plan, entries) && e in entries && up in e.upstreamLanes
    ensures u in entries && u.lane == up && u.level < e.level
  {
    EntryFacts(plan, entries, e);
    u := EntryOf(plan, entries, up);
    UpstreamIsLower(plan, entries, e, u);
  }

  lemma UpstreamLevel(plan: Plan, levels: seq<seq<Entry>>, k: nat, e: Entry, up: string) returns (u: Entry, j: nat)
    requires LaneLess(plan) && LevelsOf(plan, levels)
    requires k < |levels| && e in levels[k] && up in e.upstreamLanes
    ensures j < k && u in levels[j] && u.lane == up
  {
    var entries :| EntriesOf(plan, entries) && SplitByLevel(entries, levels);
    AtLevelMembers(entries, k);
    u := UpstreamEntry(plan, entries, e, up);
    j := u.level;
    AtLevelMembers(entries, j);
  }

  /** Running the levels one after the other starts no lane before every
      lane it waits on has finished. */
  lemma LevelsAreASafeSchedule(plan: Plan, levels: seq<seq<Entry>>, start: string -> int, finish: string -> int,
                               k: nat, e: Entry, up: string)
    requires LaneLess(plan) && LevelsOf(plan, levels) && LevelByLevel(levels, start, finish)
    requires k < |levels| && e in levels[k] && up in e.upstreamLanes
    ensures finish(up) <= start(e.lane)
  {
    var u, j := UpstreamLevel(plan, levels, k, e, up);
    forall i | 0 <= i < |levels| ensures levels[i] != [] {
      NoLevelEmpty(plan, levels, i);
    }
    LowerFinishesFirst(levels, start, finish, u, j, e, k);
  }
}
