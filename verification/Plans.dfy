/** The compiled plan as the run and the lane matrix read it. */
module Plans {

  /** `rendered` is what the check-name renderer answers for the job, and
      `vcpu` its declared cores rounded up. */
  datatype PlanJob = PlanJob(
    id: string, index: int, environment: string, dependsOn: seq<string>,
    checkName: string, rendered: string, runsOn: string, estimatedSeconds: int, vcpu: int)

  datatype PlanLane = PlanLane(
    id: string, name: string, index: int, environment: string, jobs: seq<string>,
    runsOn: string, level: int, upstreamLanes: seq<string>, estimatedSeconds: int, vcpu: int)

  datatype Plan = Plan(jobs: seq<PlanJob>, lanes: seq<PlanLane>)

  const EMPTY_JOB := PlanJob("", 0, "", [], "", "", "", 0, 0)

  ghost predicate DistinctIds(jobs: seq<PlanJob>)
  {
    forall i, j :: 0 <= i < j < |jobs| ==> jobs[i].id != jobs[j].id
  }

  /** The first job with the id, or an empty job. */
  function FindJob(jobs: seq<PlanJob>, id: string): (job: PlanJob)
    ensures job.id == id || job == EMPTY_JOB
    ensures (forall j :: j in jobs ==> j.id != id) ==> job == EMPTY_JOB
    ensures (exists j :: j in jobs && j.id == id) ==> job in jobs && job.id == id
  {
    if jobs == [] then EMPTY_JOB
    else if jobs[0].id == id then jobs[0]
    else FindJob(jobs[1..], id)
  }

  /** Who depends on whom, dependencies outside the plan included. */
  ghost function DepEdges(jobs: seq<PlanJob>): set<(string, string)>
  {
    set j, d | j in jobs && d in FindJob(jobs, j.id).dependsOn :: (j.id, d)
  }

  lemma DepEdge(jobs: seq<PlanJob>, id: string, dep: string)
    ensures (id, dep) in DepEdges(jobs) <==> dep in FindJob(jobs, id).dependsOn
  {
  }
}
