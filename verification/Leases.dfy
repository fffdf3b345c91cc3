/** The run's per-job lease bookkeeping. Every method below runs under the
    table's mutex, so each is one atomic step of the run. */
module Leases {
  import opened Options

  /** Milliseconds. */
  const SECOND := 1000
  const MINUTE := 60 * SECOND

  const DEFAULT_STALE_AFTER := 5 * MINUTE

  /** A job's lease record as a value; stopBeat names the heartbeat context it ends. */
  datatype Lease = Lease(heartbeatInterval: int, stopBeat: Option<nat>, preempted: bool, done: bool)

  const FRESH := Lease(0, None, false, false)

  type Table = map<string, Lease>

  function Get(t: Table, job: string): Lease
  {
    if job in t then t[job] else FRESH
  }

  // ---- what each method does to the table ----

  function SetInterval(t: Table, job: string, d: int): Table
  {
    t[job := Get(t, job).(heartbeatInterval := d)]
  }

  function Start(t: Table, job: string, beat: nat): Table
  {
    t[job := Get(t, job).(stopBeat := Some(beat), done := false, preempted := false)]
  }

  /** A heartbeat was told the lease is lost; on a job already done that changes nothing. */
  function Lost(t: Table, job: string): Table
  {
    t[job := if Get(t, job).done then Get(t, job) else Get(t, job).(preempted := true)]
  }

  function Terminal(t: Table, job: string): Table
  {
    t[job := Get(t, job).(done := true)]
  }

  function ObserveLease(ttl: int, seconds: int): int
  {
    if seconds <= 0 then ttl else seconds * SECOND
  }

  function StaleAfter(ttl: int): int
  {
    if ttl > 0 then 2 * ttl else DEFAULT_STALE_AFTER
  }

  /** A result already reported, and not taken over before that. */
  predicate Settled(t: Table, job: string)
  {
    Get(t, job).done && !Get(t, job).preempted
  }

  // ---- the table itself ----

  class JobLease {
    var heartbeatInterval: int
    var stopBeat: Option<nat>
    var preempted: bool
    var done: bool

    constructor ()
      ensures Value() == FRESH
    {
      heartbeatInterval, stopBeat, preempted, done := 0, None, false, false;
    }

    ghost function Value(): Lease
      reads this
    {
      Lease(heartbeatInterval, stopBeat, preempted, done)
    }
  }

  class JobLeases {
    var jobs: map<string, JobLease>
    var leaseTTL: int

    /** No two jobs share a record. */
    ghost predicate Valid()
      reads this
    {
      forall a, b :: a in jobs && b in jobs && a != b ==> jobs[a] != jobs[b]
    }

    ghost function Records(): set<object>
      reads this
    {
      set a | a in jobs :: jobs[a]
    }

    ghost function View(): Table
      reads this, Records()
    {
      map a | a in jobs :: jobs[a].Value()
    }

    constructor ()
      ensures Valid() && View() == map[] && leaseTTL == 0
      ensures fresh(Records())
    {
      jobs, leaseTTL := map[], 0;
    }

    /** The job's record, created on first use. */
    method Lookup(jobID: string) returns (j: JobLease)
      requires Valid()
      modifies this`jobs
      ensures Valid() && jobID in jobs && jobs[jobID] == j
      ensures j.Value() == Get(old(View()), jobID)
      ensures View() == old(View())[jobID := j.Value()]
      ensures fresh(Records() - old(Records()))
    {
      if jobID !in jobs {
        j := new JobLease();
        jobs := jobs[jobID := j];
      } else {
        j := jobs[jobID];
      }
    }

    /** Writing one record changes the table at its job only. */
    twostate lemma Stored(jobID: string)
      requires unchanged(this) && old(Valid()) && jobID in jobs
      requires forall a :: a in jobs && jobs[a] != jobs[jobID] ==> jobs[a].Value() == old(jobs[a].Value())
      ensures View() == old(View())[jobID := jobs[jobID].Value()]
    {
    }

    static lemma Overwritten(t: Table, job: string, a: Lease, b: Lease)
      ensures t[job := a][job := b] == t[job := b]
    {
    }

    method SetHeartbeatInterval(jobID: string, d: int)
      requires Valid()
      modifies this`jobs, Records()
      ensures Valid() && fresh(Records() - old(Records()))
      ensures View() == SetInterval(old(View()), jobID, d)
    {
      var j := Lookup(jobID);
      label Found:
      j.heartbeatInterval := d;
      Stored@Found(jobID);
      Overwritten(old(View()), jobID, old@Found(j.Value()), j.Value());
    }

    method ObserveLeaseSeconds(seconds: int)
      modifies this`leaseTTL
      ensures leaseTTL == ObserveLease(old(leaseTTL), seconds)
      ensures leaseTTL == if seconds > 0 then seconds * 1000 else old(leaseTTL)
    {
      if seconds <= 0 {
        return;
      }
      leaseTTL := seconds * SECOND;
    }

    method StaleAfterNow() returns (d: int)
      ensures d == StaleAfter(leaseTTL)
      ensures leaseTTL > 0 ==> d == leaseTTL + leaseTTL
      ensures leaseTTL <= 0 ==> d == 300_000
    {
      if leaseTTL > 0 {
        return 2 * leaseTTL;
      }
      return DEFAULT_STALE_AFTER;
    }

    /** `beat` is the context the heartbeat of this start runs under. */
    method StartJob(jobID: string, beat: nat) returns (interval: int)
      requires Valid()
      modifies this`jobs, Records()
      ensures Valid() && fresh(Records() - old(Records()))
      ensures View() == Start(old(View()), jobID, beat)
      ensures interval == Get(old(View()), jobID).heartbeatInterval
    {
      var j := Lookup(jobID);
      label Found:
      j.stopBeat := Some(beat);
      j.done := false;
      j.preempted := false;
      Stored@Found(jobID);
      Overwritten(old(View()), jobID, old@Found(j.Value()), j.Value());
      interval := j.heartbeatInterval;
    }

    method LeaseLost(jobID: string) returns (genuine: bool)
      requires Valid()
      modifies this`jobs, Records()
      ensures Valid() && fresh(Records() - old(Records()))
      ensures View() == Lost(old(View()), jobID)
      ensures genuine == !Get(old(View()), jobID).done
    {
      var j := Lookup(jobID);
      label Found:
      if j.done {
        return false;
      }
      j.preempted := true;
      Stored@Found(jobID);
      Overwritten(old(View()), jobID, old@Found(j.Value()), j.Value());
      return true;
    }

    /** `stopped` is the heartbeat context ended by the call. */
    method JobTerminal(jobID: string) returns (preempted: bool, stopped: Option<nat>)
      requires Valid()
      modifies this`jobs, Records()
      ensures Valid() && fresh(Records() - old(Records()))
      ensures View() == Terminal(old(View()), jobID)
      ensures preempted == Get(old(View()), jobID).preempted
      ensures stopped == Get(old(View()), jobID).stopBeat
    {
      var j := Lookup(jobID);
      label Found:
      j.done := true;
      Stored@Found(jobID);
      Overwritten(old(View()), jobID, old@Found(j.Value()), j.Value());
      stopped := j.stopBeat;
      preempted := j.preempted;
    }
  }
}
