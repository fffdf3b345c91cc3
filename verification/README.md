# Verified model of the orun CLI's run protocol, plan levels and graph walks

orun compiles a repository into a plan of jobs and runs it, on one machine or
on many runners that share the run through a coordinator. This project models
the logic of the `cmd/orun` package that has to be right when calls fail, when
goroutines interleave and when graphs have cycles, and proves what it promises.
`dafny verify dfyconfig.toml` checks all of it.

| files | what they model |
|---|---|
| `Coordinator`, `FailFast`, `RemoteClaim` | claiming one job of a shared run, waiting for its dependencies, and giving up early; against the coordinator's own rules |
| `Leases`, `RemoteRun` | the lease table and its race: each job's heartbeat against the hook that reports its result, in every interleaving |
| `Reporting`, `RunExit` | delivering a result with retries, and what the run's exit status says about its results |
| `LaneMatrix` | job depths by a memoised walk, and the matrix split into levels |
| `CatalogGraph`, `CatalogFilter`, `CatalogTree`, `TreeLines` | the reachable part of the dependency graph, the printed trees and what their lines say, the forest |
| `Migrations`, `LogTail` | loops over a service that fails at any call |
| `Shell`, `Flags`, `Slug`, `FormatSize` | printing for a shell, normalising a name, choosing a unit |
| `Walks`, `Sorting`, `Plans`, `Options` | what the others share |

Code that changes things step by step is modelled as classes and methods with
loops, and tied by its `ensures` to functions, predicates or logs of what
happened; lemmas then say what those mean. Calls into a server, the clock and
the ends of contexts are functions of the call's number (or, in `RemoteRun`,
freely chosen steps), so each result holds for every behaviour of the
environment. Times are whole milliseconds.

What is taken for granted, and where:

- A plan's dependencies have no cycle wherever `Acyclic` is required: the
  blocked-dependency search does not end on a cycle of known, unfailed jobs.
  Levels also need distinct job ids. `JobDepths` ends on every plan.
- The coordinator keeps its rules: a job is claimed, or its stored result
  adopted, only when every dependency has completed; a terminal job stays so;
  only a retry re-opens a failed one. A state that is read is a part of the
  run as it was at one moment. Where `OnlyClaimedFail` is required, a failure
  comes from a job that was claimed, so its dependencies had completed: only
  the holder may complete a job, and a time-out follows a lapsed lease
  (`specs/orun-native-coordination/vendored/coordination-api.md:94-98` and
  `:108-110`). The soundness results allow any job to fail.
- A result counts as accepted when its update was answered without an error:
  the server took it, or another runner's result supersedes it
  (`internal/statebackend/coordbackend.go:496-505`).
- A job starts again in one process only when the heartbeats of its earlier
  starts will not touch the lease table again. `RestartIsSafeIff` shows that
  this is exactly what is needed: otherwise a late lease-lost answer can
  preempt the new start, whose result is then neither sent nor listed. The
  runner in `internal/runner/runner.go` starts each job once per process. A
  start's terminal hook may be called any number of times, one call after the
  other: the runner calls it a second time when a job's finalizer fails after
  a step did (`internal/runner/runner.go:1084` and `:1122`).
- Every wait takes at least one tick, and at most its argument plus a delay
  that the stated bounds carry along.
- Migration lists have distinct names, and every program's list is a prefix of
  one list, so older and newer programs may take turns.
- A log read answers the text between the cursor it was asked from and the one
  it names.
- Strings in the graph hold no NUL character where edges are told apart by
  their joined key; node keys and edge triples are distinct only where order
  independence is claimed.

Where the code does less than its comments say:

- The wait for dependencies is meant to notice at once that a job can no
  longer run, but it looks for failed dependencies only. `WaitsInVainIff` gives
  the exact condition for any state: it waits in vain when the job itself has
  ended or a dependency leads to a cancelled job. By the coordinator's rules the
  second never holds for a job that is still open, so only the job's own end is
  missed (`ExactInEveryRun`), as when the run is cancelled under the waiting
  job (`CancellationGoesUnnoticed`).
- A job on the list of results that could not be recorded may have an accepted
  one: when a start's hook reports twice and the two reports end differently
  (`AcceptedAndListedIff`, `TwoReportsCanDiffer`). A green exit is not affected
  (`GreenIffSettled`).
- `forestRoots` promises that the whole graph renders, but as soon as some node
  is a root, a node with no listed, parentless ancestor is left out
  (`ForestPrintsExactly`). `CycleBesideRootHides` is such an input: cycles of
  calls are only warnings (`internal/catalogresolve/validate.go:158-168`).
  `UnlistedParentHides` is an acyclic one, which
  `internal/catalogresolve/graph.go:59-66` does not build, since it lists both
  ends of every edge; on acyclic graphs that it does build everything is
  printed (`ForestPrintsEverything`).
- `buildReplacementCommand` prints some fields without quoting them. The command
  survives exactly when those are plain words (`CommandSurvivesIffPlain`).

## Model

| member | source | states |
|---|---|---|
| `Coordinator.EveryRunIsSound` | internal/statebackend/fold.go:169-240 | Every continuation of a run, retries included, keeps it that a running or completed job has only completed dependencies. |
| `Coordinator.ReachableIsSound` | internal/statebackend/fold.go:127-131 | So it holds in every state reached from a fresh run. |
| `Coordinator.BlockedIffChain` | cmd/orun/command_run.go:1179-1194 | On an acyclic plan the search answers true exactly when a dependency chain leads from the job to a failed one with every member after the first known to the run state; an unknown job ends the search on its chain. |
| `Coordinator.FailFastIsSound` | cmd/orun/command_run.go:1141-1159 | Giving up is sound: when a dependency has failed, or is pending and transitively blocked, no continuation of the run without a retry ever makes the waiting job runnable. |
| `Coordinator.OnlyARetryReopens` | cmd/orun/command_run.go:1141-1159 | If such a job became runnable after all, the failed end of every chain that held it back was retried. |
| `Coordinator.RetryCanReopen` | cmd/orun/command_run.go:1142-1157 | A retry does re-open one: a three-step run after which a hopeless job is runnable, which is why retry runs keep waiting. |
| `FailFast.Complete` | internal/statebackend/fold.go:290-310 | A job that no chain leads from to a failed or cancelled one can be brought to completion without a retry, touching only what it depends on. |
| `FailFast.CanStillRunIff` | internal/statebackend/fold.go:290-310 | A job can still become runnable without a retry exactly when it has not ended and no dependency leads to a failed or cancelled job. |
| `FailFast.GivingUpIsExact` | cmd/orun/command_run.go:1141-1159 | In every state of a run read whole, the job can still run exactly when it has not ended, no dependency is held hopeless, and none leads to a cancelled job. |
| `FailFast.WaitsInVainIff` | cmd/orun/command_run.go:1132-1159 | The client holds nothing against any dependency of a job that can no longer run exactly when nothing is hopeless and the job itself has ended or a dependency leads to a cancelled job. |
| `FailFast.ExactInEveryRun` | specs/orun-native-coordination/vendored/coordination-api.md:94-110 | In every state that a run by the coordinator's rules reaches, retries included, the job can still run exactly when it has not ended and no dependency is hopeless. |
| `FailFast.ExactIfRetriesReady` | cmd/orun/command_run.go:1132-1159 | The same for every run, whichever jobs fail, in which only jobs whose dependencies have completed are retried. |
| `FailFast.ExactWithoutRetries` | cmd/orun/command_run.go:1132-1159 | In particular for every run without retries. |
| `FailFast.CancellationGoesUnnoticed` | internal/statebackend/fold.go:164-173 | Cancelling a fresh run of two jobs, by the rules, reaches a state in which the waiting job can never run and nothing is held against its dependency. |
| `RemoteClaim.BackoffDoubles` | cmd/orun/command_run.go:1320-1326 | After k steps a wait is its first value doubled k times, or the maximum if that is less. |
| `RemoteClaim.ScanDeps` | cmd/orun/command_run.go:1136-1170 | The scan returns the verdict on the first dependency, in order, that anything is held against, and nothing only when every dependency is fine. |
| `RemoteClaim.VerdictIsSound` | cmd/orun/command_run.go:1141-1159 | A verdict that gives up comes only off a retry run, and the job it gives up can never become runnable from the state just read. |
| `RemoteClaim.WaitingIsExact` | cmd/orun/command_run.go:1136-1170 | Off a retry run, with the whole state read, the job can still run exactly when it has not ended, the scan gives up on no dependency, and no dependency leads to a cancelled job. |
| `RemoteClaim.PollOnce` | cmd/orun/command_run.go:1123-1172 | One poll: an error or the job's appearance ends the wait at once, and only then is the state consulted; it is gone on from exactly when it answered, did not list the job, and no loaded state holds anything against a dependency. |
| `RemoteClaim.WaitForEvent` | cmd/orun/command_run.go:1116-1122 | The wait ends with the event the server held it for, or takes the whole poll interval, or ends with the context in a sleep. |
| `RemoteClaim.WaitForJobRunnable` | cmd/orun/command_run.go:1102-1175 | The calls from first to last: every poll gone on from was begun before the deadline, answered, did not list the job and brought no verdict; the end is the deadline, the context or what the last poll was told; intervals double up to 15 seconds; it ends at most one interval and three calls after the deadline. |
| `RemoteClaim.PollIntervals` | cmd/orun/command_run.go:1103-1110 | The i-th wait is the first delay, two seconds if the caller gave none, doubled i times up to 15 seconds. |
| `RemoteClaim.StaleMeansLapsed` | cmd/orun/command_run.go:1160-1169 | A wait that gives up on a stale dependency has just read one that is running with a heartbeat older than two leases, five minutes before a lease is known; a retry run gives up on nothing else. |
| `RemoteClaim.PassedShowsNone` | cmd/orun/command_run.go:1160-1169 | A poll that was gone on from showed no such dependency. |
| `RemoteClaim.AwaitDependencies` | cmd/orun/command_run.go:1051-1063 | The loop goes on after a wait that saw the job appear or a stale dependency, which never leaves the loop; giving up means that the job can never run. |
| `RemoteClaim.Consider` | cmd/orun/command_run.go:1022-1082 | An answer that did not claim the job either decides the outcome, in the order of the switch, or is waited out: not past the deadline, and for at least its delay. |
| `RemoteClaim.PerformRemoteJobClaim` | cmd/orun/command_run.go:961-1084 | Every round is a claim that was sent and what the server answered to it; each follows one that was undecided, after the sleep or the wait it called for, with the delay backed off; the last answer explains the end; the lease length in the table is the last one granted; the loop ends by 30 minutes, plus one 60-second wait, plus four calls. |
| `RemoteClaim.ClaimDelays` | cmd/orun/command_run.go:981-1082 | The delay is two seconds doubled for every answered claim, at most sixty; answers that the run is not visible yet do not count. |
| `RemoteClaim.StartsOnlyWhenClaimed` | cmd/orun/command_run.go:1013-1020 | The job starts exactly when the server answered one of the claims with claimed, which is then the last one sent, with that answer's positive heartbeat interval. |
| `RemoteClaim.EndTellsLastAnswer` | cmd/orun/command_run.go:1013-1050 | In the fields of the server's last answer: the run ends as already complete exactly when the claim was refused, dependencies were not blocked and the job had succeeded; likewise already failed, result missing, and blocked for good off a retry run; a start beats at the granted seconds, 20 if none; a failed claim, the deadline and an ended wait are told apart from these. |
| `RemoteClaim.SleepsBetweenClaims` | cmd/orun/command_run.go:996-1083 | Between two claims lie two seconds while the run is not visible, and otherwise the delay then in force, which starts at two seconds and doubles up to sixty, unless the answer sent the loop to wait for dependencies. |
| `RemoteClaim.ClaimsInOrder` | cmd/orun/command_run.go:996-1083 | Claims are sent one after the other, each later than the answer before it. |
| `Leases.JobLeases.Lookup` | cmd/orun/job_lease.go:38-45 | A job's record is created empty on first use and is never shared with another job. |
| `Leases.JobLeases.SetHeartbeatInterval` | cmd/orun/job_lease.go:72-76 | Sets one job's interval; every other record stays. |
| `Leases.JobLeases.ObserveLeaseSeconds` | cmd/orun/job_lease.go:48-55 | A granted lease replaces the known length; zero or less is ignored. |
| `Leases.JobLeases.StaleAfterNow` | cmd/orun/job_lease.go:60-70 | Two leases once one is known, five minutes before. |
| `Leases.JobLeases.StartJob` | cmd/orun/job_lease.go:80-89 | Clears preempted and done, keeps the interval, and names the context that terminal will end. |
| `Leases.JobLeases.LeaseLost` | cmd/orun/job_lease.go:94-103 | The loss is genuine exactly when the job is not done; only then is the job preempted. |
| `Leases.JobLeases.JobTerminal` | cmd/orun/job_lease.go:108-117 | Marks the job done, ends the heartbeat of its latest start, and says whether it was preempted before. |
| `RemoteRun.StepKeepsInv` | cmd/orun/command_run.go:836-909 | Every step of heartbeats, starts and hook calls, repeated ones too, keeps the invariant between the lease table, the starts and the unrecorded list. |
| `RemoteRun.EveryRun` | cmd/orun/command_run.go:836-909 | So does every interleaving. |
| `RemoteRun.StartsTellTheRun` | cmd/orun/job_lease.go:108-117 | After every run a start shows what happened to it: each update and hook call counted, cancelled exactly when its heartbeat cancelled it, and its heartbeat's context over exactly when its hook was called, it was cancelled, or the context ended. |
| `RemoteRun.EndedBeatCanStop` | cmd/orun/command_run.go:878-891 | Once a job has ended its heartbeat can stop whenever it is between beats. |
| `RemoteRun.ToldNeverBeatsAgain` | cmd/orun/command_run.go:1296-1316 | After being told of a lost lease a heartbeat never beats again, and it cancels its job only if the job had not ended by then. |
| `RemoteRun.BeatsAtLastInterval` | cmd/orun/job_lease.go:72-89 | After every run a job's interval is the one last set for it, whatever was started or lost in between. |
| `RemoteRun.NeverCanceledAndReported` | cmd/orun/command_run.go:878-891 | No start is both cancelled as lease-lost and reported, however often its hook is called. |
| `RemoteRun.WhoeverIsFirstWins` | cmd/orun/command_run.go:848-891 | A lease found lost first suppresses every update for good; once a report has begun no later answer cancels the job. |
| `RemoteRun.RunKeeps` | cmd/orun/command_run.go:848-909 | Along every run a lost lease stays lost, the calls of a start's hook that returned keep their ends, and a call that has begun to report does not end as skipped. |
| `RemoteRun.SettledIsStable` | cmd/orun/job_lease.go:80-117 | Done and not preempted stays so until the job is started again. |
| `RemoteRun.ResultsConserved` | cmd/orun/command_run.go:878-909 | Call by call: on a start whose lease was lost every hook call was skipped and nothing was sent; on any other every call was delivered or given up; a result was accepted exactly when one was delivered; and the list holds every given-up call once. |
| `RemoteRun.ListedIff` | cmd/orun/command_run.go:1241-1258 | A job is on the list exactly when a hook call for it was given up. |
| `RemoteRun.AcceptedAndListedIff` | internal/runner/runner.go:1081-1125 | A result was accepted and the run lists the job as unrecorded exactly when a call was delivered and one for the job was given up; for the only start of a job, when two calls of its hook ended differently. |
| `RemoteRun.TwoReportsCanDiffer` | internal/runner/runner.go:1081-1125 | A run in which the hook reports twice, for each way the two reports can end; the job is both accepted and listed exactly when they differ. |
| `RemoteRun.NothingUnrecorded` | cmd/orun/command_run.go:461-468 | Once all hooks returned, the list that turns the exit red is empty exactly when every call delivered its result or the job had been taken over. |
| `RemoteRun.OverlapDropsAResult` | cmd/orun/job_lease.go:80-103 | When a job starts again while an older heartbeat of it holds a lease-lost answer, the new start's result can be skipped without its lease being lost and without being listed. |
| `RemoteRun.RestartIsSafeIff` | cmd/orun/job_lease.go:80-103 | In every invariant state, starting a job again can never lead to such a loss exactly when each older heartbeat of it is over or about to cancel its own job; one that ticks, awaits an answer or was told can. |
| `RemoteRun.LateAnswerHappens` | cmd/orun/command_run.go:1296-1316 | A run that keeps to the rules reaches such a moment. |
| `Reporting.UpdateJobWithRetryWindow` | cmd/orun/command_run.go:1211-1233 | Every attempt is an update the server answered so; each that was gone on from failed within the window, was followed by the k-th wait and by a renewal before the next; the last answer, the window or the context is the end. |
| `Reporting.SucceedsIffAccepted` | cmd/orun/command_run.go:1214-1220 | The loop succeeds exactly when the server accepted one of its updates, is refused exactly when the server refused one, and goes on only from failures in passing. |
| `Reporting.StartsNoSooner` | cmd/orun/command_run.go:1221-1231 | The k-th update is sent no sooner than the waits before it add up to. |
| `Reporting.DefaultWindowBounds` | cmd/orun/command_run.go:1207-1209 | With three minutes and two seconds: no wait above 32 seconds and at most ten updates, whatever the calls take. |
| `Reporting.FinishRun` | cmd/orun/command_run.go:434-482 | No error exactly when the runner succeeded, no signal came, no result is unrecorded and no log chunk is left; every problem is the exit or a warning. |
| `RunExit.GreenIffSettled` | cmd/orun/command_run.go:434-482 | After any interleaving in which every hook returned, the run ends without an error exactly when the runner succeeded, no signal came, no log chunk is left, and every reported result was accepted or its job taken over. |
| `RunExit.GivenUpIsTold` | cmd/orun/command_run.go:461-468 | Every given-up call is told by the exit or a warning that names its job, and the exit is not green. |
| `Plans.FindJob` | cmd/orun/command_run.go:1338-1345 | A job with the id when the plan has one, else the empty job. |
| `LaneMatrix.DepthWalk.Walk` | cmd/orun/github_matrix.go:112-135 | The walk ends on every graph, leaves the visiting set as it found it, only adds to the memo, and on an acyclic plan returns the longest chain from the job. |
| `LaneMatrix.JobDepths` | cmd/orun/github_matrix.go:107-140 | Every job gets a depth; on an acyclic plan it is the length of the longest chain of in-plan dependencies. |
| `LaneMatrix.DepthIsOneMoreThanDeepest` | cmd/orun/github_matrix.go:105-106 | These are the plain recursive depths: above every dependency's, and one above the deepest. |
| `LaneMatrix.DepthsUnique` | cmd/orun/github_matrix.go:112-139 | No other table has them. |
| `LaneMatrix.DepthsIgnoreOrder` | cmd/orun/github_matrix.go:108-139 | Two orders of the same jobs, with distinct ids, get the same table. |
| `LaneMatrix.LaneMatrixEntries` | cmd/orun/github_matrix.go:56-91 | One entry per lane, or per job with its name by the fallbacks, its depth and its in-plan dependencies sorted. |
| `LaneMatrix.EntrySaysJob` | cmd/orun/github_matrix.go:70-89 | A job's entry has the job's own fields, its check name, else the rendered one, else its id, and the dependencies that the plan holds, in order and each as often as declared. |
| `LaneMatrix.GithubLaneMatrixLevels` | cmd/orun/github_matrix.go:155-176 | Level k holds the entries at level k in their order, and the last level is the deepest used. |
| `LaneMatrix.LevelsPartition` | cmd/orun/github_matrix.go:163-169 | The levels hold every entry exactly once. |
| `LaneMatrix.LevelKeepsOrder` | cmd/orun/github_matrix.go:167-169 | A level keeps the order of the entries: what comes first in the list comes first in the level. |
| `LaneMatrix.UpstreamIsLower` | cmd/orun/github_matrix.go:81-88 | On a lane-less acyclic plan an upstream lane is at a strictly lower level. |
| `LaneMatrix.NoLevelEmpty` | cmd/orun/github_matrix.go:157-166 | There no level up to the deepest is empty. |
| `LaneMatrix.LevelsAreASafeSchedule` | cmd/orun/github_matrix.go:149-154 | Running level k only after level k-1 starts no lane before each of its upstreams has finished. |
| `CatalogGraph.ResolveGraphNodeKey` | cmd/orun/catalog_tree.go:181-193 | A key that is present wins; else a node of that name; else nothing. |
| `CatalogGraph.FirstNameWins` | cmd/orun/catalog_tree.go:187-191 | Among nodes that share the name the first is taken. |
| `CatalogGraph.OutIsInBackwards` | cmd/orun/catalog_tree.go:137-146 | b is reachable from a outwards exactly when a is reachable from b inwards. |
| `CatalogGraph.BothIsUnion` | cmd/orun/catalog_tree.go:328-347 | Between named nodes the steps in both directions are those outwards and those inwards together. |
| `CatalogGraph.BothIsSymmetric` | cmd/orun/catalog_tree.go:146-151 | Following both directions, a reaches b exactly when b reaches a. |
| `CatalogFilter.EdgeKeyIsTriple` | cmd/orun/catalog_tree.go:156 | Without NUL characters the joined key tells edges apart by from, to and type. |
| `CatalogFilter.Search` | cmd/orun/catalog_tree.go:128-167 | The search ends, reaches exactly what the root reaches, and keeps one edge per key of those that leave the reached set. |
| `CatalogFilter.FilterGraph` | cmd/orun/catalog_tree.go:117-177 | Without a root everything, sorted with ties in their order; with an unknown root nothing; else the listed reachable nodes and exactly one edge per triple that leaves them, sorted. |
| `CatalogFilter.PayloadMeans` | cmd/orun/catalog_tree.go:135-176 | Under a known root the payload lists exactly the nodes the root reaches, and exactly the triples of edges that start at a reached node outwards, end at one inwards, or either when both directions are followed, and whose far end has a name. |
| `CatalogFilter.RootlessIsFixed` | cmd/orun/catalog_tree.go:195-206 | Without a root this leaves one result only, repeated keys and triples included. |
| `CatalogFilter.FilterIgnoresOrder` | cmd/orun/catalog_tree.go:117-177 | With distinct keys and triples the result is the same for every order of the input, without a root, with a node key, and with a name no two nodes share. |
| `CatalogTree.TreePrinter.PrintTreeNode` | cmd/orun/catalog_tree.go:286-324 | Ends on every graph, prints exactly the tree's lines, and leaves the path as it found it. |
| `CatalogTree.ChildrenAreStable` | cmd/orun/catalog_tree.go:300-307 | Children come in order of neighbor and type, parallel edges of one type in the order of the graph. |
| `CatalogTree.ChildrenInOrder` | cmd/orun/catalog_tree.go:301-307 | Of two children the earlier has the smaller neighbor, or the same neighbor and no greater a type. |
| `CatalogTree.PrintedIffReachable` | cmd/orun/catalog_tree.go:286-324 | A key is printed, and printed with its own subtree, exactly when the root reaches it. |
| `TreeLines.CycleMarks` | cmd/orun/catalog_tree.go:291-294 | A line is marked as a cycle exactly when one of the lines it is nested under is for the same key. |
| `TreeLines.EveryEdgeIsPrinted` | cmd/orun/catalog_tree.go:308-323 | Under every key that is not marked, every edge that leaves it in the direction has a line with its type and whether it is optional, followed by the line of the node at its far side. |
| `TreeLines.LinesShowNames` | cmd/orun/catalog_tree.go:286-290 | Every node line shows the name of its key, or the key when it has none. |
| `CatalogTree.BuildAdjacency` | cmd/orun/catalog_tree.go:217-229 | Each key's list holds the edges that touch it in the direction, in their order. |
| `TreeLines.ListedForEachEnd` | cmd/orun/catalog_tree.go:217-229 | Each edge is listed at a key once for each of its ends there that the direction leaves by, so parallel edges are kept and a self loop is listed twice in both directions. |
| `TreeLines.NamedByLast` | cmd/orun/catalog_tree.go:212-215 | Of nodes with one key the last gives the name. |
| `CatalogTree.ForestRoots` | cmd/orun/catalog_tree.go:258-284 | The sorted keys of the nodes with no parent, each as often as it is listed; of all nodes when every node has a parent. |
| `CatalogTree.ParentIsStep` | cmd/orun/catalog_tree.go:259-269 | A named key has a parent exactly when a step of the direction leads to it, so in both directions any edge at a key rules it out as a root. |
| `CatalogTree.RenderCatalogTree` | cmd/orun/catalog_tree.go:208-253 | One tree under the resolved root, or one under each forest root; an unknown root and an empty graph say so. |
| `CatalogTree.TreesInOrder` | cmd/orun/catalog_tree.go:248-251 | The trees stand in the order of their roots, each right after those of the roots before it. |
| `CatalogTree.ForestPrintsExactly` | cmd/orun/catalog_tree.go:248-284 | The forest prints a node exactly when the graph has no parentless node or the node lies under a listed one. |
| `CatalogTree.ForestPrintsEverything` | cmd/orun/catalog_tree.go:255-257 | On an acyclic graph whose edges join listed nodes, every node is printed, outwards and inwards. |
| `CatalogTree.CycleBesideRootHides` | cmd/orun/catalog_tree.go:271-281 | A graph whose edges join listed nodes, with a cycle beside a root, of which in no direction any node of the cycle is printed. |
| `CatalogTree.UnlistedParentHides` | cmd/orun/catalog_tree.go:271-276 | An acyclic graph with an unlisted parent in which a listed node is not printed; the graph builder emits none such. |
| `Migrations.ApplyMigrations` | cmd/orun/command_backend.go:459-493 | The loop computes the run that the lemmas below are about, whatever each call does. |
| `Migrations.OkRecordsAll` | cmd/orun/command_backend.go:469-491 | On any ledger, a run without an error leaves every listed migration recorded; no run takes a name off. |
| `Migrations.OkIff` | cmd/orun/command_backend.go:459-493 | On any ledger, a run reports no error exactly when the table was created, every check was answered, and the SQL and the record of every unrecorded migration succeeded. |
| `Migrations.RunDoesExactly` | cmd/orun/command_backend.go:469-491 | On any ledger, exactly which migrations a run executes, records and counts: those it comes to, with every check up to them answered and everything unrecorded before them gone through, whose SQL took effect, whose record did too, and whose calls both succeeded. |
| `Migrations.OneRun` | cmd/orun/command_backend.go:459-493 | One run executes the migrations from the first unrecorded one on, each once and in order, records all of them but perhaps the last, counts them, and runs nothing when its list is already covered. |
| `Migrations.EveryRunIsOrderly` | cmd/orun/command_backend.go:457-493 | Over any runs with any failures, the ledger is a prefix of the list, and the executed migrations climb it one at a time. |
| `Migrations.OnlyFirstUnrecordedAgain` | cmd/orun/command_backend.go:475-488 | A run executes again at most the first unrecorded migration, and that one first. |
| `Migrations.ReadyIffAllRecorded` | cmd/orun/command_backend.go:589-599 | After any runs, the count says ready exactly when every embedded migration is recorded; a count that failed never does. |
| `LogTail.FollowRemoteLog` | cmd/orun/command_logs.go:209-256 | For every number of reads: each starts at the cursor the one before left, is sent in its turn and is answered by the server, and none but the last was interrupted; the tail completes exactly on a complete read, gives up exactly on a fifth failure in a row, and is interrupted exactly when the last read failed under an ended context or the context ended in the wait after it. |
| `LogTail.PrintedIsLogUpToCursor` | cmd/orun/command_logs.go:236-240 | After every read what was printed is the log up to the cursor. |
| `LogTail.CompletedPrintedAll` | cmd/orun/command_logs.go:236-243 | A completed tail has printed the whole log. |
| `LogTail.FailuresInARow` | cmd/orun/command_logs.go:226-236 | The count is the number of failed reads at the end, and reads go on only below five. |
| `LogTail.ReadsFollow` | cmd/orun/command_logs.go:226-255 | Every read but the last was neither complete nor a fifth failure; the next is sent at once after an answer the server held back for it, and 1.5 seconds later after any other. |
| `LogTail.QuietReadsAreSpaced` | cmd/orun/command_logs.go:244-255 | A read that said nothing is followed at the earliest 1.5 seconds after it began; on a server without holds, every read is. |
| `Shell.ShellQuoteIsOneWord` | cmd/orun/command_integrations.go:771-778 | What shellQuote prints for any string reads back as that one word. |
| `Shell.QuotedOnlyIfNeeded` | cmd/orun/command_integrations.go:771-778 | A string is printed as it is exactly when it is not empty and holds none of the characters tested for. |
| `Shell.QuotedReads` | cmd/orun/command_integrations.go:773-778 | So it does with anything after it. |
| `Shell.BuildReplacementCommand` | cmd/orun/command_integrations.go:741-769 | The command is the intended arguments, quoted where the code quotes, joined by blanks. |
| `Shell.CommandSurvives` | cmd/orun/command_integrations.go:738-769 | It reads back as exactly the intended arguments, whatever the quoted fields hold, when the unquoted fields are plain words. |
| `Flags.FieldsComeBack` | cmd/orun/command_integrations.go:741-769 | Round trip: pasted back, the command names the same provider and key, and the flags of the integrations command, as registered at :173-183, set exactly the fields it was printed for, in rotated mode, with one scope: the environment, else the project, else the workspace. |
| `Shell.ArgumentsSurviveIff` | cmd/orun/command_integrations.go:768-778 | Any list of bare and quoted arguments reads back as itself exactly when every bare one is plain. |
| `Shell.GraceComesBack` | cmd/orun/command_integrations.go:751-753 | The grace period reads back as the number it was given as. |
| `Shell.BareWordsSurviveIffPlain` | cmd/orun/command_integrations.go:774 | Unquoted words read back as themselves exactly when each is non-empty and free of the characters shellQuote tests for. |
| `Shell.CommandSurvivesIffPlain` | cmd/orun/command_integrations.go:741-769 | Whatever the quoted fields hold, the command reads back as the intended arguments exactly when the unquoted fields are plain words. |
| `Slug.SlugifyOrg` | cmd/orun/command_cloud.go:533-553 | The slug is the maximal runs of letters and digits joined by single hyphens, a random one if that is too short, cut to 63 and not left with a hyphen at the cut. |
| `Slug.SlugSpellsLetters` | cmd/orun/command_cloud.go:533-553 | The slug spells the letters and digits of the lowered name in order, as many as fit in 63 characters, with a hyphen exactly between two that were not next to each other; only when the name has fewer than two is it random. |
| `Slug.LettersAreAll` | cmd/orun/command_cloud.go:536-544 | Those are all the letters and digits of the name, in their order. |
| `Slug.EverySlugIsValid` | cmd/orun/command_cloud.go:529-532 | Every slug has 2 to 63 characters of the alphabet, no hyphen at an end and no two in a row. |
| `Slug.ValidSlugIsFixed` | cmd/orun/command_cloud.go:533-553 | Every such string is left as it is. |
| `Slug.SlugifyIsIdempotent` | cmd/orun/command_cloud.go:533-553 | Making a slug of a slug changes nothing, whichever random suffix is drawn. |
| `FormatSize.FormatSizeUnit` | cmd/orun/command_cache.go:263-274 | For every 64-bit count of at least 1024 the divisor is the power of 1024 that leaves a quotient from 1 to below 1024, the prefix is in bounds, and nothing overflows. |
| `FormatSize.OnlyOneUnit` | cmd/orun/command_cache.go:268-272 | No other power of 1024 leaves such a quotient. |

## Left out

- HTTP, OIDC, Cloudflare, GitHub, git, files, signals and processes: only their outcomes enter, as answers the environment chooses.
- Help text, colours, messages and JSON encoding: the model returns values where the code prints text.
- The planner, the runner and the coordinator's inside are not part of this model; lane levels that come from the planner are only bucketed.
- `awaitRemoteUpstreams`, `selectLane` and the log pipeline: other waits of the same shape, and code behind an interface.
- The mutex of the lease table: each of its methods is one atomic step.
- RemoteRun.EveryRun: runs that start a job again while an older heartbeat may still be told of a lost lease are excluded, as stated above; when the runner calls the hook is free, not its sequence of failures; a heartbeat sent under an ended context may answer anything.
- Coordinator.BlockedIffChain: on plans with a dependency cycle nothing is claimed, since the search may not end there.
- RemoteClaim.WaitForJobRunnable: an event wait's own call is part of the wait, so the time it takes to fail counts as lateness; statuses are the five that `internal/remotestate/convert.go:110-125` produces from known phases.
- LaneMatrix.JobDepths: depth values on cyclic plans, which depend on the order of the jobs, are not described.
- CatalogTree.ForestPrintsEverything: following both directions, and a cycle beside a real root, are covered only by the exact condition.
- Migrations.ApplyMigrations: runs follow one another, migrations are their names, and the SQL, its quoting and the recorded time are left out; SQL that fails half-way counts as having taken effect.
- LogTail.FollowRemoteLog: a tail may go on for ever, so the loop is cut after any chosen number of reads; the check for a missing job id is left out.
- Flags.FieldsComeBack: the provider and the key are read by their place, so one that begins with a hyphen, which the flag library takes for a flag, is not described; flags the command never prints are left out.
- Shell.CommandSurvives: characters that shellQuote does not test for, such as a newline or a semicolon, are ordinary to the reader, as in the code.
- Slug.SlugifyOrg: lower-casing is any map on characters (identity on the slug's own where fixed points are claimed), and the retry with a suffix after a name conflict is left out.
- FormatSize.FormatSizeUnit: the printed quotient with one decimal is left out, and with it any rounding up to 1024.
- Selector and precedence chains, input validation and counting code elsewhere in the package: correct, but simple members.
