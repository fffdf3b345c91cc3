/** What the exit of a run says about the results of its jobs. */
module RunExit {
  import opened Options
  import opened Sorting
  import opened RemoteRun
  import Reporting

  /** Once every hook has returned, the run ends without an error exactly when
      the runner succeeded, no signal came, no log chunk is left, and of every
      start each reported result was accepted or the job was taken over. */
  lemma GreenIffSettled(steps: seq<Step>, runner: Option<string>, signal: Option<string>, undrained: Option<nat>,
                        err: Reporting.RunError, warnings: seq<Reporting.RunError>)
    requires AllEnabled(EMPTY, steps)
    requires forall s :: s in After(EMPTY, steps).starts ==> s.hook.Returned?
    requires Reporting.EndsAs(runner, signal, After(EMPTY, steps).unrecorded, undrained, err, warnings)
    ensures err.NoError? <==>
      && runner.None? && signal.None? && (undrained.None? || undrained.value == 0)
      && forall s :: s in After(EMPTY, steps).starts ==> Settles(s)
  {
    NothingUnrecorded(steps);
  }

  /** A call of a hook that was given up is told, by the exit or by a warning
      that names its job, also when another call delivered the result. */
  lemma GivenUpIsTold(steps: seq<Step>, s: JobStart, runner: Option<string>, signal: Option<string>, undrained: Option<nat>,
                      err: Reporting.RunError, warnings: seq<Reporting.RunError>) returns (jobs: seq<string>)
    requires AllEnabled(EMPTY, steps) && s in After(EMPTY, steps).starts && GivenUp in s.calls
    requires Reporting.EndsAs(runner, signal, After(EMPTY, steps).unrecorded, undrained, err, warnings)
    ensures s.job in jobs && Reporting.Told(Reporting.ResultsNotRecorded(jobs), err, warnings) && !err.NoError?
  {
    var r := After(EMPTY, steps);
    ListedIff(steps, s.job);
    jobs := SortBy(r.unrecorded, StrLess);
    StrWeakOrder();
    SortByMembers(r.unrecorded, StrLess);
  }
}
