/**
 * The entry points of the two RAG pipelines (Google Drive and local
 * files): choosing between one check and the watch loop, and mapping how
 * the run ended to the process exit status. The watcher itself is
 * represented by how its run ended.
 */
module PipelineMain {
  import opened Wrappers

  /**
   * How the watcher's work ended: a single check returning its error count, a
   * keyboard interrupt, or any other exception. The watch loop catches a
   * keyboard interrupt itself and returns, so in watch mode an interrupt
   * inside the loop ends as `Finished`; `Interrupted` there stands for one
   * that arrives before the loop starts.
   */
  datatype Ending = Finished(errors: nat) | Interrupted | Raised

  /** What `main` runs: the number of `check_for_changes` calls it makes itself, and whether it enters the watch loop. */
  datatype Plan = Plan(checkCalls: nat, watchLoop: bool)

  /** What `main` does: its plan and the status passed to `sys.exit` (None when it returns normally). */
  datatype Run = Run(plan: Plan, exit: Option<int>)

  /** The Drive pipeline runs once when `--single-run` is given or `RUN_MODE` is `single`. */
  predicate DriveSingleRun(singleRunFlag: bool, runMode: Option<string>)
  {
    singleRunFlag || runMode == Some("single")
  }

  /**
   * The body both entry points share once the mode is known: a single run
   * checks once and exits 1 when there were errors and 0 otherwise; the
   * watch mode hands over to the watch loop. A keyboard interrupt exits 0
   * and any other exception exits 2.
   */
  function RunWatcher(single: bool, ending: Ending): (r: Run)
    ensures r.plan.checkCalls == (if single then 1 else 0)
    ensures r.plan.watchLoop <==> !single
    ensures ending == Interrupted ==> r.exit == Some(0)
    ensures ending == Raised ==> r.exit == Some(2)
    ensures single && ending.Finished? ==> (r.exit == Some(1) <==> ending.errors > 0)
    ensures single && ending.Finished? ==> r.exit.Some? && r.exit.value in {0, 1}
    ensures r.exit.None? <==> (!single && ending.Finished?)
  {
    var plan := if single then Plan(1, false) else Plan(0, true);
    match ending
    case Interrupted => Run(plan, Some(0))
    case Raised => Run(plan, Some(2))
    case Finished(errors) => Run(plan, if single then Some(if errors > 0 then 1 else 0) else None)
  }

  /** `rag_pipeline/Google_Drive/main.py`'s `main`. */
  function DriveMain(singleRunFlag: bool, runMode: Option<string>, ending: Ending): (r: Run)
    ensures r.plan.watchLoop <==> (!singleRunFlag && runMode != Some("single"))
    ensures singleRunFlag ==> r == LocalMain(true, ending)
  {
    RunWatcher(DriveSingleRun(singleRunFlag, runMode), ending)
  }

  /** `rag_pipeline/Local_Files/main.py`'s `main`, which has no environment override. */
  function LocalMain(singleRunFlag: bool, ending: Ending): (r: Run)
    ensures r.plan.checkCalls == 1 <==> singleRunFlag
    ensures singleRunFlag ==> !r.plan.watchLoop
  {
    RunWatcher(singleRunFlag, ending)
  }

  /** The exit status is always 0, 1 or 2, and 0 after a single run means no errors or an interrupt. */
  lemma ExitStatuses(single: bool, ending: Ending)
    ensures var r := RunWatcher(single, ending);
      r.exit.Some? ==> r.exit.value in {0, 1, 2}
    ensures single && RunWatcher(single, ending).exit == Some(0) ==> ending == Interrupted || ending == Finished(0)
  {
  }

  /** `RUN_MODE=single` makes the Drive pipeline behave exactly like an explicit `--single-run`. */
  lemma RunModeActsAsFlag(ending: Ending)
    ensures DriveMain(false, Some("single"), ending) == DriveMain(true, None, ending)
    ensures forall runMode: Option<string> :: DriveMain(true, runMode, ending) == DriveMain(true, None, ending)
  {
  }
}
