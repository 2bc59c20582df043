/**
 * The application's decision flow (internal/app/app.go). The collaborators the
 * App is built with (manager, selector, console confirmation, updater) are
 * oracles: each is the function or the answer it gives. Run returns what
 * happened as an Outcome, together with the sequence of collaborator calls it
 * made; console output other than the confirmation question is not recorded.
 */
module App {
  import opened Wrappers
  import opened D = Dependency
  import opened Config
  import Manager
  import opened Updater
  import opened Selector

  const CheckFailedPrefix: string := "failed to check for dependency updates: "
  const SelectionFailedPrefix: string := "dependency selection failed: "
  const TidyFailedPrefix: string := "go mod tidy failed: "

  /** A call Run makes on one of its collaborators. */
  datatype Call =
    | GetUpdatableCall                                            // depMgr.GetUpdatableDependencies()
    | FilterCall(deps: seq<Dependency>, includeIndirect: bool)    // depMgr.FilterDependencies
    | SelectCall(deps: seq<Dependency>, includeIndirect: bool)    // selector.Select
    | ConfirmCall                                                 // console.Confirm
    | UpdateCall(deps: seq<Dependency>, verbose: bool)            // updater.UpdateDependencies
    | TidyCall(verbose: bool)                                     // updater.RunModTidy

  /** What the collaborators answer. */
  datatype Collaborators = Collaborators(
    updatable: Result<seq<Dependency>, string>,
    filter: (seq<Dependency>, bool) -> seq<Dependency>,
    select: (seq<Dependency>, bool) -> SelectionResult,
    confirm: bool,
    update: (seq<Dependency>, bool) -> UpdateResult,
    tidy: bool -> Option<string>
  )

  /** How a run ends. */
  datatype Outcome =
    | CheckFailed(reason: string)                     // GetUpdatableDependencies failed
    | UpToDate                                        // nothing to update
    | DirectUpToDate(indirectCount: int)              // only indirect updates, and --all not given
    | SelectionFailed(reason: string)                 // the selector reported an error
    | NothingSelected                                 // empty or cancelled selection
    | DryRun(selected: seq<Dependency>, listed: Option<seq<Dependency>>)  // shown, not updated; listed is what handleDryRun prints
    | Declined                                        // the confirmation was refused
    | Updated(selected: seq<Dependency>, result: UpdateResult)
    | TidyFailed(selected: seq<Dependency>, result: UpdateResult, reason: string)

  /** The error Run returns for an outcome; None is Go's nil. */
  function ErrorOf(outcome: Outcome): (r: Option<string>)
    ensures r.Some? <==> outcome.CheckFailed? || outcome.SelectionFailed? || outcome.TidyFailed?
    ensures outcome.CheckFailed? ==> r == Some(CheckFailedPrefix + outcome.reason)
    ensures outcome.SelectionFailed? ==> r == Some(SelectionFailedPrefix + outcome.reason)
    ensures outcome.TidyFailed? ==> r == Some(TidyFailedPrefix + outcome.reason)
  {
    match outcome
    case CheckFailed(e) => Some(CheckFailedPrefix + e)
    case SelectionFailed(e) => Some(SelectionFailedPrefix + e)
    case TidyFailed(_, _, e) => Some(TidyFailedPrefix + e)
    case _ => None
  }

  // ---------------------------------------------------------------------------
  // selectDependencies, handleDryRun
  // ---------------------------------------------------------------------------

  /** selectDependencies: everything outside selective mode, else what the selector chose. */
  function SelectDependencies(cfg: Config, deps: seq<Dependency>, select: (seq<Dependency>, bool) -> SelectionResult)
    : (r: Result<seq<Dependency>, string>)
    ensures !cfg.selective ==> r == Ok(deps)
    ensures cfg.selective ==> match select(deps, cfg.all)
      case Failed(e) => r == Err(e)
      case Cancelled => r == Ok([])
      case Selected(s) => r == Ok(s)
  {
    if !cfg.selective then Ok(deps)
    else match select(deps, cfg.ShouldIncludeIndirect())
      case Failed(e) => Err(e)
      case Cancelled => Ok([])
      case Selected(s) => Ok(s)
  }

  /** handleDryRun: the list it prints, which it does only in selective mode. */
  function DryRunListing(cfg: Config, deps: seq<Dependency>): (r: Option<seq<Dependency>>)
    ensures r.Some? <==> cfg.selective
    ensures r.Some? ==> r.value == deps
  {
    if cfg.selective then Some(deps) else None
  }

  // ---------------------------------------------------------------------------
  // updateWithProgress, performUpdate, runModTidy
  // ---------------------------------------------------------------------------

  /** The updater calls of updateWithProgress: each dependency alone, in order, then the whole list. */
  function ProgressCalls(deps: seq<Dependency>, verbose: bool): (r: seq<Call>)
    ensures |r| == |deps| + 1
    ensures forall i :: 0 <= i < |deps| ==> r[i] == UpdateCall([deps[i]], verbose)
    ensures r[|deps|] == UpdateCall(deps, verbose)
  {
    seq(|deps|, i requires 0 <= i < |deps| => UpdateCall([deps[i]], verbose)) + [UpdateCall(deps, verbose)]
  }

  /** The dependencies whose single-element update reported success (each gets a "✓ Updated" line). */
  function SingleSuccesses(deps: seq<Dependency>, verbose: bool, update: (seq<Dependency>, bool) -> UpdateResult)
    : (r: seq<Dependency>)
    ensures |r| <= |deps|
    ensures forall d :: d in r <==> d in deps && update([d], verbose).success
  {
    if deps == [] then []
    else
      var last := deps[|deps| - 1];
      SingleSuccesses(deps[..|deps| - 1], verbose, update) + (if update([last], verbose).success then [last] else [])
  }

  /** updateWithProgress: the result reported is the one of the final whole-list call. */
  method UpdateWithProgress(deps: seq<Dependency>, verbose: bool, update: (seq<Dependency>, bool) -> UpdateResult)
    returns (result: UpdateResult, calls: seq<Call>, succeeded: seq<Dependency>)
    ensures result == update(deps, verbose)
    ensures calls == ProgressCalls(deps, verbose)
    ensures succeeded == SingleSuccesses(deps, verbose, update)
  {
    calls := [];
    succeeded := [];
    for i := 0 to |deps|
      invariant |calls| == i
      invariant forall k :: 0 <= k < i ==> calls[k] == UpdateCall([deps[k]], verbose)
      invariant succeeded == SingleSuccesses(deps[..i], verbose, update)
    {
      var dep := deps[i];
      var singleResult := update([dep], verbose);
      calls := calls + [UpdateCall([dep], verbose)];
      assert deps[..i + 1][..i] == deps[..i];
      if singleResult.success {
        succeeded := succeeded + [dep];
      }
    }
    assert deps[..|deps|] == deps;
    result := update(deps, verbose);
    calls := calls + [UpdateCall(deps, verbose)];
  }

  /** The "Failed to update <path>: <error>" line for one failure. */
  function FailureLine(failure: UpdateError): string {
    "Failed to update " + failure.dependency.path + ": " + failure.error
  }

  /** runModTidy: one RunModTidy call, whose error is passed on. */
  method RunModTidy(cfg: Config, c: Collaborators) returns (err: Option<string>, calls: seq<Call>)
    ensures calls == [TidyCall(cfg.verbose)]
    ensures err == c.tidy(cfg.verbose)
  {
    calls := [TidyCall(cfg.verbose)];
    err := c.tidy(cfg.verbose);
  }

  /**
   * performUpdate: update, report one line per failure, then tidy. Failures of
   * single dependencies are reported, never returned; only tidy's error is.
   */
  method PerformUpdate(cfg: Config, deps: seq<Dependency>, c: Collaborators)
    returns (outcome: Outcome, calls: seq<Call>, failureLines: seq<string>)
    ensures calls == ProgressCalls(deps, cfg.verbose) + [TidyCall(cfg.verbose)]
    ensures c.tidy(cfg.verbose).None? ==> outcome == Updated(deps, c.update(deps, cfg.verbose))
    ensures c.tidy(cfg.verbose).Some? ==>
      outcome == TidyFailed(deps, c.update(deps, cfg.verbose), c.tidy(cfg.verbose).value)
    ensures var failed := c.update(deps, cfg.verbose).failed;
      |failureLines| == |failed| && forall i :: 0 <= i < |failed| ==> failureLines[i] == FailureLine(failed[i])
  {
    var result, progressCalls, succeeded := UpdateWithProgress(deps, cfg.verbose, c.update);
    failureLines := [];
    for i := 0 to |result.failed|
      invariant |failureLines| == i
      invariant forall k :: 0 <= k < i ==> failureLines[k] == FailureLine(result.failed[k])
    {
      var failure := result.failed[i];
      failureLines := failureLines + ["Failed to update " + failure.dependency.path + ": " + failure.error];
    }
    var err, tidyCalls := RunModTidy(cfg, c);
    calls := progressCalls + tidyCalls;
    if err.Some? {
      return TidyFailed(deps, result, err.value), calls, failureLines;
    }
    outcome := Updated(deps, result);
  }

  // ---------------------------------------------------------------------------
  // Run
  // ---------------------------------------------------------------------------

  /** Confirmation is asked in interactive mode unless the selector has already confirmed. */
  predicate AsksConfirmation(cfg: Config) {
    cfg.interactive && !cfg.selective
  }

  /** The calls up to and including filtering. */
  function FilterCalls(cfg: Config, all: seq<Dependency>): seq<Call> {
    [GetUpdatableCall, FilterCall(all, cfg.ShouldIncludeIndirect())]
  }

  /** The calls up to and including selection (the selector is consulted only in selective mode). */
  function SelectCalls(cfg: Config, all: seq<Dependency>, filtered: seq<Dependency>): seq<Call> {
    FilterCalls(cfg, all) + (if cfg.selective then [SelectCall(filtered, cfg.ShouldIncludeIndirect())] else [])
  }

  /** The calls up to and including the confirmation question, when it is asked. */
  function ConfirmCalls(cfg: Config, all: seq<Dependency>, filtered: seq<Dependency>): seq<Call> {
    SelectCalls(cfg, all, filtered) + (if AsksConfirmation(cfg) then [ConfirmCall] else [])
  }

  /** A run: how it ended and the collaborator calls it made, in order. */
  datatype Execution = Execution(outcome: Outcome, calls: seq<Call>)

  /** What Run does, stage by stage, with every early return. */
  function Execute(cfg: Config, c: Collaborators): Execution {
    match c.updatable
    case Err(e) => Execution(CheckFailed(e), [GetUpdatableCall])
    case Ok(all) =>
      if all == [] then Execution(UpToDate, [GetUpdatableCall])
      else
        var filtered := c.filter(all, cfg.ShouldIncludeIndirect());
        if filtered == [] then
          Execution(if cfg.ShouldIncludeIndirect() then UpToDate else DirectUpToDate(|all| - |filtered|), FilterCalls(cfg, all))
        else match SelectDependencies(cfg, filtered, c.select)
          case Err(e) => Execution(SelectionFailed(e), SelectCalls(cfg, all, filtered))
          case Ok(selected) =>
            if selected == [] then Execution(NothingSelected, SelectCalls(cfg, all, filtered))
            else if cfg.dryRun then Execution(DryRun(selected, DryRunListing(cfg, selected)), SelectCalls(cfg, all, filtered))
            else if AsksConfirmation(cfg) && !c.confirm then Execution(Declined, ConfirmCalls(cfg, all, filtered))
            else
              var result := c.update(selected, cfg.verbose);
              Execution(
                if c.tidy(cfg.verbose).Some? then TidyFailed(selected, result, c.tidy(cfg.verbose).value)
                else Updated(selected, result),
                ConfirmCalls(cfg, all, filtered) + ProgressCalls(selected, cfg.verbose) + [TidyCall(cfg.verbose)])
  }

  /** App.Run. */
  method Run(cfg: Config, c: Collaborators) returns (outcome: Outcome, calls: seq<Call>)
    ensures Execution(outcome, calls) == Execute(cfg, c)
  {
    calls := [GetUpdatableCall];
    if c.updatable.Err? {
      return CheckFailed(c.updatable.error), calls;
    }
    var allUpdatableDeps := c.updatable.value;
    if |allUpdatableDeps| == 0 {
      return UpToDate, calls;
    }

    var filteredDeps := c.filter(allUpdatableDeps, cfg.ShouldIncludeIndirect());
    calls := calls + [FilterCall(allUpdatableDeps, cfg.ShouldIncludeIndirect())];
    if |filteredDeps| == 0 {
      if cfg.ShouldIncludeIndirect() {
        return UpToDate, calls;
      }
      return DirectUpToDate(|allUpdatableDeps| - |filteredDeps|), calls;
    }

    assert calls == FilterCalls(cfg, allUpdatableDeps);
    if cfg.selective {
      calls := calls + [SelectCall(filteredDeps, cfg.ShouldIncludeIndirect())];
    }
    assert calls == SelectCalls(cfg, allUpdatableDeps, filteredDeps);
    var selection := SelectDependencies(cfg, filteredDeps, c.select);
    if selection.Err? {
      return SelectionFailed(selection.error), calls;
    }
    var selectedDeps := selection.value;
    if |selectedDeps| == 0 {
      return NothingSelected, calls;
    }

    if cfg.dryRun {
      return DryRun(selectedDeps, DryRunListing(cfg, selectedDeps)), calls;
    }

    if cfg.interactive && !cfg.selective {
      calls := calls + [ConfirmCall];
      if !c.confirm {
        return Declined, calls;
      }
    }

    assert calls == ConfirmCalls(cfg, allUpdatableDeps, filteredDeps);
    var updateCalls, failureLines;
    outcome, updateCalls, failureLines := PerformUpdate(cfg, selectedDeps, c);
    calls := calls + updateCalls;
  }

  // ---------------------------------------------------------------------------
  // What a run's trace says
  // ---------------------------------------------------------------------------

  predicate IsUpdateCall(call: Call) {
    call.UpdateCall? || call.TidyCall?
  }

  /** Nothing before the update step touches the updater. */
  lemma ConfirmCallsDoNotUpdate(cfg: Config, all: seq<Dependency>, filtered: seq<Dependency>)
    ensures forall call :: call in ConfirmCalls(cfg, all, filtered) ==> !IsUpdateCall(call)
    ensures forall call :: call in SelectCalls(cfg, all, filtered) ==> !IsUpdateCall(call) && call != ConfirmCall
    ensures SelectCall(filtered, cfg.all) in ConfirmCalls(cfg, all, filtered) <==> cfg.selective
    ensures ConfirmCall in ConfirmCalls(cfg, all, filtered) <==> AsksConfirmation(cfg)
  {
  }

  /** The update step's calls are updater calls only, ending in the tidy call. */
  lemma UpdateStepCalls(deps: seq<Dependency>, verbose: bool)
    ensures var step := ProgressCalls(deps, verbose) + [TidyCall(verbose)];
      (forall call :: call in step ==> IsUpdateCall(call)) && step[|step| - 1] == TidyCall(verbose)
  {
    var step := ProgressCalls(deps, verbose) + [TidyCall(verbose)];
    forall call | call in step ensures IsUpdateCall(call) {
      var i :| 0 <= i < |step| && step[i] == call;
      if i < |deps| {
        assert step[i] == UpdateCall([deps[i]], verbose);
      }
    }
  }

  /** A failed update check is returned with its prefix, and nothing else is consulted. */
  lemma CheckFailureStopsRun(cfg: Config, c: Collaborators)
    requires c.updatable.Err?
    ensures Execute(cfg, c).calls == [GetUpdatableCall]
    ensures ErrorOf(Execute(cfg, c).outcome) == Some(CheckFailedPrefix + c.updatable.error)
  {
  }

  /**
   * With nothing to update Run returns nil after at most the filter call; the
   * "direct dependencies are up to date" report, without --all, counts every
   * updatable dependency as one that was filtered out.
   */
  lemma NothingToUpdateStopsRun(cfg: Config, c: Collaborators)
    requires c.updatable.Ok?
    requires c.updatable.value == [] || c.filter(c.updatable.value, cfg.all) == []
    ensures var run := Execute(cfg, c);
      && ErrorOf(run.outcome) == None
      && (forall call :: call in run.calls ==> call == GetUpdatableCall || call.FilterCall?)
      && (run.outcome.DirectUpToDate? <==> !cfg.all && c.updatable.value != [])
      && (run.outcome.DirectUpToDate? ==> run.outcome.indirectCount == |c.updatable.value|)
  {
  }

  /** Filtering is asked for indirect dependencies exactly when --all is given. */
  lemma FilterFollowsAllFlag(cfg: Config, c: Collaborators)
    requires c.updatable.Ok? && c.updatable.value != []
    ensures var run := Execute(cfg, c);
      |run.calls| >= 2 && run.calls[1] == FilterCall(c.updatable.value, cfg.all)
  {
  }

  /** In selective mode a selector error fails the run, and cancellation updates nothing. */
  lemma SelectionOutcomes(cfg: Config, c: Collaborators)
    requires cfg.selective && c.updatable.Ok? && c.updatable.value != []
    requires c.filter(c.updatable.value, cfg.all) != []
    ensures var run := Execute(cfg, c);
      var answer := c.select(c.filter(c.updatable.value, cfg.all), cfg.all);
      && (answer.Failed? ==> ErrorOf(run.outcome) == Some(SelectionFailedPrefix + answer.error))
      && (answer.Cancelled? ==> run.outcome == NothingSelected && ErrorOf(run.outcome) == None)
      && (answer.Failed? || answer.Cancelled? ==> forall call :: call in run.calls ==> !IsUpdateCall(call))
  {
    ConfirmCallsDoNotUpdate(cfg, c.updatable.value, c.filter(c.updatable.value, cfg.all));
  }

  /**
   * A dry run returns nil before any confirmation and before any updater call;
   * it lists the selection only in selective mode.
   */
  lemma DryRunUpdatesNothing(cfg: Config, c: Collaborators)
    requires Execute(cfg, c).outcome.DryRun?
    ensures cfg.dryRun && ErrorOf(Execute(cfg, c).outcome) == None
    ensures var run := Execute(cfg, c);
      run.outcome.listed == (if cfg.selective then Some(run.outcome.selected) else None)
    ensures forall call :: call in Execute(cfg, c).calls ==> !IsUpdateCall(call) && call != ConfirmCall
  {
    var all := c.updatable.value;
    ConfirmCallsDoNotUpdate(cfg, all, c.filter(all, cfg.ShouldIncludeIndirect()));
  }

  /** Confirmation is asked only in interactive, non-selective mode; declining updates nothing. */
  lemma ConfirmationRule(cfg: Config, c: Collaborators)
    ensures var run := Execute(cfg, c);
      && (ConfirmCall in run.calls ==> AsksConfirmation(cfg) && !cfg.dryRun)
      && (run.outcome == Declined <==> ConfirmCall in run.calls && !c.confirm)
      && (run.outcome == Declined ==> forall call :: call in run.calls ==> !IsUpdateCall(call))
  {
    if c.updatable.Ok? && c.updatable.value != [] {
      var all := c.updatable.value;
      var filtered := c.filter(all, cfg.ShouldIncludeIndirect());
      ConfirmCallsDoNotUpdate(cfg, all, filtered);
      var selection := SelectDependencies(cfg, filtered, c.select);
      if filtered != [] && selection.Ok? && selection.value != [] {
        UpdateStepCalls(selection.value, cfg.verbose);
        assert ConfirmCall !in ProgressCalls(selection.value, cfg.verbose) + [TidyCall(cfg.verbose)];
      }
    }
  }

  /** The run gets past every early return to the update step. */
  predicate ReachesUpdate(cfg: Config, c: Collaborators) {
    && c.updatable.Ok? && c.updatable.value != []
    && var filtered := c.filter(c.updatable.value, cfg.ShouldIncludeIndirect());
    && filtered != []
    && var selection := SelectDependencies(cfg, filtered, c.select);
    && selection.Ok? && selection.value != [] && !cfg.dryRun && !(AsksConfirmation(cfg) && !c.confirm)
  }

  /** Runs that stop early make no updater call. */
  lemma EarlyStopMakesNoUpdaterCall(cfg: Config, c: Collaborators)
    requires !ReachesUpdate(cfg, c)
    ensures var run := Execute(cfg, c);
      !run.outcome.Updated? && !run.outcome.TidyFailed? && forall call :: call in run.calls ==> !IsUpdateCall(call)
  {
    if c.updatable.Ok? && c.updatable.value != [] {
      var all := c.updatable.value;
      ConfirmCallsDoNotUpdate(cfg, all, c.filter(all, cfg.ShouldIncludeIndirect()));
    }
  }

  /**
   * The update step: one single-element call per selected dependency, one call
   * on the whole selection whose result is the one kept, then tidy. Only tidy's
   * failure makes the run fail.
   */
  lemma UpdateStepShape(cfg: Config, c: Collaborators)
    requires ReachesUpdate(cfg, c)
    ensures var run := Execute(cfg, c);
      && (run.outcome.Updated? || run.outcome.TidyFailed?)
      && var selected := run.outcome.selected;
      && selected == SelectDependencies(cfg, c.filter(c.updatable.value, cfg.all), c.select).value
      && |run.calls| >= |selected| + 2
      && run.calls[|run.calls| - |selected| - 2..] == ProgressCalls(selected, cfg.verbose) + [TidyCall(cfg.verbose)]
      && run.outcome.result == c.update(selected, cfg.verbose)
      && (ErrorOf(run.outcome).Some? <==> c.tidy(cfg.verbose).Some?)
  {
    var all := c.updatable.value;
    var filtered := c.filter(all, cfg.ShouldIncludeIndirect());
    var selected := SelectDependencies(cfg, filtered, c.select).value;
    var prefix := ConfirmCalls(cfg, all, filtered);
    var step := ProgressCalls(selected, cfg.verbose) + [TidyCall(cfg.verbose)];
    assert Execute(cfg, c).calls == prefix + step;
    assert (prefix + step)[|prefix + step| - |selected| - 2..] == step;
  }

  /** The updater is called exactly in the runs that end Updated or TidyFailed. */
  lemma UpdaterOnlyInUpdateStep(cfg: Config, c: Collaborators)
    ensures var run := Execute(cfg, c);
      (exists call :: call in run.calls && IsUpdateCall(call)) <==> run.outcome.Updated? || run.outcome.TidyFailed?
  {
    if ReachesUpdate(cfg, c) {
      UpdateStepShape(cfg, c);
      var calls := Execute(cfg, c).calls;
      assert calls[|calls| - 1] == TidyCall(cfg.verbose);
      assert IsUpdateCall(calls[|calls| - 1]);
    } else {
      EarlyStopMakesNoUpdaterCall(cfg, c);
    }
  }

  /** The filter of the dependency manager: everything with --all, else the direct dependencies. */
  ghost predicate ManagerFilter(c: Collaborators) {
    forall deps, includeIndirect :: c.filter(deps, includeIndirect) ==
      (if includeIndirect then deps else Manager.DirectOnly(deps))
  }

  /**
   * With the manager's filter, "all direct dependencies are up to date" means
   * that every updatable dependency is indirect, and the count reported is the
   * number of indirect dependencies.
   */
  lemma DirectUpToDateCountsIndirect(c: Collaborators, all: seq<Dependency>)
    requires ManagerFilter(c)
    requires c.updatable == Ok(all) && c.filter(all, false) == []
    ensures |all| - |c.filter(all, false)| == Manager.IndirectCount(all)
    ensures forall d :: d in all ==> d.indirect
  {
    Manager.DirectOnlyCount(all);
    Manager.DirectOnlyMembers(all);
  }

  /** The updater of internal/updater/updater.go over a given command runner. */
  ghost predicate GoUpdater(c: Collaborators, runner: Runner) {
    forall deps, verbose :: c.update(deps, verbose) ==
      UpdateResult(UpdatedOf(deps, verbose, runner), FailedOf(deps, verbose, runner), FailedOf(deps, verbose, runner) == [])
  }

  /**
   * With the Go updater and a runner whose answer depends only on the command,
   * the dependencies reported as updated during progress are exactly those in
   * the final result's Updated list, and every selected dependency is counted
   * once in the final result.
   */
  lemma {:induction false} ProgressAgreesWithResult(c: Collaborators, runner: Runner, deps: seq<Dependency>, verbose: bool)
    requires GoUpdater(c, runner)
    ensures SingleSuccesses(deps, verbose, c.update) == c.update(deps, verbose).updated
    ensures |c.update(deps, verbose).updated| + |c.update(deps, verbose).failed| == |deps|
  {
    PartitionCount(deps, verbose, runner);
    if deps != [] {
      var init, last := deps[..|deps| - 1], deps[|deps| - 1];
      ProgressAgreesWithResult(c, runner, init, verbose);
      SingleUpdate(last, verbose, runner);
      assert c.update([last], verbose).success <==> Succeeds(runner, last, verbose);
    }
  }
}
