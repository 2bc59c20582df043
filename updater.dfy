/**
 * Updating dependencies one `go get -u` at a time (internal/updater/updater.go).
 * The CommandRunner is an outcome function: it maps a command to None when it
 * succeeds and to Some(message) when it fails, and the updater's own record of
 * the commands it issued is returned beside its result.
 */
module Updater {
  import opened Wrappers
  import opened D = Dependency

  /** One call of CommandRunner.Run(name, args, verbose). */
  datatype Command = Command(name: string, args: seq<string>, verbose: bool)

  /** A dependency whose update failed, with the runner's error as it was returned. */
  datatype UpdateError = UpdateError(dependency: Dependency, error: string)

  datatype UpdateResult = UpdateResult(updated: seq<Dependency>, failed: seq<UpdateError>, success: bool)

  /** The runner: None for a nil error, Some(message) otherwise. */
  type Runner = Command -> Option<string>

  /** `go get -u <path>`. */
  function GetCommand(d: Dependency, verbose: bool): Command {
    Command("go", ["get", "-u", d.path], verbose)
  }

  /** `go mod tidy`. */
  function TidyCommand(verbose: bool): Command {
    Command("go", ["mod", "tidy"], verbose)
  }

  predicate Succeeds(runner: Runner, d: Dependency, verbose: bool) {
    runner(GetCommand(d, verbose)).None?
  }

  /** The dependencies whose command succeeded, in input order. */
  function UpdatedOf(deps: seq<Dependency>, verbose: bool, runner: Runner): (r: seq<Dependency>)
    ensures |r| <= |deps|
  {
    if deps == [] then []
    else
      var last := deps[|deps| - 1];
      UpdatedOf(deps[..|deps| - 1], verbose, runner) + (if Succeeds(runner, last, verbose) then [last] else [])
  }

  /** The dependencies whose command failed, each with its error, in input order. */
  function FailedOf(deps: seq<Dependency>, verbose: bool, runner: Runner): (r: seq<UpdateError>)
    ensures |r| <= |deps|
  {
    if deps == [] then []
    else
      var last := deps[|deps| - 1];
      var outcome := runner(GetCommand(last, verbose));
      FailedOf(deps[..|deps| - 1], verbose, runner) + (if outcome.Some? then [UpdateError(last, outcome.value)] else [])
  }

  /** The commands UpdateDependencies issues: one per dependency, in order. */
  function GetCommands(deps: seq<Dependency>, verbose: bool): (r: seq<Command>)
    ensures |r| == |deps|
    ensures forall i :: 0 <= i < |deps| ==> r[i] == Command("go", ["get", "-u", deps[i].path], verbose)
  {
    seq(|deps|, i requires 0 <= i < |deps| => GetCommand(deps[i], verbose))
  }

  /** goUpdater.UpdateDependencies. */
  method UpdateDependencies(deps: seq<Dependency>, verbose: bool, runner: Runner)
    returns (result: UpdateResult, calls: seq<Command>)
    ensures result.updated == UpdatedOf(deps, verbose, runner)
    ensures result.failed == FailedOf(deps, verbose, runner)
    ensures result.success <==> result.failed == []
    ensures calls == GetCommands(deps, verbose)
  {
    var updated: seq<Dependency> := [];
    var failed: seq<UpdateError> := [];
    calls := [];
    for i := 0 to |deps|
      invariant updated == UpdatedOf(deps[..i], verbose, runner)
      invariant failed == FailedOf(deps[..i], verbose, runner)
      invariant |calls| == i
      invariant forall k :: 0 <= k < i ==> calls[k] == GetCommand(deps[k], verbose)
    {
      var dep := deps[i];
      var command := Command("go", ["get", "-u", dep.path], verbose);
      var err := runner(command);
      calls := calls + [command];
      assert deps[..i + 1][..i] == deps[..i];
      if err.Some? {
        failed := failed + [UpdateError(dep, err.value)];
      } else {
        updated := updated + [dep];
      }
    }
    assert deps[..|deps|] == deps;
    assert calls == GetCommands(deps, verbose);
    result := UpdateResult(updated, failed, |failed| == 0);
  }

  /** goUpdater.RunModTidy: one call, whose error is returned as it is. */
  method RunModTidy(verbose: bool, runner: Runner) returns (err: Option<string>, calls: seq<Command>)
    ensures calls == [Command("go", ["mod", "tidy"], verbose)]
    ensures err == runner(Command("go", ["mod", "tidy"], verbose))
  {
    var command := TidyCommand(verbose);
    calls := [command];
    err := runner(command);
  }

  // ---------------------------------------------------------------------------
  // Properties of the aggregation
  // ---------------------------------------------------------------------------

  /** Every dependency lands in exactly one of the two lists. */
  lemma {:induction false} PartitionCount(deps: seq<Dependency>, verbose: bool, runner: Runner)
    ensures |UpdatedOf(deps, verbose, runner)| + |FailedOf(deps, verbose, runner)| == |deps|
  {
    if deps != [] {
      PartitionCount(deps[..|deps| - 1], verbose, runner);
    }
  }

  /** A dependency is in Updated exactly when it is in the input and its command succeeded. */
  lemma {:induction false} UpdatedMembers(deps: seq<Dependency>, verbose: bool, runner: Runner, d: Dependency)
    ensures d in UpdatedOf(deps, verbose, runner) <==> d in deps && Succeeds(runner, d, verbose)
  {
    if deps != [] {
      UpdatedMembers(deps[..|deps| - 1], verbose, runner, d);
      assert deps == deps[..|deps| - 1] + [deps[|deps| - 1]];
    }
  }

  /**
   * A dependency appears in Failed exactly when it is in the input and its
   * command failed, and it appears there with the runner's error unchanged.
   */
  lemma {:induction false} FailedMembers(deps: seq<Dependency>, verbose: bool, runner: Runner, e: UpdateError)
    ensures e in FailedOf(deps, verbose, runner) <==>
      e.dependency in deps && runner(GetCommand(e.dependency, verbose)) == Some(e.error)
  {
    if deps != [] {
      FailedMembers(deps[..|deps| - 1], verbose, runner, e);
      assert deps == deps[..|deps| - 1] + [deps[|deps| - 1]];
    }
  }

  /** Updated and Failed each follow input order: results of a concatenation concatenate. */
  lemma {:induction false} ResultsFollowInputOrder(a: seq<Dependency>, b: seq<Dependency>, verbose: bool, runner: Runner)
    ensures UpdatedOf(a + b, verbose, runner) == UpdatedOf(a, verbose, runner) + UpdatedOf(b, verbose, runner)
    ensures FailedOf(a + b, verbose, runner) == FailedOf(a, verbose, runner) + FailedOf(b, verbose, runner)
    decreases |b|
  {
    if b == [] {
      assert a + b == a;
    } else {
      assert (a + b)[..|a + b| - 1] == a + b[..|b| - 1];
      assert (a + b)[|a + b| - 1] == b[|b| - 1];
      ResultsFollowInputOrder(a, b[..|b| - 1], verbose, runner);
    }
  }

  /** The update succeeds exactly when every command succeeded. */
  lemma {:induction false} SuccessIffAllCommandsSucceed(deps: seq<Dependency>, verbose: bool, runner: Runner)
    ensures FailedOf(deps, verbose, runner) == [] <==> forall d :: d in deps ==> Succeeds(runner, d, verbose)
    ensures FailedOf(deps, verbose, runner) == [] ==> UpdatedOf(deps, verbose, runner) == deps
  {
    if deps != [] {
      var init, last := deps[..|deps| - 1], deps[|deps| - 1];
      SuccessIffAllCommandsSucceed(init, verbose, runner);
      assert deps == init + [last];
      if FailedOf(deps, verbose, runner) == [] {
        assert FailedOf(init, verbose, runner) == [] && Succeeds(runner, last, verbose);
      } else if Succeeds(runner, last, verbose) {
        assert FailedOf(init, verbose, runner) != [];
        var d :| d in init && !Succeeds(runner, d, verbose);
        assert d in deps;
      } else {
        assert last in deps;
      }
    }
  }

  /** No dependencies: nothing to run, success, and both lists empty. */
  lemma EmptyUpdate(verbose: bool, runner: Runner)
    ensures UpdatedOf([], verbose, runner) == [] && FailedOf([], verbose, runner) == []
    ensures GetCommands([], verbose) == []
  {
  }

  /** One dependency: Updated or Failed holds it alone, according to its one command. */
  lemma SingleUpdate(d: Dependency, verbose: bool, runner: Runner)
    ensures Succeeds(runner, d, verbose) ==>
      UpdatedOf([d], verbose, runner) == [d] && FailedOf([d], verbose, runner) == []
    ensures !Succeeds(runner, d, verbose) ==>
      UpdatedOf([d], verbose, runner) == [] &&
      FailedOf([d], verbose, runner) == [UpdateError(d, runner(GetCommand(d, verbose)).value)]
  {
    assert [d][..0] == [];
  }
}
