/**
 * The older, single-file version of the tool (main.go): its own three-field
 * dependency record, its filter, its path-only order and its yes/no prompt.
 */
module Legacy {
  import opened Wrappers
  import opened GoStrings
  import opened SliceSort
  import D = Dependency
  import Manager
  import Ui

  /** main.go's Dependency: no NewVersion or HasUpdate. */
  datatype Dependency = Dependency(path: string, version: string, indirect: bool)

  // ---------------------------------------------------------------------------
  // filterDependencies

  predicate Keeps(d: Dependency, includeIndirect: bool) {
    !d.indirect || includeIndirect
  }

  /** The dependencies filterDependencies keeps, in input order. */
  function Kept(deps: seq<Dependency>, includeIndirect: bool): (r: seq<Dependency>)
    ensures |r| <= |deps|
  {
    if deps == [] then []
    else
      var last := deps[|deps| - 1];
      Kept(deps[..|deps| - 1], includeIndirect) + (if Keeps(last, includeIndirect) then [last] else [])
  }

  /** filterDependencies. Go's nil slice for "nothing kept" is the empty sequence. */
  method FilterDependencies(deps: seq<Dependency>, includeIndirect: bool) returns (filtered: seq<Dependency>)
    ensures filtered == Kept(deps, includeIndirect)
  {
    filtered := [];
    for k := 0 to |deps|
      invariant filtered == Kept(deps[..k], includeIndirect)
    {
      assert deps[..k + 1][..k] == deps[..k];
      if !deps[k].indirect || includeIndirect {
        filtered := filtered + [deps[k]];
      }
    }
    assert deps[..|deps|] == deps;
  }

  /** With indirect dependencies included every element is kept, in order. */
  lemma {:induction false} KeptWithIndirectIsAll(deps: seq<Dependency>)
    ensures Kept(deps, true) == deps
  {
    if deps != [] {
      KeptWithIndirectIsAll(deps[..|deps| - 1]);
      assert deps == deps[..|deps| - 1] + [deps[|deps| - 1]];
    }
  }

  /** Without them, exactly the direct elements are kept. */
  lemma {:induction false} KeptDirectMembers(deps: seq<Dependency>, d: Dependency)
    ensures d in Kept(deps, false) <==> d in deps && !d.indirect
  {
    if deps != [] {
      KeptDirectMembers(deps[..|deps| - 1], d);
      assert deps == deps[..|deps| - 1] + [deps[|deps| - 1]];
    }
  }

  /** The record of internal/dependency for a legacy one. */
  function ToRecord(d: Dependency): D.Dependency {
    D.Dependency(d.path, d.version, "", d.indirect, false)
  }

  function ToRecords(deps: seq<Dependency>): (r: seq<D.Dependency>)
    ensures |r| == |deps|
    ensures forall k :: 0 <= k < |deps| ==> r[k] == ToRecord(deps[k])
  {
    seq(|deps|, k requires 0 <= k < |deps| => ToRecord(deps[k]))
  }

  /**
   * The legacy filter without indirect dependencies is the filter of
   * internal/dependency: the same elements, in the same relative order.
   */
  lemma {:induction false} KeptAgreesWithManager(deps: seq<Dependency>)
    ensures ToRecords(Kept(deps, false)) == Manager.DirectOnly(ToRecords(deps))
  {
    if deps != [] {
      var init, last := deps[..|deps| - 1], deps[|deps| - 1];
      KeptAgreesWithManager(init);
      var records := ToRecords(deps);
      assert records[..|records| - 1] == ToRecords(init);
      var tail: seq<Dependency> := if Keeps(last, false) then [last] else [];
      assert ToRecords(Kept(init, false) + tail) == ToRecords(Kept(init, false)) + ToRecords(tail);
    }
  }

  // ---------------------------------------------------------------------------
  // getDependencies

  /** The less function of getDependencies: by path alone. */
  predicate PathLess(a: Dependency, b: Dependency) {
    Less(a.path, b.path)
  }

  lemma PathLessIsStrictWeakOrder()
    ensures StrictWeakOrder(PathLess)
  {
    forall x: Dependency, y: Dependency | PathLess(x, y) ensures !PathLess(y, x) {
      LessAsymmetric(x.path, y.path);
    }
    forall x: Dependency, y: Dependency, z: Dependency | !PathLess(x, y) && !PathLess(y, z)
      ensures !PathLess(x, z)
    {
      LessTotal(x.path, y.path);
      LessTotal(y.path, z.path);
      if Less(z.path, y.path) && Less(y.path, x.path) {
        LessTransitive(z.path, y.path, x.path);
      }
      LessAsymmetric(z.path, x.path);
      LessIrreflexive(x.path);
    }
  }

  function FromRequire(req: Manager.Require): Dependency {
    Dependency(req.path, req.version, req.indirect)
  }

  function FromRequires(reqs: seq<Manager.Require>): (r: seq<Dependency>)
    ensures |r| == |reqs|
    ensures forall k :: 0 <= k < |reqs| ==> r[k] == FromRequire(reqs[k])
  {
    seq(|reqs|, k requires 0 <= k < |reqs| => FromRequire(reqs[k]))
  }

  /**
   * getDependencies: errors reading or parsing go.mod are wrapped; otherwise
   * each require becomes a Dependency and the slice is sorted by path alone.
   */
  method GetDependencies(manifest: Result<seq<Manager.Require>, Manager.ManifestError>)
    returns (r: Result<seq<Dependency>, string>)
    ensures manifest.Err? && manifest.error.ReadFailed? ==> r == Err("reading go.mod: " + manifest.error.reason)
    ensures manifest.Err? && manifest.error.ParseFailed? ==> r == Err("parsing go.mod: " + manifest.error.reason)
    ensures manifest.Ok? ==> r.Ok? && Sorted(r.value, PathLess)
    ensures manifest.Ok? ==> multiset(r.value) == multiset(FromRequires(manifest.value))
  {
    match manifest
    case Err(ReadFailed(reason)) =>
      return Err("reading go.mod: " + reason);
    case Err(ParseFailed(reason)) =>
      return Err("parsing go.mod: " + reason);
    case Ok(reqs) =>
      var deps: seq<Dependency> := [];
      for k := 0 to |reqs|
        invariant deps == FromRequires(reqs[..k])
      {
        assert FromRequires(reqs[..k + 1]) == FromRequires(reqs[..k]) + [FromRequire(reqs[k])];
        deps := deps + [FromRequire(reqs[k])];
      }
      assert reqs[..|reqs|] == reqs;
      var a := new Dependency[|deps|](i requires 0 <= i < |deps| => deps[i]);
      assert a[..] == deps;
      PathLessIsStrictWeakOrder();
      SortSlice(a, PathLess);
      return Ok(a[..]);
  }

  /**
   * The legacy order ignores Indirect: an indirect "a" before a direct "b" is
   * sorted by path, but out of the direct-first order of internal/dependency.
   */
  lemma LegacyOrderIgnoresIndirect(va: string, vb: string)
    ensures var s := [Dependency("a", va, true), Dependency("b", vb, false)];
      Sorted(s, PathLess) && !Sorted(ToRecords(s), Manager.DirectFirst)
  {
    var s := [Dependency("a", va, true), Dependency("b", vb, false)];
    assert Less("a", "b");
    LessAsymmetric("a", "b");
    assert Manager.DirectFirst(ToRecords(s)[1], ToRecords(s)[0]);
  }

  // ---------------------------------------------------------------------------
  // confirmUpdate

  /**
   * confirmUpdate on a standard input holding input: a whole first line that
   * answers "y" or "yes" (in any case, with any blanks) accepts; a read error,
   * such as end of input before a newline, refuses.
   */
  function ConfirmUpdate(input: string): (yes: bool)
    ensures yes ==> '\n' in input
  {
    var n := Ui.LineLength(input);
    Ui.LineLengthMeaning(input);
    n > 0 && input[n - 1] == '\n' && Ui.AcceptsAnswer(input[..n])
  }

  /** A first line "y" or "yes" in any case, with blanks before it, confirms, whatever follows. */
  lemma ConfirmUpdateAcceptsYes(p: string, w: string, rest: string)
    requires AllSpace(p) && '\n' !in p
    requires ToLower(w) == "y" || ToLower(w) == "yes"
    ensures ConfirmUpdate(p + w + "\n" + rest)
  {
    assert '\n' !in w by {
      forall k | 0 <= k < |w| ensures w[k] != '\n' {
        assert ToLower(w)[k] == LowerChar(w[k]);
      }
    }
    var line := p + w;
    Ui.LineLengthOfLine(line, rest);
    assert (line + "\n" + rest)[..|line| + 1] == p + w + "\n";
    Ui.PaddedYesIsAccepted(p, w, "\n");
  }

  /** An input without a newline is a read error, and refuses. */
  lemma ConfirmUpdateRefusesAtEndOfInput(input: string)
    requires '\n' !in input
    ensures !ConfirmUpdate(input)
  {
  }
}
