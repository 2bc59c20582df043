/**
 * The dependency manager (internal/dependency/manager.go): turning go.mod
 * requires and `go list -u -m -json all` records into dependency lists,
 * filtering direct from indirect, and the canonical order.
 */
module Manager {
  import opened Wrappers
  import opened GoStrings
  import opened D = Dependency
  import opened SliceSort

  // ---------------------------------------------------------------------------
  // Inputs delivered by the collaborators the model does not include

  /** A require line of go.mod as modfile.Parse returns it. */
  datatype Require = Require(path: string, version: string, indirect: bool)

  /** How reading go.mod failed: os.ReadFile or modfile.Parse. */
  datatype ManifestError = ReadFailed(reason: string) | ParseFailed(reason: string)

  /** The Update object of a `go list -u -m -json` record. */
  datatype ModuleUpdate = ModuleUpdate(path: string, version: string)

  /** One decoded record of `go list -u -m -json all`. */
  datatype ModuleRecord = ModuleRecord(
    path: string,
    version: string,
    indirect: bool,
    main: bool,
    update: Option<ModuleUpdate>
  )

  // ---------------------------------------------------------------------------
  // The canonical order

  /** The less function of sortDependencies: direct before indirect, then by path. */
  predicate DirectFirst(a: Dependency, b: Dependency) {
    if a.indirect != b.indirect then !a.indirect else Less(a.path, b.path)
  }

  lemma DirectFirstIsStrictWeakOrder()
    ensures StrictWeakOrder(DirectFirst)
  {
    forall x: Dependency, y: Dependency | DirectFirst(x, y) ensures !DirectFirst(y, x) {
      LessAsymmetric(x.path, y.path);
    }
    forall x: Dependency, y: Dependency, z: Dependency | !DirectFirst(x, y) && !DirectFirst(y, z)
      ensures !DirectFirst(x, z)
    {
      if x.indirect == y.indirect == z.indirect {
        LessTotal(x.path, y.path);
        LessTotal(y.path, z.path);
        if Less(z.path, y.path) && Less(y.path, x.path) {
          LessTransitive(z.path, y.path, x.path);
        }
        LessAsymmetric(z.path, x.path);
        LessIrreflexive(x.path);
      }
    }
  }

  /**
   * Sorted under DirectFirst means exactly: no indirect dependency precedes a
   * direct one, and within a group no path precedes a smaller one.
   */
  lemma DirectFirstSortedMeans(s: seq<Dependency>)
    ensures Sorted(s, DirectFirst) <==>
      (forall i, j :: 0 <= i < j < |s| ==> (s[i].indirect ==> s[j].indirect)) &&
      (forall i, j :: 0 <= i < j < |s| && s[i].indirect == s[j].indirect ==> !Less(s[j].path, s[i].path))
  {
  }

  /** With distinct paths, each group of a sorted list is in strictly ascending path order. */
  lemma {:induction false} SortedGroupsStrictlyAscend(s: seq<Dependency>, i: nat, j: nat)
    requires Sorted(s, DirectFirst)
    requires forall p, q :: 0 <= p < q < |s| ==> s[p].path != s[q].path
    requires i < j < |s| && s[i].indirect == s[j].indirect
    ensures Less(s[i].path, s[j].path)
  {
    assert !DirectFirst(s[j], s[i]);
    LessTotal(s[i].path, s[j].path);
  }

  /** sortDependencies: sort.Slice with DirectFirst, in place. */
  method SortDependencies(a: array<Dependency>)
    modifies a
    ensures Sorted(a[..], DirectFirst)
    ensures multiset(a[..]) == old(multiset(a[..]))
  {
    DirectFirstIsStrictWeakOrder();
    SortSlice(a, DirectFirst);
  }

  /** Sorting a copy of a sequence, as the Go code sorts the slice it has just built. */
  method SortedCopy(s: seq<Dependency>) returns (r: seq<Dependency>)
    ensures Sorted(r, DirectFirst)
    ensures multiset(r) == multiset(s)
  {
    var a := new Dependency[|s|](i requires 0 <= i < |s| => s[i]);
    assert a[..] == s;
    SortDependencies(a);
    r := a[..];
  }

  /**
   * Sorting is idempotent: an already sorted list whose paths are distinct is
   * the only sorted arrangement of its elements.
   */
  lemma SortIsIdempotent(s: seq<Dependency>, r: seq<Dependency>)
    requires Sorted(s, DirectFirst)
    requires forall p, q :: 0 <= p < q < |s| ==> s[p].path != s[q].path
    requires Sorted(r, DirectFirst) && multiset(r) == multiset(s)
    ensures r == s
  {
    DirectFirstIsStrictWeakOrder();
    assert KeysDistinct(s, DirectFirst) by {
      forall i, j | 0 <= i < |s| && 0 <= j < |s| && !DirectFirst(s[i], s[j]) && !DirectFirst(s[j], s[i])
        ensures s[i] == s[j]
      {
        if i != j {
          LessTotal(s[i].path, s[j].path);
        }
      }
    }
    SortedPermutationUnique(s, r, DirectFirst);
  }

  // ---------------------------------------------------------------------------
  // GetDependencies

  function FromRequire(req: Require): Dependency {
    Dependency(req.path, req.version, "", req.indirect, false)
  }

  /** The recorded fields of each require, in go.mod order. */
  function FromRequires(reqs: seq<Require>): (r: seq<Dependency>)
    ensures |r| == |reqs|
    ensures forall k :: 0 <= k < |reqs| ==>
      r[k].path == reqs[k].path && r[k].version == reqs[k].version && r[k].indirect == reqs[k].indirect
  {
    seq(|reqs|, k requires 0 <= k < |reqs| => FromRequire(reqs[k]))
  }

  /**
   * GetDependencies: a read or parse failure of go.mod is reported with the
   * file's path; otherwise every require becomes a Dependency and the list is
   * put in the canonical order.
   */
  method GetDependencies(goModPath: string, manifest: Result<seq<Require>, ManifestError>)
    returns (r: Result<seq<Dependency>, string>)
    ensures manifest.Err? && manifest.error.ReadFailed? ==>
      r == Err("reading " + goModPath + ": " + manifest.error.reason)
    ensures manifest.Err? && manifest.error.ParseFailed? ==>
      r == Err("parsing " + goModPath + ": " + manifest.error.reason)
    ensures manifest.Ok? ==> r.Ok? && Sorted(r.value, DirectFirst)
    ensures manifest.Ok? ==> multiset(r.value) == multiset(FromRequires(manifest.value))
  {
    match manifest
    case Err(ReadFailed(reason)) =>
      return Err("reading " + goModPath + ": " + reason);
    case Err(ParseFailed(reason)) =>
      return Err("parsing " + goModPath + ": " + reason);
    case Ok(reqs) =>
      var deps: seq<Dependency> := [];
      for k := 0 to |reqs|
        invariant deps == FromRequires(reqs[..k])
      {
        assert FromRequires(reqs[..k + 1]) == FromRequires(reqs[..k]) + [FromRequire(reqs[k])];
        deps := deps + [FromRequire(reqs[k])];
      }
      assert reqs[..|reqs|] == reqs;
      var sorted := SortedCopy(deps);
      return Ok(sorted);
  }

  // ---------------------------------------------------------------------------
  // FilterDependencies

  /** The direct dependencies of a list, in their original relative order. */
  function DirectOnly(deps: seq<Dependency>): (r: seq<Dependency>)
    ensures |r| <= |deps|
  {
    if deps == [] then []
    else
      var last := deps[|deps| - 1];
      DirectOnly(deps[..|deps| - 1]) + (if last.indirect then [] else [last])
  }

  /** The number of indirect dependencies in a list. */
  function IndirectCount(deps: seq<Dependency>): nat {
    if deps == [] then 0
    else IndirectCount(deps[..|deps| - 1]) + (if deps[|deps| - 1].indirect then 1 else 0)
  }

  /** FilterDependencies(deps, includeIndirect). */
  method FilterDependencies(deps: seq<Dependency>, includeIndirect: bool) returns (filtered: seq<Dependency>)
    ensures includeIndirect ==> filtered == deps
    ensures !includeIndirect ==> filtered == DirectOnly(deps)
  {
    if includeIndirect {
      return deps;
    }
    filtered := [];
    for k := 0 to |deps|
      invariant filtered == DirectOnly(deps[..k])
    {
      assert deps[..k + 1][..k] == deps[..k];
      if !deps[k].indirect {
        filtered := filtered + [deps[k]];
      }
    }
    assert deps[..|deps|] == deps;
  }

  /** DirectOnly keeps exactly the direct elements. */
  lemma {:induction false} DirectOnlyMembers(deps: seq<Dependency>)
    ensures forall d :: d in DirectOnly(deps) <==> d in deps && !d.indirect
  {
    if deps != [] {
      DirectOnlyMembers(deps[..|deps| - 1]);
      assert deps == deps[..|deps| - 1] + [deps[|deps| - 1]];
    }
  }

  /** DirectOnly distributes over concatenation, so relative order is kept. */
  lemma {:induction false} DirectOnlyConcat(a: seq<Dependency>, b: seq<Dependency>)
    ensures DirectOnly(a + b) == DirectOnly(a) + DirectOnly(b)
  {
    if b != [] {
      assert (a + b)[..|a + b| - 1] == a + b[..|b| - 1];
      DirectOnlyConcat(a, b[..|b| - 1]);
    } else {
      assert a + b == a;
    }
  }

  /** Every dependency is either kept by DirectOnly or counted as indirect. */
  lemma {:induction false} DirectOnlyCount(deps: seq<Dependency>)
    ensures |DirectOnly(deps)| + IndirectCount(deps) == |deps|
  {
    if deps != [] {
      DirectOnlyCount(deps[..|deps| - 1]);
    }
  }

  /** Filtering twice is filtering once. */
  lemma {:induction false} DirectOnlyIdempotent(deps: seq<Dependency>)
    ensures DirectOnly(DirectOnly(deps)) == DirectOnly(deps)
  {
    if deps != [] {
      var init := deps[..|deps| - 1];
      var last := deps[|deps| - 1];
      DirectOnlyIdempotent(init);
      DirectOnlyConcat(DirectOnly(init), if last.indirect then [] else [last]);
    }
  }

  /** Filtering a canonically ordered list keeps it canonically ordered. */
  lemma {:induction false} DirectOnlyKeepsOrder(deps: seq<Dependency>)
    requires Sorted(deps, DirectFirst)
    ensures Sorted(DirectOnly(deps), DirectFirst)
  {
    if deps != [] {
      var init := deps[..|deps| - 1];
      var last := deps[|deps| - 1];
      DirectOnlyKeepsOrder(init);
      DirectOnlyMembers(init);
      var f := DirectOnly(init);
      forall i | 0 <= i < |f| ensures !DirectFirst(last, f[i]) {
        assert f[i] in init;
        var p :| 0 <= p < |init| && init[p] == f[i];
      }
    }
  }

  /** An empty list filters to an empty list. */
  lemma FilterOfEmpty()
    ensures DirectOnly([]) == []
  {
  }

  // ---------------------------------------------------------------------------
  // GetUpdatableDependencies

  /** The records GetUpdatableDependencies keeps: not the main module, a version, and an update. */
  predicate Updatable(m: ModuleRecord) {
    !m.main && m.version != "" && m.update.Some?
  }

  function ToUpdatable(m: ModuleRecord): Dependency
    requires m.update.Some?
  {
    Dependency(m.path, m.version, m.update.value.version, m.indirect, true)
  }

  /** The dependencies extracted from the records, in listing order. */
  function UpdatableOf(records: seq<ModuleRecord>): seq<Dependency> {
    if records == [] then []
    else
      var last := records[|records| - 1];
      UpdatableOf(records[..|records| - 1]) + (if Updatable(last) then [ToUpdatable(last)] else [])
  }

  /**
   * GetUpdatableDependencies with the `go list` output already decoded:
   * an exec failure is reported, otherwise the updatable records become
   * dependencies marked HasUpdate and are put in the canonical order.
   */
  method GetUpdatableDependencies(listing: Result<seq<ModuleRecord>, string>)
    returns (r: Result<seq<Dependency>, string>)
    ensures listing.Err? ==> r == Err("failed to check for updates: " + listing.error)
    ensures listing.Ok? ==> r.Ok? && Sorted(r.value, DirectFirst)
    ensures listing.Ok? ==> multiset(r.value) == multiset(UpdatableOf(listing.value))
  {
    if listing.Err? {
      return Err("failed to check for updates: " + listing.error);
    }
    var records := listing.value;
    var updatable: seq<Dependency> := [];
    for k := 0 to |records|
      invariant updatable == UpdatableOf(records[..k])
    {
      assert records[..k + 1][..k] == records[..k];
      var m := records[k];
      if m.main {
        continue;
      }
      if m.version == "" {
        continue;
      }
      if m.update.Some? {
        updatable := updatable + [Dependency(m.path, m.version, m.update.value.version, m.indirect, true)];
      }
    }
    assert records[..|records|] == records;
    var sorted := SortedCopy(updatable);
    return Ok(sorted);
  }

  /**
   * A dependency is extracted exactly when some qualifying record carries its
   * path, version and indirect flag, with HasUpdate set and NewVersion taken
   * from the record's update.
   */
  lemma {:induction false} UpdatableOfMembers(records: seq<ModuleRecord>, d: Dependency)
    ensures d in UpdatableOf(records) <==>
      exists k :: 0 <= k < |records| && Updatable(records[k]) && d == ToUpdatable(records[k])
  {
    if records != [] {
      var init := records[..|records| - 1];
      UpdatableOfMembers(init, d);
      assert forall k :: 0 <= k < |init| ==> init[k] == records[k];
    }
  }

  /** Every extracted dependency has an update, a version and the new version of its record. */
  lemma ExtractedHaveUpdates(records: seq<ModuleRecord>, d: Dependency)
    requires d in UpdatableOf(records)
    ensures d.hasUpdate && d.version != ""
    ensures exists k :: 0 <= k < |records| && !records[k].main && records[k].update.Some? &&
                        d.newVersion == records[k].update.value.version && d.path == records[k].path
  {
    UpdatableOfMembers(records, d);
  }
}
