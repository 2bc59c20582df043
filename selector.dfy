/**
 * The selection-expression parser and the interactive selection loop
 * (internal/selector/selector.go).
 *
 * Each imperative routine of the source is a method with its loop, proved
 * equal to a recursive specification function; the properties the selector
 * promises are lemmas about those functions.
 */
module Selector {
  import opened Wrappers
  import opened GoStrings
  import opened D = Dependency

  /** Why a selection expression was refused; each carries what the Go message prints. */
  datatype ParseError =
    | InvalidRangeFormat(part: string)             // "invalid range format: %s"
    | InvalidRangeStart(token: string)             // "invalid start number in range: %s"
    | InvalidRangeEnd(token: string)               // "invalid end number in range: %s"
    | RangeOutOfBounds(start: int, end: int, count: nat) // "range %d-%d is out of bounds (1-%d)"
    | IndexOutOfRange(num: int, count: nat)        // "number %d is out of range (1-%d)"
    | NoPatternMatch(pattern: string)              // "no dependencies match pattern: %s"

  /** SelectionResult: the three ways Select ends. */
  datatype SelectionResult = Selected(deps: seq<Dependency>) | Cancelled | Failed(error: string)

  /** One call of UIInterface.ReadInput: the line read, or the reader's error. */
  datatype ReadResult = Line(text: string) | ReadError(reason: string)

  /** What a reader reports once its input is exhausted (io.EOF). */
  const EndOfInput: string := "EOF"

  // ---------------------------------------------------------------------------
  // containsDependency

  predicate HasPath(s: seq<Dependency>, path: string) {
    exists k :: 0 <= k < |s| && s[k].path == path
  }

  /** containsDependency: some element already has dep's path. */
  method ContainsDependency(slice: seq<Dependency>, dep: Dependency) returns (found: bool)
    ensures found <==> HasPath(slice, dep.path)
  {
    for k := 0 to |slice|
      invariant forall i :: 0 <= i < k ==> slice[i].path != dep.path
    {
      if slice[k].path == dep.path {
        return true;
      }
    }
    return false;
  }

  // ---------------------------------------------------------------------------
  // matchesPattern

  /**
   * The greedy scan of matchesPattern: each non-empty part is looked for,
   * leftmost, after the end of the previous match.
   */
  function Greedy(path: string, parts: seq<string>, index: nat): bool
    requires index <= |path|
    decreases |parts|
  {
    if parts == [] then true
    else if parts[0] == [] then Greedy(path, parts[1..], index)
    else
      var k := IndexOf(path[index..], parts[0]);
      if k < 0 then false else Greedy(path, parts[1..], index + k + |parts[0]|)
  }

  /** matchesPattern(path, pattern). */
  function Matches(path: string, pattern: string): bool {
    if '*' !in pattern then Contains(path, pattern) else Greedy(path, Split(pattern, '*'), 0)
  }

  /** The parts occur in t in this order, without overlapping, anywhere (the reference meaning). */
  ghost predicate Embedded(t: string, parts: seq<string>)
    decreases |parts|
  {
    parts == [] || exists k: nat :: OccursAt(t, parts[0], k) && Embedded(t[k + |parts[0]|..], parts[1..])
  }

  /** What embeds in a suffix embeds in the whole string. */
  lemma EmbeddedInLonger(u: string, j: nat, parts: seq<string>)
    requires j <= |u| && Embedded(u[j..], parts)
    ensures Embedded(u, parts)
  {
    if parts != [] {
      var p := parts[0];
      var k: nat :| OccursAt(u[j..], p, k) && Embedded(u[j..][k + |p|..], parts[1..]);
      assert u[j..][k..k + |p|] == u[j + k..j + k + |p|];
      assert u[j..][k + |p|..] == u[j + k + |p|..];
      assert OccursAt(u, p, j + k);
    }
  }

  /** An empty part embeds anywhere, so it can be dropped. */
  lemma EmbeddedEmptyHead(t: string, parts: seq<string>)
    requires parts != [] && parts[0] == []
    ensures Embedded(t, parts) <==> Embedded(t, parts[1..])
  {
    assert OccursAt(t, parts[0], 0) && t[0 + |parts[0]|..] == t;
    if Embedded(t, parts) {
      var k: nat :| OccursAt(t, parts[0], k) && Embedded(t[k + |parts[0]|..], parts[1..]);
      EmbeddedInLonger(t, k, parts[1..]);
    }
  }

  /** Embedding the first part at its leftmost occurrence loses nothing. */
  lemma EmbeddedLeftmostHead(t: string, parts: seq<string>, k: nat)
    requires parts != [] && k + |parts[0]| <= |t|
    requires OccursAt(t, parts[0], k)
    requires forall j: nat :: j < k ==> !OccursAt(t, parts[0], j)
    ensures Embedded(t, parts) <==> Embedded(t[k + |parts[0]|..], parts[1..])
  {
    var p := parts[0];
    if Embedded(t, parts) {
      var k': nat :| OccursAt(t, p, k') && Embedded(t[k' + |p|..], parts[1..]);
      assert k <= k';
      assert t[k + |p|..][k' - k..] == t[k' + |p|..];
      EmbeddedInLonger(t[k + |p|..], k' - k, parts[1..]);
    }
  }

  /** The greedy leftmost scan finds an embedding exactly when one exists. */
  lemma {:induction false} GreedyIffEmbedded(path: string, parts: seq<string>, index: nat)
    requires index <= |path|
    ensures Greedy(path, parts, index) <==> Embedded(path[index..], parts)
    decreases |parts|
  {
    var t := path[index..];
    if parts == [] {
    } else if parts[0] == [] {
      GreedyIffEmbedded(path, parts[1..], index);
      EmbeddedEmptyHead(t, parts);
    } else {
      var p := parts[0];
      var k := IndexOf(t, p);
      IndexOfMeaning(t, p);
      if k >= 0 {
        GreedyIffEmbedded(path, parts[1..], index + k + |p|);
        assert path[index + k + |p|..] == t[k + |p|..];
        EmbeddedLeftmostHead(t, parts, k);
      }
    }
  }

  /**
   * The meaning of a pattern: without '*' it matches by substring containment;
   * with '*' the pieces between the stars must occur left to right, unanchored
   * at both ends.
   */
  lemma MatchesMeaning(path: string, pattern: string)
    ensures '*' !in pattern ==> (Matches(path, pattern) <==> exists k: nat :: OccursAt(path, pattern, k))
    ensures '*' in pattern ==> (Matches(path, pattern) <==> Embedded(path, Split(pattern, '*')))
  {
    if '*' in pattern {
      GreedyIffEmbedded(path, Split(pattern, '*'), 0);
      assert path[0..] == path;
    } else {
      ContainsIff(path, pattern);
    }
  }

  lemma {:induction false} GreedyOfEmptyParts(path: string, parts: seq<string>, index: nat)
    requires index <= |path|
    requires forall k :: 0 <= k < |parts| ==> parts[k] == []
    ensures Greedy(path, parts, index)
    decreases |parts|
  {
    if parts != [] {
      GreedyOfEmptyParts(path, parts[1..], index);
    }
  }

  /** A pattern made only of stars (or the empty pattern) matches every path. */
  lemma StarsMatchEverything(path: string, pattern: string)
    requires forall k :: 0 <= k < |pattern| ==> pattern[k] == '*'
    ensures Matches(path, pattern)
  {
    if pattern == [] {
      assert OccursAt(path, pattern, 0);
      ContainsIff(path, pattern);
    } else {
      assert pattern[0] in pattern;
      var parts := Split(pattern, '*');
      SplitOfSeparators(pattern, '*');
      GreedyOfEmptyParts(path, parts, 0);
    }
  }

  /** matchesPattern, with its index-advancing loop. */
  method MatchesPattern(path: string, pattern: string) returns (matched: bool)
    ensures matched == Matches(path, pattern)
  {
    if '*' !in pattern {
      return Contains(path, pattern);
    }
    var parts := Split(pattern, '*');
    var index: nat := 0;
    for k := 0 to |parts|
      invariant index <= |path|
      invariant Greedy(path, parts, 0) == Greedy(path, parts[k..], index)
    {
      assert parts[k..][1..] == parts[k + 1..];
      var part := parts[k];
      if part == [] {
        continue;
      }
      var newIndex := IndexOf(path[index..], part);
      if newIndex == -1 {
        return false;
      }
      index := index + newIndex + |part|;
    }
    return true;
  }

  // ---------------------------------------------------------------------------
  // matchPattern

  /**
   * What matchPattern leaves in *selected: every dependency whose lower-cased
   * path matches is appended, unless an entry with its path is already there.
   */
  function AddMatches(pattern: string, deps: seq<Dependency>, selected: seq<Dependency>): seq<Dependency>
    decreases |deps|
  {
    if deps == [] then selected
    else
      var d := deps[0];
      var next := if Matches(ToLower(d.path), pattern) && !HasPath(selected, d.path) then selected + [d] else selected;
      AddMatches(pattern, deps[1..], next)
  }

  /** matchPattern: updates the selection and says whether it appended anything. */
  method MatchPattern(pattern: string, deps: seq<Dependency>, selected: seq<Dependency>)
    returns (selected': seq<Dependency>, matched: bool)
    ensures selected' == AddMatches(pattern, deps, selected)
    ensures matched <==> |selected'| > |selected|
  {
    selected' := selected;
    matched := false;
    for k := 0 to |deps|
      invariant AddMatches(pattern, deps, selected) == AddMatches(pattern, deps[k..], selected')
      invariant |selected'| >= |selected|
      invariant matched <==> |selected'| > |selected|
    {
      assert deps[k..][1..] == deps[k + 1..];
      var dep := deps[k];
      var m := MatchesPattern(ToLower(dep.path), pattern);
      if m {
        var present := ContainsDependency(selected', dep);
        if !present {
          selected' := selected' + [dep];
          matched := true;
        }
      }
    }
    AddMatchesGrows(pattern, [], selected');
  }

  /** matchPattern only appends. */
  lemma {:induction false} AddMatchesGrows(pattern: string, deps: seq<Dependency>, selected: seq<Dependency>)
    ensures |AddMatches(pattern, deps, selected)| >= |selected|
    ensures AddMatches(pattern, deps, selected)[..|selected|] == selected
    decreases |deps|
  {
    if deps != [] {
      var d := deps[0];
      var next := if Matches(ToLower(d.path), pattern) && !HasPath(selected, d.path) then selected + [d] else selected;
      AddMatchesGrows(pattern, deps[1..], next);
      assert next[..|selected|] == selected;
    }
  }

  /**
   * A pattern clause adds something exactly when some dependency matches it
   * and no entry with that path was selected before the clause.
   */
  lemma {:induction false} AddMatchesAddsIff(pattern: string, deps: seq<Dependency>, selected: seq<Dependency>)
    ensures |AddMatches(pattern, deps, selected)| > |selected| <==>
      exists k :: 0 <= k < |deps| && Matches(ToLower(deps[k].path), pattern) && !HasPath(selected, deps[k].path)
    decreases |deps|
  {
    if deps != [] {
      var d := deps[0];
      var adds := Matches(ToLower(d.path), pattern) && !HasPath(selected, d.path);
      var next := if adds then selected + [d] else selected;
      AddMatchesGrows(pattern, deps[1..], next);
      if !adds {
        AddMatchesAddsIff(pattern, deps[1..], selected);
        assert forall k :: 1 <= k < |deps| ==> deps[k] == deps[1..][k - 1];
      }
    }
  }

  /** Everything matchPattern appends comes from deps. */
  lemma {:induction false} AddMatchesFromDeps(pattern: string, deps: seq<Dependency>, selected: seq<Dependency>, all: seq<Dependency>)
    requires forall x :: x in deps ==> x in all
    requires forall x :: x in selected ==> x in all
    ensures forall x :: x in AddMatches(pattern, deps, selected) ==> x in all
    decreases |deps|
  {
    if deps != [] {
      var d := deps[0];
      var next := if Matches(ToLower(d.path), pattern) && !HasPath(selected, d.path) then selected + [d] else selected;
      AddMatchesFromDeps(pattern, deps[1..], next, all);
    }
  }

  /** No two entries share a path. */
  predicate UniquePaths(s: seq<Dependency>) {
    forall i, j :: 0 <= i < j < |s| ==> s[i].path != s[j].path
  }

  /** matchPattern never introduces a second entry with the same path. */
  lemma {:induction false} AddMatchesKeepsUnique(pattern: string, deps: seq<Dependency>, selected: seq<Dependency>)
    requires UniquePaths(selected)
    ensures UniquePaths(AddMatches(pattern, deps, selected))
    decreases |deps|
  {
    if deps != [] {
      var d := deps[0];
      var next := if Matches(ToLower(d.path), pattern) && !HasPath(selected, d.path) then selected + [d] else selected;
      AddMatchesKeepsUnique(pattern, deps[1..], next);
    }
  }

  // ---------------------------------------------------------------------------
  // parseRange

  /** parseRange: "start-end" with 1 <= start <= end <= |deps| selects deps[start-1 .. end-1]. */
  function RangeOf(part: string, deps: seq<Dependency>): (r: Result<seq<Dependency>, ParseError>)
    ensures r.Ok? ==> 1 <= |r.value| <= |deps|
  {
    var halves := Split(part, '-');
    if |halves| != 2 then Err(InvalidRangeFormat(part))
    else match Atoi(TrimSpace(halves[0]))
      case None => Err(InvalidRangeStart(halves[0]))
      case Some(start) =>
        match Atoi(TrimSpace(halves[1]))
        case None => Err(InvalidRangeEnd(halves[1]))
        case Some(end) =>
          if start < 1 || end > |deps| || start > end then Err(RangeOutOfBounds(start, end, |deps|))
          else Ok(deps[start - 1..end])
  }

  /** parseRange, with its appending loop. */
  method ParseRange(part: string, deps: seq<Dependency>) returns (r: Result<seq<Dependency>, ParseError>)
    ensures r == RangeOf(part, deps)
  {
    var rangeParts := Split(part, '-');
    if |rangeParts| != 2 {
      return Err(InvalidRangeFormat(part));
    }
    var start := Atoi(TrimSpace(rangeParts[0]));
    if start.None? {
      return Err(InvalidRangeStart(rangeParts[0]));
    }
    var end := Atoi(TrimSpace(rangeParts[1]));
    if end.None? {
      return Err(InvalidRangeEnd(rangeParts[1]));
    }
    var s, e := start.value, end.value;
    if s < 1 || e > |deps| || s > e {
      return Err(RangeOutOfBounds(s, e, |deps|));
    }
    var rangeDeps := CopyRange(deps, s, e);
    return Ok(rangeDeps);
  }

  /** The copying loop of parseRange: entries start through end, 1-based and inclusive. */
  method CopyRange(deps: seq<Dependency>, start: int, end: int) returns (rangeDeps: seq<Dependency>)
    requires 1 <= start <= end <= |deps|
    ensures rangeDeps == deps[start - 1..end]
    ensures |rangeDeps| == end - start + 1
  {
    rangeDeps := [];
    var i := start - 1;
    while i < end
      invariant start - 1 <= i <= end
      invariant rangeDeps == deps[start - 1..i]
    {
      rangeDeps := rangeDeps + [deps[i]];
      i := i + 1;
    }
  }

  // ---------------------------------------------------------------------------
  // ParseSelection

  /** One comma-separated clause, already trimmed, applied to the selection so far. */
  function Clause(part: string, deps: seq<Dependency>, selected: seq<Dependency>): Result<seq<Dependency>, ParseError> {
    if '-' in part then
      match RangeOf(part, deps)
      case Err(e) => Err(e)
      case Ok(rangeDeps) => Ok(selected + rangeDeps)       // appended without the duplicate check
    else match Atoi(part)
      case Some(n) =>
        if n < 1 || n > |deps| then Err(IndexOutOfRange(n, |deps|))
        else if HasPath(selected, deps[n - 1].path) then Ok(selected)
        else Ok(selected + [deps[n - 1]])
      case None =>
        var selected' := AddMatches(part, deps, selected);
        if |selected'| > |selected| then Ok(selected') else Err(NoPatternMatch(part))
  }

  /** The clauses in order; the first failing clause fails the whole expression. */
  function Clauses(parts: seq<string>, deps: seq<Dependency>, selected: seq<Dependency>): Result<seq<Dependency>, ParseError>
    decreases |parts|
  {
    if parts == [] then Ok(selected)
    else match Clause(TrimSpace(parts[0]), deps, selected)
      case Err(e) => Err(e)
      case Ok(selected') => Clauses(parts[1..], deps, selected')
  }

  /** ParseSelection(input, deps). */
  function Parse(input: string, deps: seq<Dependency>): Result<seq<Dependency>, ParseError> {
    var s := ToLower(TrimSpace(input));
    if s == "all" then Ok(deps) else Clauses(Split(s, ','), deps, [])
  }

  /** ParseSelection, with its loop over the clauses. */
  method ParseSelection(input: string, deps: seq<Dependency>) returns (r: Result<seq<Dependency>, ParseError>)
    ensures r == Parse(input, deps)
    ensures ToLower(TrimSpace(input)) == "all" ==> r == Ok(deps)
    ensures r.Ok? ==> forall x :: x in r.value ==> x in deps
  {
    ParseFromDeps(input, deps);
    var s := ToLower(TrimSpace(input));
    if s == "all" {
      return Ok(deps);
    }
    var selected: seq<Dependency> := [];
    var parts := Split(s, ',');
    var k := 0;
    while k < |parts|
      invariant 0 <= k <= |parts|
      invariant Clauses(parts, deps, []) == Clauses(parts[k..], deps, selected)
    {
      ClausesStep(parts, k, deps, selected);
      var next := ApplyClause(TrimSpace(parts[k]), deps, selected);
      if next.Err? {
        return Err(next.error);
      }
      selected := next.value;
      k := k + 1;
    }
    return Ok(selected);
  }

  /**
   * The body of ParseSelection's loop: one trimmed clause, as a range, an
   * index or a pattern, applied to the selection so far.
   */
  method ApplyClause(part: string, deps: seq<Dependency>, selected: seq<Dependency>)
    returns (r: Result<seq<Dependency>, ParseError>)
    ensures r == Clause(part, deps, selected)
  {
    if '-' in part {
      var rangeDeps := ParseRange(part, deps);
      RangeClause(part, deps, selected);
      if rangeDeps.Err? {
        return Err(rangeDeps.error);
      }
      return Ok(selected + rangeDeps.value);
    }
    var num := Atoi(part);
    if num.Some? {
      var n := num.value;
      IndexClause(part, deps, selected, n);
      if n < 1 || n > |deps| {
        return Err(IndexOutOfRange(n, |deps|));
      }
      var dep := deps[n - 1];
      var present := ContainsDependency(selected, dep);
      if !present {
        return Ok(selected + [dep]);
      }
      return Ok(selected);
    }
    PatternClause(part, deps, selected);
    var selected', matched := MatchPattern(part, deps, selected);
    if !matched {
      return Err(NoPatternMatch(part));
    }
    return Ok(selected');
  }

  /** One step of the clause loop. */
  lemma ClausesStep(parts: seq<string>, k: nat, deps: seq<Dependency>, selected: seq<Dependency>)
    requires k < |parts|
    ensures var c := Clause(TrimSpace(parts[k]), deps, selected);
      Clauses(parts[k..], deps, selected) == if c.Err? then Err(c.error) else Clauses(parts[k + 1..], deps, c.value)
  {
    assert parts[k..][0] == parts[k] && parts[k..][1..] == parts[k + 1..];
  }

  /** A clause with a hyphen is a range. */
  lemma RangeClause(part: string, deps: seq<Dependency>, selected: seq<Dependency>)
    requires '-' in part
    ensures var r := RangeOf(part, deps);
      Clause(part, deps, selected) == if r.Err? then Err(r.error) else Ok(selected + r.value)
  {
  }

  /** A clause that is neither a range nor a number is a pattern. */
  lemma PatternClause(part: string, deps: seq<Dependency>, selected: seq<Dependency>)
    requires '-' !in part && Atoi(part).None?
    ensures var s := AddMatches(part, deps, selected);
      Clause(part, deps, selected) == if |s| > |selected| then Ok(s) else Err(NoPatternMatch(part))
  {
  }

  // ---------------------------------------------------------------------------
  // Properties of ParseSelection

  /** A clause keeps what was selected before it, as a prefix. */
  lemma ClauseExtends(part: string, deps: seq<Dependency>, selected: seq<Dependency>)
    requires Clause(part, deps, selected).Ok?
    ensures |Clause(part, deps, selected).value| >= |selected|
    ensures Clause(part, deps, selected).value[..|selected|] == selected
  {
    if '-' !in part && Atoi(part).None? {
      AddMatchesGrows(part, deps, selected);
    }
  }

  /** A successful clause always leaves a non-empty selection. */
  lemma ClauseNonEmpty(part: string, deps: seq<Dependency>, selected: seq<Dependency>)
    requires Clause(part, deps, selected).Ok?
    ensures |Clause(part, deps, selected).value| > 0
  {
    if '-' !in part && Atoi(part).Some? {
      var n := Atoi(part).value;
      if HasPath(selected, deps[n - 1].path) {
        assert |selected| > 0;
      }
    }
  }

  lemma {:induction false} ClausesFromDeps(parts: seq<string>, deps: seq<Dependency>, selected: seq<Dependency>)
    requires forall x :: x in selected ==> x in deps
    requires Clauses(parts, deps, selected).Ok?
    ensures forall x :: x in Clauses(parts, deps, selected).value ==> x in deps
    decreases |parts|
  {
    if parts != [] {
      var part := TrimSpace(parts[0]);
      var r := Clause(part, deps, selected);
      assert r.Ok?;
      assert forall x :: x in r.value ==> x in deps by {
        if '-' in part {
          var rangeDeps := RangeOf(part, deps).value;
          assert forall x :: x in rangeDeps ==> x in deps;
        } else if Atoi(part).None? {
          AddMatchesFromDeps(part, deps, selected, deps);
        }
      }
      ClausesFromDeps(parts[1..], deps, r.value);
    }
  }

  /** Every element of a successful selection is one of deps. */
  lemma ParseFromDeps(input: string, deps: seq<Dependency>)
    ensures Parse(input, deps).Ok? ==> forall x :: x in Parse(input, deps).value ==> x in deps
  {
    var s := ToLower(TrimSpace(input));
    if s != "all" && Parse(input, deps).Ok? {
      ClausesFromDeps(Split(s, ','), deps, []);
    }
  }

  lemma {:induction false} ClausesNonEmpty(parts: seq<string>, deps: seq<Dependency>, selected: seq<Dependency>)
    requires |parts| > 0 || |selected| > 0
    requires Clauses(parts, deps, selected).Ok?
    ensures |Clauses(parts, deps, selected).value| > 0
    decreases |parts|
  {
    if parts != [] {
      var r := Clause(TrimSpace(parts[0]), deps, selected);
      ClauseNonEmpty(TrimSpace(parts[0]), deps, selected);
      ClausesNonEmpty(parts[1..], deps, r.value);
    }
  }

  /**
   * A successful parse is empty only for "all" over an empty list: the
   * "No dependencies matched" branch of Select cannot be taken, since Select
   * returns before parsing when the list is empty.
   */
  lemma ParseNonEmpty(input: string, deps: seq<Dependency>)
    requires Parse(input, deps).Ok? && |deps| > 0
    ensures |Parse(input, deps).value| > 0
  {
    var s := ToLower(TrimSpace(input));
    if s != "all" {
      ClausesNonEmpty(Split(s, ','), deps, []);
    }
  }

  lemma {:induction false} ClausesUnique(parts: seq<string>, deps: seq<Dependency>, selected: seq<Dependency>)
    requires UniquePaths(selected)
    requires forall k :: 0 <= k < |parts| ==> '-' !in parts[k]
    requires Clauses(parts, deps, selected).Ok?
    ensures UniquePaths(Clauses(parts, deps, selected).value)
    decreases |parts|
  {
    if parts != [] {
      var part := TrimSpace(parts[0]);
      TrimSpaceKeepsCharacters(parts[0]);
      var r := Clause(part, deps, selected);
      assert UniquePaths(r.value) by {
        if Atoi(part).None? {
          AddMatchesKeepsUnique(part, deps, selected);
        }
      }
      ClausesUnique(parts[1..], deps, r.value);
    }
  }

  /**
   * Without a range clause the selection never holds two entries with one
   * path: index and pattern clauses check for duplicates. (Range clauses do
   * not; see RangeSkipsDuplicateCheck.)
   */
  lemma ParseWithoutRangesIsUnique(input: string, deps: seq<Dependency>)
    requires UniquePaths(deps)
    requires '-' !in ToLower(TrimSpace(input))
    requires Parse(input, deps).Ok?
    ensures UniquePaths(Parse(input, deps).value)
  {
    var s := ToLower(TrimSpace(input));
    if s != "all" {
      var parts := Split(s, ',');
      assert forall k :: 0 <= k < |parts| ==> '-' !in parts[k] by {
        forall k | 0 <= k < |parts| ensures '-' !in parts[k] {
          PieceOfSplit(s, ',', parts, k);
        }
      }
      ClausesUnique(parts, deps, []);
    }
  }

  /** Each piece of a split is a substring of the whole. */
  lemma {:induction false} PieceOfSplit(s: string, sep: char, parts: seq<string>, k: nat)
    requires parts == Split(s, sep) && k < |parts|
    ensures forall c :: c in parts[k] ==> c in s
  {
    SplitJoin(s, sep);
    JoinContainsPieces(parts, sep, k);
  }

  lemma {:induction false} JoinContainsPieces(parts: seq<string>, sep: char, k: nat)
    requires |parts| >= 1 && k < |parts|
    ensures forall c :: c in parts[k] ==> c in Join(parts, sep)
    decreases |parts|
  {
    if |parts| > 1 {
      if k > 0 {
        JoinContainsPieces(parts[1..], sep, k - 1);
      }
    }
  }

  // ---------------------------------------------------------------------------
  // Concrete behaviour the source's quirks imply

  function Dep(path: string): Dependency {
    Dependency(path, "v1.0.0", "v1.1.0", false, true)
  }

  /** "all" in any case and with any surrounding blanks returns the list itself. */
  lemma AllKeyword(p: string, w: string, q: string, deps: seq<Dependency>)
    requires AllSpace(p) && AllSpace(q) && ToLower(w) == "all"
    ensures Parse(p + w + q, deps) == Ok(deps)
  {
    LowerPreservesSpace(w[0]);
    LowerPreservesSpace(w[|w| - 1]);
    assert Trimmed(w);
    TrimSpaceOfPadded(p, w, q);
  }

  /** The last clause of an expression, already trimmed. */
  lemma LastClause(b: string, deps: seq<Dependency>, selected: seq<Dependency>)
    requires Trimmed(b)
    ensures Clauses([b], deps, selected) == Clause(b, deps, selected)
  {
    TrimSpaceOfTrimmed(b);
    assert [b][0] == b && [b][1..] == [];
    var r := Clause(b, deps, selected);
    if r.Ok? {
      assert Clauses([b][1..], deps, r.value) == Ok(r.value);
    }
  }

  /** A one-clause expression that needs no trimming or lower-casing. */
  lemma SingleClause(part: string, deps: seq<Dependency>)
    requires Trimmed(part) && ',' !in part && part != "all"
    requires forall k :: 0 <= k < |part| ==> !('A' <= part[k] <= 'Z')
    ensures Parse(part, deps) == Clause(part, deps, [])
  {
    TrimSpaceOfTrimmed(part);
    ToLowerOfLower(part);
    SplitWithoutSeparator(part, ',');
    LastClause(part, deps, []);
  }

  /** A two-clause expression "a,b" that needs no trimming or lower-casing. */
  lemma TwoClauses(a: string, b: string, deps: seq<Dependency>)
    requires a != [] && b != [] && Trimmed(a) && Trimmed(b) && ',' !in a && ',' !in b
    requires forall k :: 0 <= k < |a| ==> !('A' <= a[k] <= 'Z')
    requires forall k :: 0 <= k < |b| ==> !('A' <= b[k] <= 'Z')
    ensures Parse(a + [','] + b, deps) ==
      match Clause(a, deps, [])
      case Err(e) => Err(e)
      case Ok(x) => Clause(b, deps, x)
  {
    var input := a + [','] + b;
    TwoClausesInput(a, b);
    assert Parse(input, deps) == Clauses([a, b], deps, []);
    TrimSpaceOfTrimmed(a);
    assert [a, b][1..] == [b];
    var r := Clause(a, deps, []);
    if r.Ok? {
      LastClause(b, deps, r.value);
    }
  }

  /** "a,b" needs no trimming or lower-casing, is not "all", and splits into a and b. */
  lemma TwoClausesInput(a: string, b: string)
    requires a != [] && b != [] && Trimmed(a) && Trimmed(b) && ',' !in a && ',' !in b
    requires forall k :: 0 <= k < |a| ==> !('A' <= a[k] <= 'Z')
    requires forall k :: 0 <= k < |b| ==> !('A' <= b[k] <= 'Z')
    ensures var input := a + [','] + b;
      ToLower(TrimSpace(input)) == input && input != "all" && Split(input, ',') == [a, b]
  {
    var input := a + [','] + b;
    assert input[0] == a[0] && input[|input| - 1] == b[|b| - 1];
    TrimSpaceOfTrimmed(input);
    ToLowerOfLower(input);
    assert input != "all" by {
      assert input[|a|] == ',';
    }
    SplitAtSeparator(a, b, ',');
    SplitWithoutSeparator(b, ',');
  }

  /** An index clause, once its number is known. */
  lemma IndexClause(part: string, deps: seq<Dependency>, selected: seq<Dependency>, n: int)
    requires '-' !in part && Atoi(part) == Some(n)
    ensures n < 1 || n > |deps| ==> Clause(part, deps, selected) == Err(IndexOutOfRange(n, |deps|))
    ensures 1 <= n <= |deps| && !HasPath(selected, deps[n - 1].path) ==> Clause(part, deps, selected) == Ok(selected + [deps[n - 1]])
    ensures 1 <= n <= |deps| && HasPath(selected, deps[n - 1].path) ==> Clause(part, deps, selected) == Ok(selected)
  {
  }

  /** A range clause "a-b" of two plain numbers m <= n within the list. */
  lemma RangeOfNumbers(a: string, b: string, deps: seq<Dependency>, m: int, n: int)
    requires '-' !in a && '-' !in b && Trimmed(a) && Trimmed(b)
    requires Atoi(a) == Some(m) && Atoi(b) == Some(n) && 1 <= m <= n <= |deps|
    ensures RangeOf(a + ['-'] + b, deps) == Ok(deps[m - 1..n])
  {
    SplitAtSeparator(a, b, '-');
    SplitWithoutSeparator(b, '-');
    TrimSpaceOfTrimmed(a);
    TrimSpaceOfTrimmed(b);
  }

  /** "m-n" with a start below 1, an end past the list or a start after the end is out of bounds. */
  lemma RangeOutOfBoundsOf(a: string, b: string, deps: seq<Dependency>, m: int, n: int)
    requires '-' !in a && '-' !in b && Trimmed(a) && Trimmed(b)
    requires Atoi(a) == Some(m) && Atoi(b) == Some(n)
    requires m < 1 || n > |deps| || m > n
    ensures RangeOf(a + ['-'] + b, deps) == Err(RangeOutOfBounds(m, n, |deps|))
  {
    SplitAtSeparator(a, b, '-');
    SplitWithoutSeparator(b, '-');
    TrimSpaceOfTrimmed(a);
    TrimSpaceOfTrimmed(b);
  }

  /** A numeric start followed by an end that is not a number is an invalid end. */
  lemma RangeEndNotNumberOf(a: string, b: string, deps: seq<Dependency>)
    requires '-' !in a && '-' !in b && Trimmed(a) && Trimmed(b)
    requires Atoi(a).Some? && Atoi(b).None?
    ensures RangeOf(a + ['-'] + b, deps) == Err(InvalidRangeEnd(b))
  {
    SplitAtSeparator(a, b, '-');
    SplitWithoutSeparator(b, '-');
    TrimSpaceOfTrimmed(a);
    TrimSpaceOfTrimmed(b);
  }

  /** Two hyphens or more make an invalid range format, whatever surrounds them. */
  lemma RangeFormatOf(a: string, b: string, c: string, deps: seq<Dependency>)
    requires '-' !in a && '-' !in b
    ensures RangeOf(a + ['-'] + b + ['-'] + c, deps) == Err(InvalidRangeFormat(a + ['-'] + b + ['-'] + c))
  {
    var rest := b + ['-'] + c;
    assert a + ['-'] + b + ['-'] + c == a + ['-'] + rest;
    SplitAtSeparator(a, rest, '-');
    SplitAtSeparator(b, c, '-');
  }

  /** Over three dependencies, the reversed range "3-1" is out of bounds. */
  lemma ReversedRangeRejected(deps: seq<Dependency>)
    requires |deps| == 3
    ensures RangeOf("3-1", deps) == Err(RangeOutOfBounds(3, 1, 3))
  {
    AtoiDigit('3');
    AtoiDigit('1');
    assert "3" == ['3'] && "1" == ['1'];
    RangeOutOfBoundsOf("3", "1", deps, 3, 1);
    assert "3-1" == "3" + ['-'] + "1";
  }

  /** "1-2" is the range of the first two entries. */
  lemma RangeOneTwo(deps: seq<Dependency>, selected: seq<Dependency>)
    requires |deps| >= 2
    ensures Clause("1-2", deps, selected) == Ok(selected + deps[..2])
  {
    AtoiDigit('1');
    AtoiDigit('2');
    assert "1" == ['1'] && "2" == ['2'];
    RangeOfNumbers("1", "2", deps, 1, 2);
    assert "1-2" == "1" + ['-'] + "2";
    assert "1-2"[1] == '-';
  }

  /** The clause "1" on an empty selection, then "1-2" after it. */
  lemma OneThenOneTwo(deps: seq<Dependency>)
    requires |deps| >= 2
    ensures Clause("1", deps, []) == Ok([deps[0]])
    ensures Clause("1-2", deps, [deps[0]]) == Ok([deps[0], deps[0], deps[1]])
  {
    AtoiDigit('1');
    assert "1" == ['1'];
    assert !HasPath([], deps[0].path);
    IndexClause("1", deps, [], 1);
    RangeOneTwo(deps, [deps[0]]);
    assert [] + [deps[0]] == [deps[0]];
    assert [deps[0]] + deps[..2] == [deps[0], deps[0], deps[1]];
  }

  /** The clause "1-2" on an empty selection, then "1" after it. */
  lemma OneTwoThenOne(deps: seq<Dependency>)
    requires |deps| >= 2
    ensures Clause("1-2", deps, []) == Ok(deps[..2])
    ensures Clause("1", deps, deps[..2]) == Ok(deps[..2])
  {
    AtoiDigit('1');
    assert "1" == ['1'];
    assert HasPath(deps[..2], deps[0].path) by {
      assert deps[..2][0] == deps[0];
    }
    IndexClause("1", deps, deps[..2], 1);
    RangeOneTwo(deps, []);
    assert [] + deps[..2] == deps[..2];
  }

  /** Range output is appended as it is, so "1,1-2" repeats an entry while "1-2,1" does not. */
  lemma RangeSkipsDuplicateCheck(deps: seq<Dependency>)
    requires |deps| >= 2
    ensures Parse("1,1-2", deps) == Ok([deps[0], deps[0], deps[1]])
    ensures Parse("1-2,1", deps) == Ok(deps[..2])
  {
    IndexThenRange(deps);
    RangeThenIndex(deps);
  }

  lemma IndexThenRange(deps: seq<Dependency>)
    requires |deps| >= 2
    ensures Parse("1,1-2", deps) == Ok([deps[0], deps[0], deps[1]])
  {
    OneThenOneTwo(deps);
    var a, b := "1", "1-2";
    assert a == ['1'] && b == ['1', '-', '2'];
    assert a != [] && b != [] && Trimmed(a) && Trimmed(b) && ',' !in a && ',' !in b;
    assert forall k :: 0 <= k < |a| ==> !('A' <= a[k] <= 'Z');
    assert forall k :: 0 <= k < |b| ==> !('A' <= b[k] <= 'Z');
    assert "1,1-2" == a + [','] + b;
    TwoClauses(a, b, deps);
  }

  lemma RangeThenIndex(deps: seq<Dependency>)
    requires |deps| >= 2
    ensures Parse("1-2,1", deps) == Ok(deps[..2])
  {
    OneTwoThenOne(deps);
    var a, b := "1-2", "1";
    assert a == ['1', '-', '2'] && b == ['1'];
    assert a != [] && b != [] && Trimmed(a) && Trimmed(b) && ',' !in a && ',' !in b;
    assert forall k :: 0 <= k < |a| ==> !('A' <= a[k] <= 'Z');
    assert forall k :: 0 <= k < |b| ==> !('A' <= b[k] <= 'Z');
    assert "1-2,1" == a + [','] + b;
    TwoClauses(a, b, deps);
  }

  /** A letter, digit or punctuation mark that none of the parsing steps treats specially. */
  predicate PlainChar(c: char) {
    !IsSpace(c) && c != ',' && c != '-' && !('A' <= c <= 'Z')
  }

  /** The characters of a + "-" + b, for plain a and b. */
  lemma HyphenatedShape(a: string, b: string)
    requires a != []
    requires forall k :: 0 <= k < |a| ==> PlainChar(a[k])
    requires forall k :: 0 <= k < |b| ==> PlainChar(b[k])
    ensures var input := a + ['-'] + b;
      && Trimmed(input) && ',' !in input && '-' in input && input != "all"
      && (forall k :: 0 <= k < |input| ==> !('A' <= input[k] <= 'Z'))
  {
    var input := a + ['-'] + b;
    forall k | 0 <= k < |input| ensures input[k] == '-' || PlainChar(input[k]) {
      if k < |a| {
        assert input[k] == a[k];
      } else if k > |a| {
        assert input[k] == b[k - |a| - 1];
      }
    }
    assert input[0] == a[0];
    assert input[|a|] == '-';
  }

  /** A range clause whose start is not a number. */
  lemma RangeWithWordStart(a: string, b: string, deps: seq<Dependency>)
    requires a != [] && !IsDigit(a[0]) && a[0] != '+'
    requires forall k :: 0 <= k < |a| ==> PlainChar(a[k])
    requires forall k :: 0 <= k < |b| ==> PlainChar(b[k])
    ensures RangeOf(a + ['-'] + b, deps) == Err(InvalidRangeStart(a))
  {
    SplitAtSeparator(a, b, '-');
    assert '-' !in b;
    SplitWithoutSeparator(b, '-');
    assert Split(a + ['-'] + b, '-') == [a, b];
    assert Trimmed(a) by {
      assert !IsSpace(a[|a| - 1]);
    }
    TrimSpaceOfTrimmed(a);
    AtoiRejectsWord(a);
  }

  /**
   * A module name with one hyphen is always read as a range, and rejected
   * unless the part before the hyphen is a number: "go-spew" selects nothing.
   */
  lemma HyphenatedNameRejected(a: string, b: string, deps: seq<Dependency>)
    requires a != [] && !IsDigit(a[0]) && a[0] != '+'
    requires forall k :: 0 <= k < |a| ==> PlainChar(a[k])
    requires forall k :: 0 <= k < |b| ==> PlainChar(b[k])
    ensures Parse(a + ['-'] + b, deps) == Err(InvalidRangeStart(a))
  {
    HyphenatedShape(a, b);
    SingleClause(a + ['-'] + b, deps);
    RangeWithWordStart(a, b, deps);
  }

  /** Indices are 1-based, bounded by the list, and may carry a leading '+'. */
  lemma IndexClauses()
    ensures Parse("2", [Dep("a"), Dep("b"), Dep("c")]) == Ok([Dep("b")])
    ensures Parse("+2", [Dep("a"), Dep("b"), Dep("c")]) == Ok([Dep("b")])
    ensures Parse("5", [Dep("a"), Dep("b"), Dep("c")]) == Err(IndexOutOfRange(5, 3))
    ensures Parse("0", [Dep("a"), Dep("b"), Dep("c")]) == Err(IndexOutOfRange(0, 3))
  {
    var deps := [Dep("a"), Dep("b"), Dep("c")];
    assert !HasPath([], "b");
    assert [] + [deps[1]] == [Dep("b")];
    IndexClauseOf("2", '2', deps);
    IndexClauseOf("+2", '2', deps);
    IndexClauseOf("5", '5', deps);
    IndexClauseOf("0", '0', deps);
  }

  lemma IndexClauseOf(part: string, c: char, deps: seq<Dependency>)
    requires IsDigit(c) && (part == [c] || part == ['+', c])
    ensures Parse(part, deps) == Clause(part, deps, [])
    ensures Atoi(part) == Some(c as int - '0' as int)
  {
    SingleClause(part, deps);
    AtoiDigit(c);
  }

  /** The empty pattern appends every entry whose path is not yet selected. */
  lemma {:induction false} EmptyPatternAddsTheRest(deps: seq<Dependency>, k: nat)
    requires UniquePaths(deps) && 1 <= k <= |deps|
    ensures AddMatches("", deps[k..], deps[..k]) == deps
    decreases |deps| - k
  {
    if k == |deps| {
      assert deps[..k] == deps;
    } else {
      var d := deps[k];
      assert deps[k..][0] == d && deps[k..][1..] == deps[k + 1..];
      StarsMatchEverything(ToLower(d.path), "");
      assert !HasPath(deps[..k], d.path) by {
        forall i | 0 <= i < k ensures deps[..k][i].path != d.path {
          assert deps[..k][i] == deps[i];
        }
      }
      assert deps[..k] + [d] == deps[..k + 1];
      EmptyPatternAddsTheRest(deps, k + 1);
    }
  }

  /**
   * The empty clause after a trailing comma is the pattern "", which every
   * path contains: "1," selects the whole list, and fails when there is
   * nothing left to add.
   */
  lemma TrailingCommaSelectsTheRest(deps: seq<Dependency>)
    requires |deps| >= 1 && UniquePaths(deps)
    ensures |deps| == 1 ==> Parse("1,", deps) == Err(NoPatternMatch(""))
    ensures |deps| > 1 ==> Parse("1,", deps) == Ok(deps)
  {
    var d := deps[0];
    TrimSpaceOfTrimmed("1,");
    ToLowerOfLower("1,");
    assert "1," == "1" + [','] + "";
    SplitAtSeparator("1", "", ',');
    assert Split("1,", ',') == ["1", ""];
    assert "1," != "all";
    TrimSpaceOfTrimmed("1");
    assert ["1", ""][1..] == [""];
    AtoiDigit('1');
    assert "1" == ['1'];
    assert !HasPath([], d.path);
    IndexClause("1", deps, [], 1);
    assert [] + [d] == [d];
    LastClause("", deps, [d]);
    assert Parse("1,", deps) == Clause("", deps, [d]);

    assert HasPath([d], d.path) by {
      assert [d][0] == d;
    }
    assert deps[..1] == [d];
    assert AddMatches("", deps, [d]) == AddMatches("", deps[1..], deps[..1]);
    EmptyPatternAddsTheRest(deps, 1);
  }

  // ---------------------------------------------------------------------------
  // Select

  /** The prompt / parse / confirm loop, reading lines and confirmation answers in order. */
  function SelectLoop(deps: seq<Dependency>, inputs: seq<ReadResult>, answers: seq<bool>): SelectionResult
    decreases |inputs|
  {
    if inputs == [] then Failed("reading input: " + EndOfInput)
    else match inputs[0]
      case ReadError(reason) => Failed("reading input: " + reason)
      case Line(text) =>
        var input := TrimSpace(text);
        if input == "" then Cancelled
        else match Parse(input, deps)
          case Err(_) => SelectLoop(deps, inputs[1..], answers)
          case Ok(selected) =>
            if selected == [] then SelectLoop(deps, inputs[1..], answers)
            else if answers != [] && answers[0] then Selected(selected)
            else SelectLoop(deps, inputs[1..], if answers == [] then [] else answers[1..])
  }

  /** interactiveSelector.Select: an empty list is selected at once, without a prompt. */
  function SelectSpec(deps: seq<Dependency>, inputs: seq<ReadResult>, answers: seq<bool>): SelectionResult {
    if deps == [] then Selected([]) else SelectLoop(deps, inputs, answers)
  }

  /**
   * interactiveSelector.Select with the UI replaced by what it returns: the
   * successive results of ReadInput, and the successive answers of Confirm
   * (an exhausted answer list declines, as Confirm does on a read error).
   */
  method Select(deps: seq<Dependency>, includeIndirect: bool, inputs: seq<ReadResult>, answers: seq<bool>)
    returns (result: SelectionResult)
    ensures result == SelectSpec(deps, inputs, answers)
    ensures deps == [] ==> result == Selected([])
  {
    if |deps| == 0 {
      return Selected([]);
    }
    var i, j := 0, 0;
    while true
      invariant 0 <= i <= |inputs| && 0 <= j <= |answers|
      invariant SelectLoop(deps, inputs, answers) == SelectLoop(deps, inputs[i..], answers[j..])
      decreases |inputs| - i
    {
      if i == |inputs| {
        return Failed("reading input: " + EndOfInput);
      }
      assert inputs[i..][1..] == inputs[i + 1..];
      var read := inputs[i];
      i := i + 1;
      if read.ReadError? {
        return Failed("reading input: " + read.reason);
      }
      var input := TrimSpace(read.text);
      if input == "" {
        return Cancelled;
      }
      var selected := ParseSelection(input, deps);
      if selected.Err? {
        continue;
      }
      if |selected.value| == 0 {
        continue;
      }
      var confirmed := j < |answers| && answers[j];
      if j < |answers| {
        assert answers[j..][1..] == answers[j + 1..];
        j := j + 1;
      }
      if confirmed {
        return Selected(selected.value);
      }
    }
  }

  // ---------------------------------------------------------------------------
  // Properties of Select

  /**
   * Selected is returned only for a line that parsed to that non-empty
   * selection of deps, and only after a confirmation answered yes.
   */
  lemma {:induction false} SelectedOnlyAfterConfirm(deps: seq<Dependency>, inputs: seq<ReadResult>, answers: seq<bool>, s: seq<Dependency>)
    requires SelectLoop(deps, inputs, answers) == Selected(s)
    ensures s != [] && forall x :: x in s ==> x in deps
    ensures exists k :: 0 <= k < |inputs| && inputs[k].Line? && Parse(TrimSpace(inputs[k].text), deps) == Ok(s)
    ensures exists j :: 0 <= j < |answers| && answers[j]
    decreases |inputs|
  {
    var text := inputs[0].text;
    var r := Parse(TrimSpace(text), deps);
    if r.Ok? && r.value != [] && answers != [] && answers[0] {
      ParseFromDeps(TrimSpace(text), deps);
    } else {
      var answers' := if r.Ok? && r.value != [] then (if answers == [] then [] else answers[1..]) else answers;
      SelectedOnlyAfterConfirm(deps, inputs[1..], answers', s);
      var k :| 0 <= k < |inputs[1..]| && inputs[1..][k].Line? && Parse(TrimSpace(inputs[1..][k].text), deps) == Ok(s);
      assert inputs[k + 1] == inputs[1..][k];
      var j :| 0 <= j < |answers'| && answers'[j];
      if answers' != answers {
        assert answers[j + 1] == answers'[j];
      }
    }
  }

  /** Cancelled is returned only for a blank line. */
  lemma {:induction false} CancelledOnlyOnBlank(deps: seq<Dependency>, inputs: seq<ReadResult>, answers: seq<bool>)
    requires SelectLoop(deps, inputs, answers) == Cancelled
    ensures exists k :: 0 <= k < |inputs| && inputs[k].Line? && TrimSpace(inputs[k].text) == ""
    decreases |inputs|
  {
    if !(inputs[0].Line? && TrimSpace(inputs[0].text) == "") {
      var r := Parse(TrimSpace(inputs[0].text), deps);
      var answers' := if r.Ok? && r.value != [] then (if answers == [] then [] else answers[1..]) else answers;
      CancelledOnlyOnBlank(deps, inputs[1..], answers');
      var k :| 0 <= k < |inputs[1..]| && inputs[1..][k].Line? && TrimSpace(inputs[1..][k].text) == "";
      assert inputs[k + 1] == inputs[1..][k];
    }
  }

  /** Failed carries the reader's error: an explicit one, or end of input. */
  lemma {:induction false} FailedOnlyOnReadError(deps: seq<Dependency>, inputs: seq<ReadResult>, answers: seq<bool>, e: string)
    requires SelectLoop(deps, inputs, answers) == Failed(e)
    ensures e == "reading input: " + EndOfInput ||
            exists k :: 0 <= k < |inputs| && inputs[k].ReadError? && e == "reading input: " + inputs[k].reason
    decreases |inputs|
  {
    if inputs != [] && inputs[0].Line? {
      var r := Parse(TrimSpace(inputs[0].text), deps);
      var answers' := if r.Ok? && r.value != [] then (if answers == [] then [] else answers[1..]) else answers;
      FailedOnlyOnReadError(deps, inputs[1..], answers', e);
      if e != "reading input: " + EndOfInput {
        var k :| 0 <= k < |inputs[1..]| && inputs[1..][k].ReadError? && e == "reading input: " + inputs[1..][k].reason;
        assert inputs[k + 1] == inputs[1..][k];
      }
    }
  }

  /** A line that does not parse is reported and followed by a fresh prompt. */
  lemma RetryAfterInvalidLine(deps: seq<Dependency>, text: string, rest: seq<ReadResult>, answers: seq<bool>)
    requires TrimSpace(text) != "" && Parse(TrimSpace(text), deps).Err?
    ensures SelectLoop(deps, [Line(text)] + rest, answers) == SelectLoop(deps, rest, answers)
  {
    assert ([Line(text)] + rest)[1..] == rest;
  }

  /**
   * A valid, non-empty selection whose confirmation is declined is followed by
   * a fresh prompt, and that answer is used up.
   */
  lemma RetryAfterDeclinedSelection(deps: seq<Dependency>, text: string, rest: seq<ReadResult>, answers: seq<bool>, s: seq<Dependency>)
    requires TrimSpace(text) != "" && Parse(TrimSpace(text), deps) == Ok(s) && s != []
    requires answers != [] && !answers[0]
    ensures SelectLoop(deps, [Line(text)] + rest, answers) == SelectLoop(deps, rest, answers[1..])
  {
    assert ([Line(text)] + rest)[1..] == rest;
  }

  /** A valid, non-empty selection that is confirmed ends the loop with that selection. */
  lemma ConfirmedSelectionEndsLoop(deps: seq<Dependency>, text: string, rest: seq<ReadResult>, answers: seq<bool>, s: seq<Dependency>)
    requires TrimSpace(text) != "" && Parse(TrimSpace(text), deps) == Ok(s) && s != []
    requires answers != [] && answers[0]
    ensures SelectLoop(deps, [Line(text)] + rest, answers) == Selected(s)
  {
  }

  /** A selection that parses but is empty is reported and followed by a fresh prompt, with no answer used. */
  lemma RetryAfterEmptySelection(deps: seq<Dependency>, text: string, rest: seq<ReadResult>, answers: seq<bool>)
    requires TrimSpace(text) != "" && Parse(TrimSpace(text), deps) == Ok([])
    ensures SelectLoop(deps, [Line(text)] + rest, answers) == SelectLoop(deps, rest, answers)
  {
    assert ([Line(text)] + rest)[1..] == rest;
  }
}
