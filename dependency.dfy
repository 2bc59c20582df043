/** The dependency record and its textual form (internal/dependency/interface.go). */
module Dependency {

  /**
   * A module dependency. The record declared in interface.go has only Path,
   * Version and Indirect; manager.go also sets NewVersion and HasUpdate, so the
   * model carries all five.
   */
  datatype Dependency = Dependency(
    path: string,       // module path, e.g. "github.com/gin-gonic/gin"
    version: string,    // current version
    newVersion: string, // version an update would bring ("" when unknown)
    indirect: bool,     // pulled in transitively
    hasUpdate: bool     // an update is available
  )

  const IndirectSuffix: string := " (indirect)"

  /** Dependency.String: "path@version", followed by " (indirect)" for an indirect one. */
  function String(d: Dependency): (r: string)
    ensures |r| == |d.path| + 1 + |d.version| + (if d.indirect then |IndirectSuffix| else 0)
    ensures r[..|d.path|] == d.path && r[|d.path|] == '@'
    ensures r[|d.path| + 1..|d.path| + 1 + |d.version|] == d.version
    ensures d.indirect ==> r[|d.path| + 1 + |d.version|..] == IndirectSuffix
  {
    d.path + "@" + d.version + (if d.indirect then IndirectSuffix else "")
  }

  /** Marking a dependency indirect only appends the suffix to its direct form. */
  lemma IndirectOnlyAddsSuffix(d: Dependency)
    ensures String(d.(indirect := true)) == String(d.(indirect := false)) + IndirectSuffix
  {
  }

  /** The textual form of a direct dependency is exactly path@version. */
  lemma DirectForm(d: Dependency)
    requires !d.indirect
    ensures String(d) == d.path + "@" + d.version
  {
  }
}
