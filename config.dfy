/** The command-line configuration and its two derived predicates (internal/config/config.go). */
module Config {

  /** The six flags; the zero value Config(false, ..., false) is Go's `config.Config{}`. */
  datatype Config = Config(
    dryRun: bool,      // show what would be updated without changing anything
    interactive: bool, // ask for confirmation before updating
    verbose: bool,     // show command output
    noColor: bool,     // plain console output
    all: bool,         // include indirect dependencies
    selective: bool    // choose the dependencies interactively
  ) {

    /** Indirect dependencies are considered exactly when --all is given. */
    predicate ShouldIncludeIndirect() {
      all
    }

    /** Either interactive flag puts the tool in interactive mode. */
    predicate IsInteractiveMode() {
      interactive || selective
    }
  }

  const ZeroConfig := Config(false, false, false, false, false, false)

  /** Only --all decides ShouldIncludeIndirect; the other five flags are irrelevant to it. */
  lemma IncludeIndirectOnlyDependsOnAll(c: Config, c': Config)
    requires c.all == c'.all
    ensures c.ShouldIncludeIndirect() == c'.ShouldIncludeIndirect()
    ensures c.ShouldIncludeIndirect() <==> c.all
  {
  }

  /** Only Interactive and Selective decide IsInteractiveMode; DryRun, Verbose, NoColor and All do not. */
  lemma InteractiveModeOnlyDependsOnInteractiveFlags(c: Config, c': Config)
    requires c.interactive == c'.interactive && c.selective == c'.selective
    ensures c.IsInteractiveMode() == c'.IsInteractiveMode()
    ensures c.IsInteractiveMode() <==> c.interactive || c.selective
  {
  }

  /** The zero configuration has every flag off, so both predicates are false. */
  lemma ZeroConfigIsQuiet()
    ensures !ZeroConfig.ShouldIncludeIndirect() && !ZeroConfig.IsInteractiveMode()
    ensures !ZeroConfig.dryRun && !ZeroConfig.verbose && !ZeroConfig.noColor
  {
  }

  /** With every flag on both predicates hold. */
  lemma AllFlagsOn()
    ensures Config(true, true, true, true, true, true).ShouldIncludeIndirect()
    ensures Config(true, true, true, true, true, true).IsInteractiveMode()
  {
  }
}
