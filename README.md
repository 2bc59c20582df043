# goup in Dafny

goup is a command-line tool that updates the dependencies of a Go module. It
asks `go list -u -m -json all` which modules have updates. By default it keeps
only the direct ones. It lets the user pick some of them (by index, by range,
by name pattern, or "all"), optionally asks for confirmation, and then runs
`go get -u <path>` once per dependency, followed by `go mod tidy`.

This project models the decision-making core of that tool in Dafny and proves
properties of the model. Module by module:

- `Config` (internal/config/config.go): the six flags and their two derived
  predicates.
- `Dependency` (internal/dependency/interface.go): the dependency record and
  its `String` form.
- `Manager` (internal/dependency/manager.go):
  - turning go.mod requirements and `go list` records into dependencies;
  - the direct-first, then by-path order of `sortDependencies`;
  - `FilterDependencies`.
- `SliceSort`: the contract of Go's `sort.Slice`, met by an in-place
  insertion sort on an `array`. The comparator must be a strict weak order.
- `Selector` (internal/selector/selector.go):
  - the selection language of `ParseSelection`: "all", indexes, ranges and
    `*` patterns;
  - the interactive `Select` loop, driven by a sequence of input lines and a
    sequence of yes/no answers.
- `Updater` (internal/updater/updater.go): `UpdateDependencies` and
  `RunModTidy`. Each takes a command runner, modelled as a function from a
  command to its error, and returns the trace of commands it issued.
- `App` (internal/app/app.go): `Run` and its helpers. The manager, the
  selector, the console's confirmation and the updater are passed in as
  oracles. `Run` returns an `Outcome` (the error it returns or the message it
  ends with) and the trace of calls made to those collaborators. `Run` is
  proved equal to the specification function `Execute`, and the
  properties of the run are lemmas about `Execute`.
- `Ui` (internal/ui/console.go):
  - the computing parts of the console: `truncateString` and the two column
    widths;
  - a `Console` class whose `input` field holds the unread rest of standard
    input behind its `bufio.Reader`, with `ReadInput` and `Confirm`.
- `Legacy` (main.go): the older single-file tool's filter, its path-only sort
  and its `confirmUpdate`.
- `GoStrings`: models of the Go standard-library functions the core relies on:
  - `strings.TrimSpace`, `ToLower`, `Split`, `Index` and `Contains`;
  - `strconv.Atoi` and `Itoa`;
  - byte-wise string `<`;
  - UTF-8 byte length.

Observations the model makes precise:

- A repeated index is skipped, but a range is appended without the duplicate
  check: "1,1-2" selects the first dependency twice, while "1-2,1" selects it
  once (`Selector.RangeSkipsDuplicateCheck`).
- A hyphen anywhere in a clause makes it a range. A module path such as
  "go-yaml" is therefore rejected as an invalid range, never matched as a
  pattern (`Selector.HyphenatedNameRejected`).
- A trailing comma yields an empty pattern, which matches every path. With
  two dependencies or more, "1," therefore selects every dependency. With
  exactly one, the empty pattern adds nothing, and "1," fails with the
  empty-pattern error (`Selector.TrailingCommaSelectsTheRest`).
- `updateWithProgress` calls the updater once per dependency and then once
  more for the whole list. Every `go get -u` is therefore issued twice
  (`App.UpdateWithProgress`, `App.UpdateStepShape`).
- The legacy sort ignores `Indirect`. Its order is not the direct-first order
  of internal/dependency (`Legacy.LegacyOrderIgnoresIndirect`).
- The record declared in internal/dependency/interface.go:4-8 has only `Path`,
  `Version` and `Indirect`. internal/dependency/manager.go:114-120 and the
  console also use `NewVersion` and `HasUpdate`. The model follows that code
  and carries all five fields.

## Model

| member | source | states |
|---|---|---|
| Config.Config.ShouldIncludeIndirect | internal/config/config.go:14-16 | the model of ShouldIncludeIndirect; its meaning is stated by IncludeIndirectOnlyDependsOnAll |
| Config.Config.IsInteractiveMode | internal/config/config.go:19-21 | the model of IsInteractiveMode; its meaning is stated by InteractiveModeOnlyDependsOnInteractiveFlags |
| Config.IncludeIndirectOnlyDependsOnAll | internal/config/config.go:14-16 | indirect dependencies are included exactly when `--all` is set, whatever the other flags |
| Config.InteractiveModeOnlyDependsOnInteractiveFlags | internal/config/config.go:19-21 | interactive mode holds exactly when `--interactive` or `--selective` is set, whatever the other flags |
| Config.ZeroConfigIsQuiet | internal/config/config.go:4-11 | the zero configuration includes no indirect dependencies, is not interactive, and is neither a dry run, verbose nor colourless |
| Config.AllFlagsOn | internal/config/config.go:14-21 | with every flag set, both derived predicates hold |
| Dependency.String | internal/dependency/interface.go:11-17 | the text is the path, '@', the version, then " (indirect)" exactly for an indirect dependency; its length is the sum of these parts |
| Dependency.IndirectOnlyAddsSuffix | internal/dependency/interface.go:11-17 | the indirect form of a dependency is its direct form followed by " (indirect)" |
| Dependency.DirectForm | internal/dependency/interface.go:11-17 | a direct dependency prints as path@version |
| SliceSort.Swap | internal/dependency/manager.go:131-143 | exchanges two slice elements and leaves every other element and the multiset unchanged |
| SliceSort.SortSlice | internal/dependency/manager.go:131-143 | for a strict weak order `less`, the slice ends sorted by `less` and is a permutation of its old contents (the contract of sort.Slice) |
| SliceSort.SortedTail | internal/dependency/manager.go:131-143 | a suffix of a sorted sequence is sorted |
| SliceSort.MultisetTail | internal/dependency/manager.go:131-143 | two permutations with the same head remain permutations without it |
| SliceSort.SortedHeadsEqual | internal/dependency/manager.go:131-143 | two sorted permutations with distinct keys start with the same element |
| SliceSort.SortedPermutationUnique | internal/dependency/manager.go:131-143 | with distinct keys, a sorted permutation is unique, so an unstable sort's result is still determined |
| Manager.DirectFirstIsStrictWeakOrder | internal/dependency/manager.go:132-142 | the comparator of sortDependencies is a strict weak order, as sort.Slice requires |
| Manager.DirectFirstSortedMeans | internal/dependency/manager.go:125-142 | sorted means every direct dependency precedes every indirect one and each group is in non-descending path order, in both directions |
| Manager.SortedGroupsStrictlyAscend | internal/dependency/manager.go:136-141 | within one group of a sorted slice with distinct paths, paths strictly ascend |
| Manager.SortDependencies | internal/dependency/manager.go:131-143 | sorts the slice in place into direct-first, then path order, as a permutation |
| Manager.SortedCopy | internal/dependency/manager.go:55 | the sorted dependencies are a direct-first permutation of the unsorted ones |
| Manager.SortIsIdempotent | internal/dependency/manager.go:131-143 | sorting a slice that is already sorted, with distinct paths, leaves it unchanged |
| Manager.FromRequires | internal/dependency/manager.go:45-52 | each requirement becomes a dependency with its path, version and indirect flag, in order |
| Manager.GetDependencies | internal/dependency/manager.go:34-58 | a read error gives "reading <path>: …" and a parse error "parsing <path>: …"; otherwise every requirement appears once and the list is sorted direct-first |
| Manager.FilterDependencies | internal/dependency/manager.go:61-73 | with indirect dependencies included, the input is returned unchanged; otherwise the direct ones are returned in input order |
| Manager.DirectOnly | internal/dependency/manager.go:66-72 | the direct-only filter as a function, never longer than its input; its meaning is stated by DirectOnlyMembers, DirectOnlyConcat and DirectOnlyCount |
| Manager.DirectOnlyMembers | internal/dependency/manager.go:66-71 | a dependency is kept exactly when it is in the input and direct |
| Manager.DirectOnlyConcat | internal/dependency/manager.go:66-71 | filtering a concatenation concatenates the filtered parts, so input order is kept |
| Manager.DirectOnlyCount | internal/dependency/manager.go:66-71 | the kept dependencies and the indirect ones add up to the input |
| Manager.DirectOnlyIdempotent | internal/dependency/manager.go:61-73 | filtering twice is filtering once |
| Manager.DirectOnlyKeepsOrder | internal/dependency/manager.go:61-73 | the filter of a direct-first sorted list is sorted |
| Manager.FilterOfEmpty | internal/dependency/manager.go:66-72 | nothing to filter gives nothing |
| Manager.GetUpdatableDependencies | internal/dependency/manager.go:76-129 | a failing `go list` gives "failed to check for updates: …"; otherwise the result is a direct-first sorted permutation of the non-main, versioned records that have an update |
| Manager.UpdatableOf | internal/dependency/manager.go:86-123 | the dependencies extracted from the decoded records, in listing order; its meaning is stated by UpdatableOfMembers and ExtractedHaveUpdates |
| Manager.UpdatableOfMembers | internal/dependency/manager.go:102-122 | a dependency is returned exactly when some record is not the main module, has a version and an update, and maps to it |
| Manager.ExtractedHaveUpdates | internal/dependency/manager.go:113-122 | every returned dependency has HasUpdate set, a non-empty version, and the new version and path of its record |
| GoStrings.TrimLeft | internal/selector/selector.go:94 | the result is no longer than the input and does not start with white space |
| GoStrings.TrimRight | internal/selector/selector.go:94 | the result is no longer than the input and does not end with white space |
| GoStrings.TrimLeftShape | internal/selector/selector.go:94 | the left trim is a suffix of the input, and what it drops is all white space |
| GoStrings.TrimRightShape | internal/selector/selector.go:94 | the right trim is a prefix of the input, and what it drops is all white space |
| GoStrings.TrimSpace | internal/selector/selector.go:94 | the result neither starts nor ends with white space and is no longer than the input |
| GoStrings.TrimSpaceOfTrimmed | internal/selector/selector.go:104 | trimming a trimmed string changes nothing |
| GoStrings.TrimSpaceKeepsCharacters | internal/selector/selector.go:104 | trimming introduces no new character |
| GoStrings.TrimLeftOfPadded | internal/selector/selector.go:94 | blank padding before a word is removed exactly |
| GoStrings.TrimRightOfPadded | internal/selector/selector.go:94 | blank padding after a word is removed exactly |
| GoStrings.TrimSpaceOfPadded | internal/ui/console.go:223 | a word with blank padding on both sides trims to the word |
| GoStrings.TrimLeftOfAllSpace | internal/selector/selector.go:47-48 | an all-blank line trims to the empty string |
| GoStrings.ToLower | internal/selector/selector.go:94 | lower-casing keeps the length and maps each character on its own |
| GoStrings.ToLowerOfLower | internal/selector/selector.go:94 | a string without capitals is its own lower case |
| GoStrings.LowerPreservesSpace | internal/ui/console.go:223 | lower-casing maps white space to white space and nothing else to it |
| GoStrings.TrimLeftToLower | internal/ui/console.go:223 | left trimming and lower-casing commute |
| GoStrings.TrimRightToLower | internal/ui/console.go:223 | right trimming and lower-casing commute |
| GoStrings.TrimSpaceToLower | internal/ui/console.go:223 | trimming and lower-casing commute, so console.go and selector.go apply them in either order to the same effect |
| GoStrings.Split | internal/selector/selector.go:101 | splitting always yields at least one piece |
| GoStrings.SplitJoin | internal/selector/selector.go:101 | joining the pieces with the separator gives back the input |
| GoStrings.SplitPiecesFree | internal/selector/selector.go:101 | no piece contains the separator |
| GoStrings.SplitAtSeparator | internal/selector/selector.go:101 | splitting at a first separator gives the text before it, then the split of the rest |
| GoStrings.SplitOfSeparators | internal/selector/selector.go:187 | a string of separators alone splits into empty pieces |
| GoStrings.SplitWithoutSeparator | internal/selector/selector.go:139-141 | a string without the separator is its own single piece |
| GoStrings.OccursShift | internal/selector/selector.go:194 | an occurrence in the tail is an occurrence one further along in the whole |
| GoStrings.IndexOf | internal/selector/selector.go:194 | the index is -1 or leaves room for the substring |
| GoStrings.IndexOfMeaning | internal/selector/selector.go:194-197 | a non-negative index is the leftmost occurrence, and -1 means there is none |
| GoStrings.ContainsIff | internal/selector/selector.go:107 | contains holds exactly when the substring occurs somewhere |
| GoStrings.Atoi | internal/selector/selector.go:117 | a parsed number comes from a non-empty string and lies in the int64 range |
| GoStrings.AtoiSyntax | internal/selector/selector.go:117 | an accepted string is digits with at most a leading sign |
| GoStrings.AtoiDigit | internal/selector/selector.go:117 | a digit, with or without '+', parses to its value |
| GoStrings.AtoiRejectsWord | internal/selector/selector.go:144-147 | a string starting with neither a digit nor a sign is rejected |
| GoStrings.Digits | internal/ui/console.go:267 | decimal digits are non-empty and all digits |
| GoStrings.DigitsValueOfDigits | internal/ui/console.go:267 | the decimal digits of n read back as n |
| GoStrings.AtoiItoa | internal/selector/selector.go:117 | every int64 printed in decimal parses back to itself |
| GoStrings.DigitsLength | internal/ui/console.go:267 | a number between 10^(k-1) and 10^k has k digits |
| GoStrings.LessIrreflexive | internal/dependency/manager.go:141 | no path is less than itself |
| GoStrings.LessAsymmetric | internal/dependency/manager.go:141 | path order is asymmetric |
| GoStrings.LessTransitive | internal/dependency/manager.go:141 | path order is transitive |
| GoStrings.LessTotal | internal/dependency/manager.go:141 | any two distinct paths are ordered one way or the other |
| GoStrings.ByteLenAtLeastRuneCount | internal/ui/console.go:255 | a string's UTF-8 byte length is at least its rune count, and equal exactly for ASCII |
| Selector.ContainsDependency | internal/selector/selector.go:205-212 | true exactly when an element of the slice has the dependency's path |
| Selector.Greedy | internal/selector/selector.go:186-201 | the greedy scan of matchesPattern; GreedyIffEmbedded proves it equal to the reference meaning Embedded |
| Selector.Matches | internal/selector/selector.go:180-202 | matchesPattern as a function; its meaning is stated by MatchesMeaning |
| Selector.EmbeddedInLonger | internal/selector/selector.go:186-201 | pattern pieces found in order in a suffix are found in order in the whole path |
| Selector.EmbeddedEmptyHead | internal/selector/selector.go:191-193 | an empty pattern piece imposes nothing |
| Selector.EmbeddedLeftmostHead | internal/selector/selector.go:194-198 | taking the leftmost occurrence of the first piece loses no match, so the greedy search is complete |
| Selector.GreedyIffEmbedded | internal/selector/selector.go:186-201 | the greedy scan succeeds exactly when the pieces occur in the path in order without overlapping |
| Selector.MatchesMeaning | internal/selector/selector.go:180-202 | without '*' a pattern matches when it is a substring; with '*' it matches when its pieces occur in order without overlapping |
| Selector.GreedyOfEmptyParts | internal/selector/selector.go:190-193 | pieces that are all empty always match |
| Selector.StarsMatchEverything | internal/selector/selector.go:180-202 | a pattern of stars alone, or the empty pattern, matches every path |
| Selector.MatchesPattern | internal/selector/selector.go:180-202 | the method's answer is the matching relation above |
| Selector.MatchPattern | internal/selector/selector.go:166-177 | appends each matching dependency whose path is not yet selected, in order, and reports a match exactly when something was appended |
| Selector.AddMatchesGrows | internal/selector/selector.go:166-177 | pattern matching only appends: the old selection is a prefix of the new |
| Selector.AddMatchesAddsIff | internal/selector/selector.go:166-177 | something is added exactly when some dependency's lower-cased path matches and its path is not yet selected |
| Selector.AddMatchesFromDeps | internal/selector/selector.go:166-177 | pattern matching adds only dependencies from the list |
| Selector.AddMatchesKeepsUnique | internal/selector/selector.go:170-173 | pattern matching never adds a second dependency with a path already selected |
| Selector.RangeOf | internal/selector/selector.go:138-164 | a valid range selects at least one and at most all of the dependencies |
| Selector.ParseRange | internal/selector/selector.go:138-164 | the method returns the range's result: the error for more than one hyphen, for a non-numeric start or end, or for bounds outside 1..n or reversed, and otherwise the slice start..end |
| Selector.CopyRange | internal/selector/selector.go:158-161 | copies exactly deps[start-1 .. end-1], end-start+1 elements |
| Selector.Clause | internal/selector/selector.go:104-132 | one trimmed clause: a range, an index or a pattern; its cases are stated by RangeClause, IndexClause, PatternClause and ClauseExtends |
| Selector.Clauses | internal/selector/selector.go:101-135 | the clauses left to right, stopping at the first error; stated by ClausesStep, ClausesFromDeps, ClausesNonEmpty and ClausesUnique |
| Selector.Parse | internal/selector/selector.go:93-136 | ParseSelection as a function; stated by AllKeyword, ParseFromDeps, ParseNonEmpty and ParseWithoutRangesIsUnique |
| Selector.ParseSelection | internal/selector/selector.go:93-136 | "all" in any case and padding selects every dependency, in order; any selection holds only dependencies from the list |
| Selector.ApplyClause | internal/selector/selector.go:104-132 | the method applies one clause: a range, an index or a pattern, with its error |
| Selector.ClausesStep | internal/selector/selector.go:103-133 | clauses apply left to right, and the first error stops the parse |
| Selector.RangeClause | internal/selector/selector.go:107-114 | a clause with a hyphen is a range, appended without the duplicate check |
| Selector.PatternClause | internal/selector/selector.go:128-132 | a clause that is neither a range nor a number is a pattern, and fails with "no dependencies match pattern" when it adds nothing |
| Selector.ClauseExtends | internal/selector/selector.go:104-132 | a successful clause only appends to the selection |
| Selector.ClauseNonEmpty | internal/selector/selector.go:104-132 | after a successful clause the selection is non-empty |
| Selector.ClausesFromDeps | internal/selector/selector.go:103-133 | every selected element comes from the dependency list |
| Selector.ParseFromDeps | internal/selector/selector.go:93-136 | a successful parse selects only dependencies from the list |
| Selector.ClausesNonEmpty | internal/selector/selector.go:103-133 | a successful run of at least one clause selects something |
| Selector.ParseNonEmpty | internal/selector/selector.go:93-136 | over a non-empty list a successful parse is never empty, so the "No dependencies matched" branch of Select cannot be taken |
| Selector.ClausesUnique | internal/selector/selector.go:117-132 | without ranges, clauses never select two dependencies with the same path |
| Selector.ParseWithoutRangesIsUnique | internal/selector/selector.go:93-136 | an input without a hyphen selects each path at most once |
| Selector.PieceOfSplit | internal/selector/selector.go:101 | each clause uses only characters of the input |
| Selector.JoinContainsPieces | internal/selector/selector.go:101 | each piece's characters occur in the joined string |
| Selector.AllKeyword | internal/selector/selector.go:94-98 | "all" in any mix of cases, with any blanks around it, selects every dependency in order |
| Selector.LastClause | internal/selector/selector.go:103-135 | a one-piece list is its clause |
| Selector.TwoClausesInput | internal/selector/selector.go:94-101 | "a,b" without capitals or padding survives trimming and lower-casing, is not "all", and splits into a and b |
| Selector.SingleClause | internal/selector/selector.go:93-136 | an input without a comma, capitals or padding is one clause applied to the empty selection |
| Selector.TwoClauses | internal/selector/selector.go:101-135 | "a,b" applies b to the result of a, or fails with a's error |
| Selector.IndexClause | internal/selector/selector.go:117-126 | an index outside 1..n fails with "out of range"; a valid one appends its dependency unless its path is already selected |
| Selector.RangeOfNumbers | internal/selector/selector.go:138-164 | "m-n" with 1 ≤ m ≤ n ≤ len selects deps[m-1 .. n-1] |
| Selector.RangeOutOfBoundsOf | internal/selector/selector.go:154-156 | "m-n" with m < 1, n past the list or m > n fails with the out-of-bounds error naming m, n and the count |
| Selector.RangeEndNotNumberOf | internal/selector/selector.go:149-152 | a numeric start with an end that is not a number fails with the invalid-end error naming the end |
| Selector.RangeFormatOf | internal/selector/selector.go:139-142 | a clause with two hyphens or more fails with the invalid-format error naming the clause |
| Selector.ReversedRangeRejected | internal/selector/selector.go:154-156 | over three dependencies "3-1" is out of bounds |
| Selector.RangeOneTwo | internal/selector/selector.go:107-114 | "1-2" appends the first two dependencies |
| Selector.OneThenOneTwo | internal/selector/selector.go:107-126 | after "1", the range "1-2" appends the first dependency again |
| Selector.OneTwoThenOne | internal/selector/selector.go:107-126 | after "1-2", the index "1" adds nothing |
| Selector.RangeSkipsDuplicateCheck | internal/selector/selector.go:107-126 | "1,1-2" selects the first dependency twice, "1-2,1" only once |
| Selector.IndexThenRange | internal/selector/selector.go:101-136 | the parse of "1,1-2" holds a duplicate |
| Selector.RangeThenIndex | internal/selector/selector.go:101-136 | the parse of "1-2,1" holds none |
| Selector.HyphenatedShape | internal/selector/selector.go:94-107 | a lower-case word with a hyphen reaches the range branch unchanged |
| Selector.RangeWithWordStart | internal/selector/selector.go:144-147 | a range whose start is a word fails with "invalid start number" |
| Selector.HyphenatedNameRejected | internal/selector/selector.go:107-114 | a hyphenated package name is rejected as a range, never matched as a pattern |
| Selector.IndexClauses | internal/selector/selector.go:117-126 | over three dependencies "2" and "+2" select the second, while "5" and "0" are out of range |
| Selector.IndexClauseOf | internal/selector/selector.go:117 | a single digit, with or without '+', is an index clause of its value |
| Selector.EmptyPatternAddsTheRest | internal/selector/selector.go:166-177 | the empty pattern appends every dependency not yet selected |
| Selector.TrailingCommaSelectsTheRest | internal/selector/selector.go:101-132 | "1," selects every dependency when there are at least two, and fails with an empty-pattern error when there is one |
| Selector.SelectLoop | internal/selector/selector.go:41-72 | the prompt, parse and confirm loop over the input lines and answers; stated by SelectedOnlyAfterConfirm, CancelledOnlyOnBlank, FailedOnlyOnReadError and the retry lemmas |
| Selector.Select | internal/selector/selector.go:26-73 | an empty list is selected at once; otherwise the loop follows the input lines and answers, as the selection loop does |
| Selector.SelectedOnlyAfterConfirm | internal/selector/selector.go:41-69 | a selection is returned only when it is non-empty, from the list, the parse of some input line, and confirmed by some yes |
| Selector.CancelledOnlyOnBlank | internal/selector/selector.go:47-50 | cancelling happens only on a blank line |
| Selector.FailedOnlyOnReadError | internal/selector/selector.go:42-45 | a failure is "reading input: " followed by a read error: end of input or one of the reader's errors |
| Selector.RetryAfterInvalidLine | internal/selector/selector.go:52-56 | an invalid selection is reported and the loop reads the next line as if the bad one had not been typed |
| Selector.RetryAfterEmptySelection | internal/selector/selector.go:58-61 | a selection that parses to nothing is reported and the next line is read, with no answer used |
| Selector.RetryAfterDeclinedSelection | internal/selector/selector.go:63-71 | a valid selection whose confirmation is declined uses up that answer and prompts again |
| Selector.ConfirmedSelectionEndsLoop | internal/selector/selector.go:63-69 | a valid selection that is confirmed is returned |
| Updater.GetCommands | internal/updater/updater.go:37-40 | one `go get -u <path>` per dependency, in order |
| Updater.UpdateDependencies | internal/updater/updater.go:31-53 | issues those commands in order; Updated holds the dependencies whose command succeeded and Failed those that failed, with the runner's error; success holds exactly when nothing failed |
| Updater.RunModTidy | internal/updater/updater.go:56-58 | issues `go mod tidy` once and returns its error unchanged |
| Updater.PartitionCount | internal/updater/updater.go:37-49 | each dependency lands in exactly one of Updated and Failed |
| Updater.UpdatedMembers | internal/updater/updater.go:46-48 | a dependency is in Updated exactly when it was given and its command succeeded |
| Updater.FailedMembers | internal/updater/updater.go:41-45 | an entry is in Failed exactly when its dependency was given and its command failed with that error |
| Updater.ResultsFollowInputOrder | internal/updater/updater.go:37-49 | Updated and Failed follow input order: the result for a concatenation concatenates |
| Updater.SuccessIffAllCommandsSucceed | internal/updater/updater.go:51 | success holds exactly when every command succeeded, and then every dependency is in Updated |
| Updater.EmptyUpdate | internal/updater/updater.go:31-53 | no dependencies: no command, nothing updated, nothing failed |
| Updater.SingleUpdate | internal/updater/updater.go:31-53 | one dependency is in Updated or in Failed, according to its command |
| App.ErrorOf | internal/app/app.go:60-169 | Run returns an error exactly for a failed check, a failed selection or a failed tidy, each wrapped in its own prefix |
| App.SelectDependencies | internal/app/app.go:118-142 | not selective: all of them; selective: the selector's error, nothing when cancelled, or its selection |
| App.DryRunListing | internal/app/app.go:144-150 | a dry run lists the dependencies exactly in selective mode |
| App.ProgressCalls | internal/app/app.go:175-189 | one updater call per dependency, then one for all of them |
| App.SingleSuccesses | internal/app/app.go:176-185 | the dependencies that get a "✓ Updated" line: exactly those whose single-element update succeeded, in order |
| App.UpdateWithProgress | internal/app/app.go:175-189 | makes those calls and returns the final call's result, beside the dependencies whose single update succeeded |
| App.RunModTidy | internal/app/app.go:191-201 | one tidy call, whose error is returned |
| App.PerformUpdate | internal/app/app.go:152-173 | progress calls then tidy; one failure line per failed dependency; the outcome is updated or tidy-failed according to tidy's result |
| App.Execute | internal/app/app.go:40-116 | Run's stages with every early return, as a specification function; stated by the lemmas below |
| App.Run | internal/app/app.go:40-116 | the outcome and call trace are those of the specification Execute |
| App.ConfirmCallsDoNotUpdate | internal/app/app.go:71-112 | before the update step no updater call is made; the selector is asked exactly in selective mode, and confirmation exactly when asked for |
| App.UpdateStepCalls | internal/app/app.go:152-173 | every call of the update step goes to the updater, and tidy is the last |
| App.CheckFailureStopsRun | internal/app/app.go:60-63 | a failing check stops the run after one call, with the wrapped error |
| App.NothingToUpdateStopsRun | internal/app/app.go:65-83 | nothing to update ends without error and without selecting; the direct-only message appears exactly without --all and with some updates, and counts them as indirect |
| App.FilterFollowsAllFlag | internal/app/app.go:71 | the filter is asked with includeIndirect set to --all |
| App.SelectionOutcomes | internal/app/app.go:87-97 | a selector error is wrapped and returned, cancelling ends without error, and neither updates anything |
| App.DryRunUpdatesNothing | internal/app/app.go:100-104 | a dry run ends without error and without confirmation or updater calls; it lists the selection exactly in selective mode |
| App.ConfirmationRule | internal/app/app.go:106-112 | confirmation is asked only with --interactive, without --selective and outside a dry run; the run is declined exactly when it is refused, and then nothing is updated |
| App.EarlyStopMakesNoUpdaterCall | internal/app/app.go:60-112 | a run that stops before the update step makes no updater call |
| App.UpdateStepShape | internal/app/app.go:115-173 | a run that reaches the update step ends with the progress calls and tidy on the selected dependencies; its result is the final update, and it fails exactly when tidy fails |
| App.UpdaterOnlyInUpdateStep | internal/app/app.go:40-173 | the updater is called exactly in runs that end updated or tidy-failed |
| App.DirectUpToDateCountsIndirect | internal/app/app.go:72-80 | with the manager's filter, "all direct up to date" means every updatable dependency is indirect, and the count shown is theirs |
| App.ProgressAgreesWithResult | internal/app/app.go:175-189 | with the Go updater, the single-dependency successes are exactly the final result's Updated, and Updated plus Failed cover the list |
| Ui.TruncateString | internal/ui/console.go:469-482 | a string within the width is kept; a longer one becomes max(width,1) runes: its prefix then "…" |
| Ui.TruncateIsIdempotent | internal/ui/console.go:469-482 | truncating twice is truncating once |
| Ui.PathWithinColumnIsKept | internal/ui/console.go:252-264 | a path whose byte length fits the column is never truncated in its cell |
| Ui.CalculateMaxPathWidth | internal/ui/console.go:252-264 | the width lies in 20..50, covers every path's byte length up to 50, and above 20 is some path's length or 50 |
| Ui.CalculateIndexWidth | internal/ui/console.go:266-269 | the width of "total/total" is twice the digit count plus one |
| Ui.IndexWidthOfDigits | internal/ui/console.go:266-269 | a total with k digits needs 2k + 1 columns |
| Ui.LineLength | internal/ui/console.go:201 | ReadString consumes no more than the input |
| Ui.LineLengthMeaning | internal/ui/console.go:201 | ReadString stops just after the first newline, or reads to the end when there is none |
| Ui.LineLengthOfLine | internal/ui/console.go:201 | a line followed by a newline is consumed through that newline |
| Ui.Console.constructor | internal/ui/console.go:85-91 | the console takes noColor and verbose from the configuration and reads from standard input |
| Ui.Console.ReadString | internal/ui/console.go:201 | returns the data through the first newline, or all of it with EOF, and leaves the rest unread |
| Ui.Console.ReadInput | internal/ui/console.go:193-206 | a whole line is returned trimmed; at end of input "" is returned with EOF |
| Ui.Console.Confirm | internal/ui/console.go:208-225 | yes exactly when a whole line was read and it is "y" or "yes" in any case and padding |
| Ui.PaddedYesIsAccepted | internal/ui/console.go:223-224 | "y" or "yes" in any case with any blank padding is accepted |
| Ui.AcceptedIsYes | internal/ui/console.go:223-224 | anything accepted trims to a y or yes in some mix of cases |
| Ui.RefusalsAreRejected | internal/ui/console.go:223-224 | a blank line, "n" and "no" are refused |
| Legacy.Kept | main.go:139-147 | the filter never lengthens the list |
| Legacy.FilterDependencies | main.go:139-147 | keeps each dependency that is direct or when indirect ones are included, in order |
| Legacy.KeptWithIndirectIsAll | main.go:139-147 | including indirect dependencies keeps all of them |
| Legacy.KeptDirectMembers | main.go:139-147 | otherwise exactly the direct ones are kept |
| Legacy.KeptAgreesWithManager | main.go:139-147 | the legacy filter agrees with internal/dependency's FilterDependencies |
| Legacy.PathLessIsStrictWeakOrder | main.go:132-134 | the path comparator is a strict weak order |
| Legacy.FromRequires | main.go:122-129 | each requirement becomes a legacy record, in order |
| Legacy.GetDependencies | main.go:111-137 | a read error gives "reading go.mod: …" and a parse error "parsing go.mod: …"; otherwise every requirement appears once, sorted by path |
| Legacy.LegacyOrderIgnoresIndirect | main.go:132-134 | an indirect "a" before a direct "b" is in legacy order but out of the direct-first order |
| Legacy.ConfirmUpdate | main.go:181-191 | acceptance needs a whole first line |
| Legacy.ConfirmUpdateAcceptsYes | main.go:181-191 | a first line of "y" or "yes" in any case, with blanks before it, confirms whatever follows |
| Legacy.ConfirmUpdateRefusesAtEndOfInput | main.go:184-187 | input without a newline is a read error and refuses |

## Left out

- Process and file I/O are outside the model. Reading go.mod, parsing it with
  modfile, running `go list`, decoding its JSON stream and `exec` of `go`
  become parameters. They are a requirement list, a list of module records
  (or the error of each step), and a runner function.
- The `go list` stream is assumed well formed. The model receives the
  sequence of decoded records. A well-formed JSON value that does not fit the
  record struct is skipped by the `continue` of manager.go. On malformed
  JSON, such as a stderr warning mixed into the combined output, the decoder
  keeps its error and does not advance. `More` still reports more input, so
  the loop never ends. That non-termination is not modelled.
- The runner is a function from a command to its error. A stateful runner,
  whose answer for the same command could change between calls, is not
  captured. `App.ProgressAgreesWithResult` relies on that.
- `systemCommandRunner`'s wrapping of command output in its error, and the
  verbose switch of stdout and stderr, are not modelled. The verbose flag is
  recorded in each command.
- Console drawing is not modelled: the header, colours, tables,
  `PrintDependencies`, `PrintUpdateResult`, progress lines,
  `showSelectionHelp`, and the info, debug, warning, error and success
  messages. `App.Run` records only the calls to the manager, the selector,
  the confirmation and the updater. Its messages appear only as the
  `Outcome` they end with. `App.PerformUpdate` returns the failure lines it
  would print.
- `Selector.Select` takes the input lines and the confirmation answers as
  two sequences. More lines than given is a read error "EOF". More answers
  than given is a refusal, which is what `Confirm` answers at end of input.
- `Ui.Console.ReadString` models only end of input as a read error. Other
  reader errors are not modelled, but `Selector.Select` accepts any reader
  error in its input sequence.
- GoStrings.ToLower lower-cases ASCII letters only. Go's Unicode case
  mapping of other letters is not modelled.
- Strings are sequences of Unicode scalar values, so invalid UTF-8 cannot
  be expressed. Go's byte-wise `<` is modelled as code-point order, which
  is the same order on valid UTF-8.
- SliceSort.SortSlice is an insertion sort, not Go's pattern-defeating
  quicksort. Only the contract of `sort.Slice` is modelled: sorted and a
  permutation. The order among elements with equal keys is unspecified.
- Legacy.ConfirmUpdate reads a fresh `bufio.Reader` on standard input. Any
  input that reader buffered beyond the first line is not carried to later
  reads. The model looks only at the input the prompt sees.
- main.go's `updateDependencies`, `runModTidy`, `printDependencies`,
  `printHeader` and flag handling are not modelled. Neither is its `main`.
  They are printing and `exec` around the parts modelled above. The newer
  internal/updater and internal/app versions of them are modelled.
- cmd/goup/main.go, the internal interfaces' mock implementations and the
  `go` test files are not part of this model. The tests were read for the
  behaviour they expect.
- `NewManager` and `NewManagerWithPath` only fix the go.mod path. It is a
  parameter of `Manager.GetDependencies`.
