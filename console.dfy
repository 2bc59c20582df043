/**
 * The parts of the console (internal/ui/console.go) that compute rather than
 * draw: truncating table cells, the two column widths, and reading a line or a
 * yes/no answer from standard input through a bufio.Reader.
 */
module Ui {
  import opened Wrappers
  import opened GoStrings
  import opened D = Dependency
  import opened Config

  /** "…", one rune (three bytes in UTF-8). */
  const Ellipsis: string := "\U{2026}"

  function Max(a: int, b: int): int { if a >= b then a else b }
  function Min(a: int, b: int): int { if a <= b then a else b }

  // ---------------------------------------------------------------------------
  // truncateString
  // ---------------------------------------------------------------------------

  /**
   * truncateString: a string of at most maxWidth runes is kept; a longer one
   * is cut to maxWidth - 1 runes followed by the ellipsis, or is the ellipsis
   * alone when maxWidth is at most 1. Dafny's char is a Unicode scalar value,
   * i.e. a rune, so rune counts are sequence lengths.
   */
  function TruncateString(s: string, maxWidth: int): (r: string)
    ensures |s| <= maxWidth ==> r == s
    ensures |s| > maxWidth ==> |r| == Max(maxWidth, 1)
    ensures |s| > maxWidth ==> r[|r| - 1] == Ellipsis[0] && r[..|r| - 1] == s[..|r| - 1]
  {
    if |s| <= maxWidth then s
    else if maxWidth <= 1 then Ellipsis
    else if |s| > maxWidth - 1 then s[..maxWidth - 1] + Ellipsis
    else assert false; s                                  // |s| > maxWidth already
  }

  /** A truncated string fits its width, so truncating it again changes nothing. */
  lemma TruncateIsIdempotent(s: string, maxWidth: int)
    ensures TruncateString(TruncateString(s, maxWidth), maxWidth) == TruncateString(s, maxWidth)
  {
    var r := TruncateString(s, maxWidth);
    if |s| > maxWidth && maxWidth < 1 {
      assert r == Ellipsis;
    }
  }

  /**
   * The path column is sized in bytes and cells are cut in runes: a path whose
   * byte length is within the column width is never truncated.
   */
  lemma PathWithinColumnIsKept(path: string, width: int)
    requires ByteLen(path) <= width
    ensures TruncateString(path, width) == path
  {
    ByteLenAtLeastRuneCount(path);
  }

  // ---------------------------------------------------------------------------
  // calculateMaxPathWidth, calculateIndexWidth
  // ---------------------------------------------------------------------------

  const MinPathWidth := 20
  const MaxPathWidth := 50

  /**
   * calculateMaxPathWidth: the longest path's byte length, but at least 20 and
   * at most 50.
   */
  method CalculateMaxPathWidth(deps: seq<Dependency>) returns (maxWidth: int)
    ensures MinPathWidth <= maxWidth <= MaxPathWidth
    ensures forall d :: d in deps ==> Min(ByteLen(d.path), MaxPathWidth) <= maxWidth
    ensures maxWidth > MinPathWidth ==> exists d :: d in deps && Min(ByteLen(d.path), MaxPathWidth) == maxWidth
  {
    maxWidth := 20;
    for i := 0 to |deps|
      invariant maxWidth >= MinPathWidth
      invariant forall k :: 0 <= k < i ==> ByteLen(deps[k].path) <= maxWidth
      invariant maxWidth > MinPathWidth ==> exists k :: 0 <= k < i && ByteLen(deps[k].path) == maxWidth
    {
      if ByteLen(deps[i].path) > maxWidth {
        maxWidth := ByteLen(deps[i].path);
      }
    }
    ghost var longest := maxWidth;
    if maxWidth > 50 {
      maxWidth := 50;
    }
    if maxWidth > MinPathWidth {
      ghost var k :| 0 <= k < |deps| && ByteLen(deps[k].path) == longest;
      assert deps[k] in deps;
    }
  }

  /**
   * calculateIndexWidth: the length of "total/total". The digits, '-' and '/'
   * are ASCII, so its byte length is its length.
   */
  function CalculateIndexWidth(total: int): (r: int)
    ensures r == 2 * |Itoa(total)| + 1
  {
    |Itoa(total) + "/" + Itoa(total)|
  }

  /** For a count with k decimal digits the index column is 2k + 1 wide. */
  lemma IndexWidthOfDigits(total: nat, k: nat)
    requires k >= 1
    requires (if k == 1 then 0 else Pow10(k - 1)) <= total < Pow10(k)
    ensures CalculateIndexWidth(total) == 2 * k + 1
  {
    DigitsLength(total, k);
  }

  // ---------------------------------------------------------------------------
  // Reading from standard input
  // ---------------------------------------------------------------------------

  /** io.EOF's message. */
  const EOF: string := "EOF"

  /** How much ReadString('\n') consumes: through the first newline, or everything. */
  function LineLength(input: string): (n: nat)
    ensures n <= |input|
  {
    if |input| == 0 then 0
    else if input[0] == '\n' then 1
    else 1 + LineLength(input[1..])
  }

  /** LineLength stops right after the first newline, and runs to the end when there is none. */
  lemma {:induction false} LineLengthMeaning(input: string)
    ensures var n := LineLength(input);
      && ('\n' in input ==> 0 < n && input[n - 1] == '\n' && '\n' !in input[..n - 1])
      && ('\n' !in input ==> n == |input|)
  {
    if |input| > 0 && input[0] != '\n' {
      var rest := input[1..];
      LineLengthMeaning(rest);
      assert input == [input[0]] + rest;
      assert '\n' in input <==> '\n' in rest;
      var n := LineLength(input);
      if '\n' in rest {
        assert input[..n - 1] == [input[0]] + rest[..n - 2];
      }
    }
  }

  /** A line without a newline of its own, then a newline: ReadString stops right after it. */
  lemma {:induction false} LineLengthOfLine(line: string, rest: string)
    requires '\n' !in line
    ensures LineLength(line + "\n" + rest) == |line| + 1
  {
    if line != [] {
      assert (line + "\n" + rest)[1..] == line[1..] + "\n" + rest;
      LineLengthOfLine(line[1..], rest);
    }
  }

  /** "y" or "yes", after lower-casing and trimming. */
  predicate AcceptsAnswer(response: string) {
    var answer := TrimSpace(ToLower(response));
    answer == "y" || answer == "yes"
  }

  /** The console, with the unread rest of standard input behind its bufio.Reader. */
  class Console {
    const noColor: bool
    const verbose: bool
    var input: string

    /** NewConsole(cfg), reading from a standard input holding stdin. */
    constructor (cfg: Config, stdin: string)
      ensures noColor == cfg.noColor && verbose == cfg.verbose && input == stdin
    {
      noColor := cfg.noColor;
      verbose := cfg.verbose;
      input := stdin;
    }

    /**
     * bufio.Reader.ReadString('\n'): the data up to and including the first
     * newline; without one, all that is left, with io.EOF.
     */
    method ReadString() returns (line: string, err: Option<string>)
      modifies this
      ensures line == old(input)[..LineLength(old(input))]
      ensures input == old(input)[LineLength(old(input))..]
      ensures err == if '\n' in old(input) then None else Some(EOF)
    {
      LineLengthMeaning(input);
      var n := LineLength(input);
      line := input[..n];
      input := input[n..];
      err := if n > 0 && line[n - 1] == '\n' then None else Some(EOF);
    }

    /** ReadInput: the line read, trimmed, or "" with the read error. */
    method ReadInput(prompt: string) returns (text: string, err: Option<string>)
      modifies this
      ensures input == old(input)[LineLength(old(input))..]
      ensures '\n' in old(input) ==> err == None && text == TrimSpace(old(input)[..LineLength(old(input))])
      ensures '\n' !in old(input) ==> err == Some(EOF) && text == ""
    {
      var response;
      response, err := ReadString();
      if err.Some? {
        return "", err;
      }
      text := TrimSpace(response);
    }

    /** Confirm: true exactly when a whole line was read and it answers yes. */
    method Confirm(message: string) returns (yes: bool)
      modifies this
      ensures input == old(input)[LineLength(old(input))..]
      ensures yes <==> '\n' in old(input) && AcceptsAnswer(old(input)[..LineLength(old(input))])
    {
      var response, err := ReadString();
      if err.Some? {
        return false;
      }
      response := TrimSpace(ToLower(response));
      yes := response == "y" || response == "yes";
    }
  }

  // ---------------------------------------------------------------------------
  // The answer rule
  // ---------------------------------------------------------------------------

  /** "y" or "yes" in any case, with any blanks around it (the newline among them), is accepted. */
  lemma {:induction false} PaddedYesIsAccepted(p: string, w: string, q: string)
    requires AllSpace(p) && AllSpace(q)
    requires ToLower(w) == "y" || ToLower(w) == "yes"
    ensures AcceptsAnswer(p + w + q)
  {
    LowerPreservesSpace(w[0]);
    LowerPreservesSpace(w[|w| - 1]);
    assert Trimmed(w);
    TrimSpaceOfPadded(p, w, q);
    TrimSpaceToLower(p + w + q);
  }

  /** Anything accepted is, once trimmed, "y" or "yes" in some mix of cases. */
  lemma AcceptedIsYes(response: string)
    requires AcceptsAnswer(response)
    ensures var t := TrimSpace(response);
      (|t| == 1 || |t| == 3) && (t[0] == 'y' || t[0] == 'Y')
      && (|t| == 3 ==> (t[1] == 'e' || t[1] == 'E') && (t[2] == 's' || t[2] == 'S'))
  {
    TrimSpaceToLower(response);
    var t := TrimSpace(response);
    assert ToLower(t)[0] == LowerChar(t[0]);
  }

  /** A blank line, "n" and "no" are refusals, whatever the case and padding. */
  lemma RefusalsAreRejected(response: string)
    requires var t := ToLower(TrimSpace(response)); t == [] || t == "n" || t == "no"
    ensures !AcceptsAnswer(response)
  {
    TrimSpaceToLower(response);
  }
}
