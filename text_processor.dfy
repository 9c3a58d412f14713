/**
 * `TextProcessor` (src/processors/text_processor.py): the repeated-substring
 * cleanup followed by line normalisation (`splitlines`, strip each line, drop
 * blank ones, join with "\n").
 */
module TextProcessor {
  import opened Strings

  /** The characters at which Python's `str.splitlines()` breaks a line. */
  predicate IsLineBreak(c: char) {
    || c == '\n' || c == '\r' || c == '\U{B}' || c == '\U{C}'
    || ('\U{1C}' <= c <= '\U{1E}') || c == '\U{85}' || c == '\U{2028}' || c == '\U{2029}'
  }

  predicate NoLineBreak(s: string) {
    forall k :: 0 <= k < |s| ==> !IsLineBreak(s[k])
  }

  /** Index of the first line break at `i` or later, or `|s|`. */
  function LineEnd(s: string, i: nat): (k: nat)
    requires i <= |s|
    ensures i <= k <= |s|
    ensures k < |s| ==> IsLineBreak(s[k])
    ensures forall j :: i <= j < k ==> !IsLineBreak(s[j])
    decreases |s| - i
  {
    if i == |s| || IsLineBreak(s[i]) then i else LineEnd(s, i + 1)
  }

  /**
   * Python's `s.splitlines()`: the lines of `s` without their terminators; "\r\n"
   * is one terminator, and a final terminator does not start an empty line.
   */
  function SplitLines(s: string): (lines: seq<string>)
    ensures forall l :: l in lines ==> NoLineBreak(l)
    decreases |s|
  {
    if s == [] then []
    else
      var k := LineEnd(s, 0);
      if k == |s| then [s]
      else
        var width := if s[k] == '\r' && k + 1 < |s| && s[k + 1] == '\n' then 2 else 1;
        [s[..k]] + SplitLines(s[k + width..])
  }

  /** `[line.strip() for line in lines if line.strip()]`. */
  function StripNonBlank(lines: seq<string>): (r: seq<string>)
    ensures |r| <= |lines|
  {
    if lines == [] then []
    else if IsBlank(lines[0]) then StripNonBlank(lines[1..])
    else [Strip(lines[0])] + StripNonBlank(lines[1..])
  }

  /** The line-normalisation step of `clean_text`. */
  function NormalizeLines(text: string): string {
    Join(StripNonBlank(SplitLines(text)), "\n")
  }

  /**
   * `clean_repetitive_patterns`: the substitution of the back-reference pattern
   * `(?i)(.+?)(?:\s?\1){3,}` by its first group is the parameter `collapse`; the
   * result is then stripped.
   */
  function CleanRepetitivePatterns(collapse: string -> string, text: string): (r: string)
    ensures IsStrippedBy(r, IsSpace)
    ensures collapse(text) == text && IsStrippedBy(text, IsSpace) ==> r == text
  {
    Strip(collapse(text))
  }

  /** `clean_text`: repeated-pattern cleanup, then line normalisation. */
  function CleanText(collapse: string -> string, text: string): string {
    NormalizeLines(CleanRepetitivePatterns(collapse, text))
  }

  /** A line that survives normalisation: non-empty, stripped, one line. */
  predicate CleanLine(l: string) {
    l != [] && IsStrippedBy(l, IsSpace) && NoLineBreak(l)
  }

  /** Stripping keeps a line break-free. */
  lemma StripKeepsNoLineBreak(l: string)
    requires NoLineBreak(l)
    ensures NoLineBreak(Strip(l))
  {
    var r := Strip(l);
    var i := StripByInfix(l, IsSpace);
    forall k | 0 <= k < |r| ensures !IsLineBreak(r[k]) {
      assert r[k] == l[i + k];
    }
  }

  /** Every kept line is a clean line. */
  lemma {:induction false} StripNonBlankClean(lines: seq<string>)
    requires forall l :: l in lines ==> NoLineBreak(l)
    ensures forall l :: l in StripNonBlank(lines) ==> CleanLine(l)
  {
    if lines != [] {
      StripNonBlankClean(lines[1..]);
      if !IsBlank(lines[0]) {
        StripKeepsNoLineBreak(lines[0]);
      }
    }
  }

  /** Normalisation leaves clean lines as they are. */
  lemma {:induction false} StripNonBlankOfClean(lines: seq<string>)
    requires forall l :: l in lines ==> CleanLine(l)
    ensures StripNonBlank(lines) == lines
  {
    if lines != [] {
      assert CleanLine(lines[0]);
      StripOfStripped(lines[0]);
      StripNonBlankOfClean(lines[1..]);
    }
  }

  /** `LineEnd` stops at the first break after a break-free stretch. */
  lemma {:induction false} LineEndAt(s: string, i: nat, k: nat)
    requires i <= k <= |s|
    requires forall j :: i <= j < k ==> !IsLineBreak(s[j])
    requires k == |s| || IsLineBreak(s[k])
    ensures LineEnd(s, i) == k
    decreases k - i
  {
    if i < k {
      LineEndAt(s, i + 1, k);
    }
  }

  /** Splitting a newline-join of clean lines gives the lines back. */
  lemma {:induction false} SplitLinesOfJoin(lines: seq<string>)
    requires forall l :: l in lines ==> CleanLine(l)
    ensures SplitLines(Join(lines, "\n")) == lines
  {
    if |lines| == 1 {
      assert CleanLine(lines[0]);
      LineEndAt(lines[0], 0, |lines[0]|);
    } else if |lines| > 1 {
      var first := lines[0];
      assert CleanLine(first);
      var s := Join(lines, "\n");
      var rest := Join(lines[1..], "\n");
      assert s == first + "\n" + rest;
      assert forall j :: 0 <= j < |first| ==> s[j] == first[j];
      assert s[|first|] == '\n';
      LineEndAt(s, 0, |first|);
      assert s[..|first|] == first;
      assert s[|first| + 1..] == rest;
      SplitLinesOfJoin(lines[1..]);
    }
  }

  /**
   * What `clean_text` promises about its lines: the result splits into exactly
   * the kept lines, each non-empty, without surrounding whitespace and in their
   * original order.
   */
  lemma NormalizeLinesShape(text: string)
    ensures SplitLines(NormalizeLines(text)) == StripNonBlank(SplitLines(text))
    ensures forall l :: l in SplitLines(NormalizeLines(text)) ==> CleanLine(l)
  {
    StripNonBlankClean(SplitLines(text));
    SplitLinesOfJoin(StripNonBlank(SplitLines(text)));
  }

  /** Line normalisation is idempotent. */
  lemma NormalizeLinesIdempotent(text: string)
    ensures NormalizeLines(NormalizeLines(text)) == NormalizeLines(text)
  {
    NormalizeLinesShape(text);
    StripNonBlankOfClean(StripNonBlank(SplitLines(text)));
  }

  /**
   * A kept line is the stripped form of an input line at or after its own
   * position: lines are only stripped or dropped, never altered or reordered.
   */
  lemma {:induction false} KeptLineSource(lines: seq<string>, k: nat) returns (j: nat)
    requires k < |StripNonBlank(lines)|
    ensures k <= j < |lines|
    ensures StripNonBlank(lines)[k] == Strip(lines[j]) && !IsBlank(lines[j])
  {
    var rest := lines[1..];
    var tail := StripNonBlank(rest);
    var kept := StripNonBlank(lines);
    if IsBlank(lines[0]) {
      assert kept == tail;
      var j' := KeptLineSource(rest, k);
      j := j' + 1;
      assert rest[j'] == lines[j];
    } else {
      assert kept == [Strip(lines[0])] + tail;
      if k == 0 {
        j := 0;
      } else {
        var j' := KeptLineSource(rest, k - 1);
        j := j' + 1;
        assert rest[j'] == lines[j];
        assert kept[k] == tail[k - 1];
      }
    }
  }

  /**
   * `clean_text` leaves only clean lines: whatever the repeated-pattern step
   * did, every line of the result is non-empty, stripped and a single line.
   */
  lemma CleanTextLines(collapse: string -> string, text: string)
    ensures forall l :: l in SplitLines(CleanText(collapse, text)) ==> CleanLine(l)
  {
    NormalizeLinesShape(CleanRepetitivePatterns(collapse, text));
  }
}
