/**
 * The pieces of `java.util.regex` semantics the app's patterns share, for
 * patterns compiled without the UNICODE_CHARACTER_CLASS flag and over
 * the line terminators `\n` and `\r`:
 * the greedy `\s*` run, the extent of a `.` run (a `.` stops at a line
 * terminator unless DOTALL is set), non-multiline `$`, and literal words
 * under CASE_INSENSITIVE, which folds ASCII letters only.
 */
module RegexScan {
  import opened KotlinStd

  /** The end of the greedy `\s*` run that starts at `i`. */
  function SkipSpaces(s: string, i: nat): (r: nat)
    requires i <= |s|
    ensures i <= r <= |s|
    ensures forall k :: i <= k < r ==> IsRegexSpace(s[k])
    ensures r == |s| || !IsRegexSpace(s[r])
    decreases |s| - i
  {
    if i == |s| || !IsRegexSpace(s[i]) then i else SkipSpaces(s, i + 1)
  }

  lemma SkipSpacesIs(s: string, i: nat, r: nat)
    requires i <= r <= |s|
    requires forall k :: i <= k < r ==> IsRegexSpace(s[k])
    requires r == |s| || !IsRegexSpace(s[r])
    ensures SkipSpaces(s, i) == r
  {
  }

  /** `t` fits on one line. */
  predicate NoLineBreak(t: string) {
    forall k :: 0 <= k < |t| ==> !IsLineBreak(t[k])
  }

  /** The first line terminator at or after `i`, or `|s|`: how far a run of
      `.` (without DOTALL) starting at `i` can reach. */
  function LineEnd(s: string, i: nat): (r: nat)
    requires i <= |s|
    ensures i <= r <= |s|
    ensures forall k :: i <= k < r ==> !IsLineBreak(s[k])
    ensures r == |s| || IsLineBreak(s[r])
    decreases |s| - i
  {
    if i == |s| || IsLineBreak(s[i]) then i else LineEnd(s, i + 1)
  }

  lemma LineEndIs(s: string, i: nat, r: nat)
    requires i <= r <= |s|
    requires forall k :: i <= k < r ==> !IsLineBreak(s[k])
    requires r == |s| || IsLineBreak(s[r])
    ensures LineEnd(s, i) == r
  {
  }

  /** `$` without MULTILINE holds at `p`: at the end of the input, or before
      a final line terminator (a final `\r\n` counts as one, and there is no
      `$` between its two characters). */
  predicate DollarAt(s: string, p: nat) {
    p == |s| ||
    (p == |s| - 1 && ((s[p] == '\n' && !(p > 0 && s[p - 1] == '\r')) || s[p] == '\r')) ||
    (p == |s| - 2 && s[p] == '\r' && s[p + 1] == '\n')
  }

  /** The literal `word` matches at `i` under CASE_INSENSITIVE. */
  predicate WordAt(s: string, i: nat, word: string) {
    i + |word| <= |s| && EqualsIgnoreCase(s[i..i + |word|], word)
  }
}
