/**
 * The pieces of the Kotlin standard library the app's logic relies on,
 * restricted to ASCII: nullable values, `trim`, `isBlank`, `equals(ignoreCase)`,
 * `lowercase`, `take`, `joinToString`, `replace("**", "")`, `toIntOrNull`
 * and decimal formatting of integers.
 *
 * Kotlin's `Char.isWhitespace`, `Char.isDigit` and case conversion are
 * Unicode-aware; here only their ASCII part is modelled.
 */
module KotlinStd {

  /** A Kotlin nullable value: `null` is `None`. */
  datatype Option<+T> = None | Some(value: T)

  // ---------------------------------------------------------------------
  // Character classes
  // ---------------------------------------------------------------------

  /** The characters of the regex class `\s` (no UNICODE_CHARACTER_CLASS flag). */
  predicate IsRegexSpace(c: char) {
    c == ' ' || c == '\t' || c == '\n' || c == '\U{000B}' || c == '\U{000C}' || c == '\r'
  }

  /** The ASCII characters Kotlin's `Char.isWhitespace` accepts: `\s` plus the
      four information separators U+001C..U+001F. */
  predicate IsWhitespace(c: char) {
    IsRegexSpace(c) || ('\U{001C}' <= c <= '\U{001F}')
  }

  /** The two line terminators the model recognises. */
  predicate IsLineBreak(c: char) {
    c == '\n' || c == '\r'
  }

  predicate IsDigit(c: char) {
    '0' <= c <= '9'
  }

  function LowerChar(c: char): (r: char)
    ensures 'A' <= c <= 'Z' ==> 'a' <= r <= 'z'
    ensures !('A' <= c <= 'Z') ==> r == c
  {
    if 'A' <= c <= 'Z' then (c as int - 'A' as int + 'a' as int) as char else c
  }

  function UpperChar(c: char): (r: char)
    ensures 'a' <= c <= 'z' ==> 'A' <= r <= 'Z'
    ensures !('a' <= c <= 'z') ==> r == c
  {
    if 'a' <= c <= 'z' then (c as int - 'a' as int + 'A' as int) as char else c
  }

  /** `String.lowercase()` over ASCII. */
  function Lowercase(s: string): (r: string)
    ensures |r| == |s|
    ensures forall i :: 0 <= i < |s| ==> r[i] == LowerChar(s[i])
  {
    seq(|s|, i requires 0 <= i < |s| => LowerChar(s[i]))
  }

  /** `a.equals(b, ignoreCase = true)` over ASCII. */
  predicate EqualsIgnoreCase(a: string, b: string) {
    |a| == |b| && forall i :: 0 <= i < |a| ==> LowerChar(a[i]) == LowerChar(b[i])
  }

  lemma EqualsIgnoreCaseIsLowercaseEquality(a: string, b: string)
    ensures EqualsIgnoreCase(a, b) <==> Lowercase(a) == Lowercase(b)
  {
    if Lowercase(a) == Lowercase(b) {
      assert |a| == |b|;
      forall i | 0 <= i < |a|
        ensures LowerChar(a[i]) == LowerChar(b[i])
      {
        assert Lowercase(a)[i] == Lowercase(b)[i];
      }
    }
  }

  predicate StartsWith(s: string, prefix: string) {
    |prefix| <= |s| && s[..|prefix|] == prefix
  }

  // ---------------------------------------------------------------------
  // trim / isBlank
  // ---------------------------------------------------------------------

  predicate IsBlank(s: string) {
    forall i :: 0 <= i < |s| ==> IsWhitespace(s[i])
  }

  /** Neither end of `s` is whitespace: `s.trim() == s`. */
  predicate IsTrimmed(s: string) {
    |s| == 0 || (!IsWhitespace(s[0]) && !IsWhitespace(s[|s| - 1]))
  }

  /** Index of the first non-whitespace character at or after `i`, or `|s|`. */
  function SkipWhitespace(s: string, i: nat): (r: nat)
    requires i <= |s|
    ensures i <= r <= |s|
    ensures forall k :: i <= k < r ==> IsWhitespace(s[k])
    ensures r == |s| || !IsWhitespace(s[r])
    decreases |s| - i
  {
    if i == |s| || !IsWhitespace(s[i]) then i else SkipWhitespace(s, i + 1)
  }

  /** One past the last non-whitespace character before `j`, or 0. */
  function SkipWhitespaceBack(s: string, j: nat): (r: nat)
    requires j <= |s|
    ensures r <= j
    ensures forall k :: r <= k < j ==> IsWhitespace(s[k])
    ensures r == 0 || !IsWhitespace(s[r - 1])
  {
    if j == 0 || !IsWhitespace(s[j - 1]) then j else SkipWhitespaceBack(s, j - 1)
  }

  /** `r` is `s[lo..hi]` and everything of `s` outside that slice is whitespace. */
  predicate BlankMargins(s: string, r: string, lo: nat, hi: nat) {
    lo <= hi <= |s| && r == s[lo..hi] && IsBlank(s[..lo]) && IsBlank(s[hi..])
  }

  /** `String.trim()`: the longest slice of `s` whose ends are not whitespace,
      obtained by dropping only whitespace on both sides. */
  function Trim(s: string): (r: string)
    ensures IsTrimmed(r)
    ensures r == [] <==> IsBlank(s)
    ensures IsTrimmed(s) ==> r == s
  {
    var lo := SkipWhitespace(s, 0);
    var hi := SkipWhitespaceBack(s, |s|);
    if hi <= lo then
      assert IsBlank(s[lo..]);
      []
    else
      assert IsTrimmed(s) ==> lo == 0 && hi == |s|;
      s[lo..hi]
  }

  /** What `trim` drops is whitespace on both sides, and nothing else. */
  lemma TrimDropsOnlyMargins(s: string)
    ensures BlankMargins(s, Trim(s), SkipWhitespace(s, 0), SkipWhitespace(s, 0) + |Trim(s)|)
  {
    var lo := SkipWhitespace(s, 0);
    var hi := SkipWhitespaceBack(s, |s|);
    if hi <= lo {
      assert IsBlank(s[lo..]);
    }
  }

  lemma TrimIdempotent(s: string)
    ensures Trim(Trim(s)) == Trim(s)
  {
  }

  /** Trimming keeps every non-whitespace character, at the same offset from
      the first non-whitespace character. */
  lemma TrimKeepsNonWhitespace(s: string, k: nat)
    requires k < |s| && !IsWhitespace(s[k])
    ensures SkipWhitespace(s, 0) <= k
    ensures k - SkipWhitespace(s, 0) < |Trim(s)|
    ensures Trim(s)[k - SkipWhitespace(s, 0)] == s[k]
  {
    var lo := SkipWhitespace(s, 0);
    var hi := SkipWhitespaceBack(s, |s|);
    assert lo <= k && k < hi;
    assert Trim(s) == s[lo..hi];
  }

  // ---------------------------------------------------------------------
  // take / joinToString
  // ---------------------------------------------------------------------

  /** `String.take(n)`. */
  function Take(s: string, n: nat): (r: string)
    ensures |r| <= n && |r| <= |s|
    ensures |s| <= n ==> r == s
    ensures r == s[..|r|]
    ensures n <= |s| ==> |r| == n
  {
    if |s| <= n then s else s[..n]
  }

  /** `parts.joinToString(sep)`. */
  function Join(parts: seq<string>, sep: string): (r: string)
    decreases |parts|
  {
    if |parts| == 0 then []
    else if |parts| == 1 then parts[0]
    else parts[0] + sep + Join(parts[1..], sep)
  }

  // ---------------------------------------------------------------------
  // replace("**", "")
  // ---------------------------------------------------------------------

  predicate HasDoubleStar(s: string) {
    exists k :: 0 <= k < |s| - 1 && s[k] == '*' && s[k + 1] == '*'
  }

  /** `s.replace("**", "")`: occurrences are found left to right and do not
      overlap, so "***" leaves a single '*'. */
  function RemoveDoubleStars(s: string): (r: string)
    ensures !HasDoubleStar(r)
    ensures |r| <= |s|
    ensures |s| > 0 && s[0] != '*' ==> |r| > 0 && r[0] == s[0]
    ensures forall c :: c in r ==> c in s
    decreases |s|
  {
    if |s| == 0 then []
    else if |s| >= 2 && s[0] == '*' && s[1] == '*' then RemoveDoubleStars(s[2..])
    else
      var rest := RemoveDoubleStars(s[1..]);
      var r := [s[0]] + rest;
      assert forall k :: 0 <= k < |r| - 1 ==> !(r[k] == '*' && r[k + 1] == '*') by {
        forall k | 0 <= k < |r| - 1
          ensures !(r[k] == '*' && r[k + 1] == '*')
        {
          if k == 0 {
            assert r[1] == rest[0];
          } else {
            assert r[k] == rest[k - 1] && r[k + 1] == rest[k];
          }
        }
      }
      r
  }

  /** The characters of `s` other than '*', in order. */
  function NonStars(s: string): (r: string)
    ensures |r| <= |s|
    ensures '*' !in r
    decreases |s|
  {
    if |s| == 0 then [] else (if s[0] == '*' then [] else [s[0]]) + NonStars(s[1..])
  }

  /** The number of '*' in `s`. */
  function StarCount(s: string): (n: nat)
    ensures n + |NonStars(s)| == |s|
    decreases |s|
  {
    if |s| == 0 then 0 else (if s[0] == '*' then 1 else 0) + StarCount(s[1..])
  }

  /** A run of `n` stars. */
  function Stars(n: nat): (r: string)
    ensures |r| == n && forall k :: 0 <= k < n ==> r[k] == '*'
  {
    seq(n, _ => '*')
  }

  /** Removing "**" keeps every other character, in order. */
  lemma {:induction false} RemoveDoubleStarsKeepsOthers(s: string)
    ensures NonStars(RemoveDoubleStars(s)) == NonStars(s)
    decreases |s|
  {
    if |s| == 0 {
    } else if |s| >= 2 && s[0] == '*' && s[1] == '*' {
      RemoveDoubleStarsKeepsOthers(s[2..]);
      assert s[1..][1..] == s[2..];
    } else {
      var rest := RemoveDoubleStars(s[1..]);
      var r := [s[0]] + rest;
      RemoveDoubleStarsKeepsOthers(s[1..]);
      assert r[1..] == rest && r[0] == s[0];
    }
  }

  /** The number of "**" occurrences `replace` finds: left to right, not
      overlapping. */
  function DoubleStarCount(s: string): nat
    decreases |s|
  {
    if |s| == 0 then 0
    else if |s| >= 2 && s[0] == '*' && s[1] == '*' then 1 + DoubleStarCount(s[2..])
    else DoubleStarCount(s[1..])
  }

  /** Removing "**" takes stars away two per occurrence and nothing else. */
  lemma {:induction false} RemoveDoubleStarsRemovesPairs(s: string)
    ensures StarCount(s) == StarCount(RemoveDoubleStars(s)) + 2 * DoubleStarCount(s)
    ensures |s| == |RemoveDoubleStars(s)| + 2 * DoubleStarCount(s)
    decreases |s|
  {
    if |s| == 0 {
    } else if |s| >= 2 && s[0] == '*' && s[1] == '*' {
      RemoveDoubleStarsRemovesPairs(s[2..]);
      assert s[1..][1..] == s[2..];
    } else {
      var rest := RemoveDoubleStars(s[1..]);
      var r := [s[0]] + rest;
      RemoveDoubleStarsRemovesPairs(s[1..]);
      assert r[1..] == rest && r[0] == s[0];
    }
  }

  /** Within a run of stars the pairs are taken from the left: a run of `n`
      stars leaves `n % 2` of them, and the text after the run is processed
      on its own. */
  lemma {:induction false} RemoveDoubleStarsRun(n: nat, t: string)
    requires |t| == 0 || t[0] != '*'
    ensures RemoveDoubleStars(Stars(n) + t) == Stars(n % 2) + RemoveDoubleStars(t)
    decreases n
  {
    var s := Stars(n) + t;
    if n >= 2 {
      assert s[0] == '*' && s[1] == '*';
      assert s[2..] == Stars(n - 2) + t;
      RemoveDoubleStarsRun(n - 2, t);
      assert n % 2 == (n - 2) % 2;
    } else if n == 1 {
      assert s[0] == '*' && s[1..] == t;
      assert !(|s| >= 2 && s[1] == '*');
      assert Stars(1) == [s[0]];
    } else {
      assert s == t;
      assert Stars(0) == [];
    }
  }

  /** Removing "**" changes a text exactly when it holds one. */
  lemma {:induction false} RemoveDoubleStarsNoop(s: string)
    ensures RemoveDoubleStars(s) == s <==> !HasDoubleStar(s)
    decreases |s|
  {
    if |s| > 0 && !HasDoubleStar(s) {
      SliceKeepsNoDoubleStar(s, 1, |s|);
      RemoveDoubleStarsNoop(s[1..]);
      assert [s[0]] + s[1..] == s;
    }
  }

  lemma SliceKeepsNoDoubleStar(s: string, lo: nat, hi: nat)
    requires lo <= hi <= |s|
    requires !HasDoubleStar(s)
    ensures !HasDoubleStar(s[lo..hi])
  {
    var t := s[lo..hi];
    forall k | 0 <= k < |t| - 1
      ensures !(t[k] == '*' && t[k + 1] == '*')
    {
      assert t[k] == s[lo + k] && t[k + 1] == s[lo + k + 1];
    }
  }

  lemma TrimKeepsNoDoubleStar(s: string)
    requires !HasDoubleStar(s)
    ensures !HasDoubleStar(Trim(s))
  {
    var lo := SkipWhitespace(s, 0);
    TrimDropsOnlyMargins(s);
    SliceKeepsNoDoubleStar(s, lo, lo + |Trim(s)|);
  }

  /** Joining star-free parts with a separator that has no '*' in it creates no "**". */
  lemma {:induction false} JoinKeepsNoDoubleStar(parts: seq<string>, sep: string)
    requires forall i :: 0 <= i < |parts| ==> !HasDoubleStar(parts[i])
    requires |sep| > 0 && forall i :: 0 <= i < |sep| ==> sep[i] != '*'
    ensures !HasDoubleStar(Join(parts, sep))
    decreases |parts|
  {
    if |parts| >= 2 {
      var tail := Join(parts[1..], sep);
      JoinKeepsNoDoubleStar(parts[1..], sep);
      var r := parts[0] + sep + tail;
      var a := |parts[0]|;
      forall k | 0 <= k < |r| - 1
        ensures !(r[k] == '*' && r[k + 1] == '*')
      {
        if k + 1 < a {
          assert r[k] == parts[0][k] && r[k + 1] == parts[0][k + 1];
        } else if k + 1 < a + |sep| {
          assert r[k + 1] == sep[k + 1 - a];
        } else if k == a + |sep| - 1 {
          assert r[k] == sep[|sep| - 1];
        } else {
          assert r[k] == tail[k - a - |sep|] && r[k + 1] == tail[k - a - |sep| + 1];
        }
      }
    }
  }

  // ---------------------------------------------------------------------
  // Decimal integers: toString and toIntOrNull
  // ---------------------------------------------------------------------

  const IntMin: int := -0x8000_0000
  const IntMax: int := 0x7FFF_FFFF

  predicate AllDigits(s: string) {
    forall i :: 0 <= i < |s| ==> IsDigit(s[i])
  }

  function DigitChar(d: nat): (c: char)
    requires d < 10
    ensures IsDigit(c)
  {
    ('0' as int + d) as char
  }

  function DigitValue(c: char): (d: nat)
    requires IsDigit(c)
    ensures d < 10 && DigitChar(d) == c
  {
    c as int - '0' as int
  }

  /** The value of a string of decimal digits, most significant first. */
  function DigitsValue(s: string): (v: nat)
    requires AllDigits(s)
    decreases |s|
  {
    if |s| == 0 then 0 else DigitsValue(s[..|s| - 1]) * 10 + DigitValue(s[|s| - 1])
  }

  /** `Int.toString()` for non-negative values. */
  function NatToString(n: nat): (s: string)
    ensures |s| > 0 && AllDigits(s)
    decreases n
  {
    if n < 10 then [DigitChar(n)] else NatToString(n / 10) + [DigitChar(n % 10)]
  }

  /** `Int.toString()`. */
  function IntToString(n: int): (s: string)
    ensures |s| > 0
    ensures n >= 0 <==> IsDigit(s[0])
  {
    if n < 0 then "-" + NatToString(-n) else NatToString(n)
  }

  /** `String.toIntOrNull()`: an optional sign, at least one digit, nothing
      else, and a value that fits in a 32-bit `Int`. */
  function ToIntOrNull(s: string): (r: Option<int>)
    ensures r.Some? ==> IntMin <= r.value <= IntMax
    ensures |s| == 0 ==> r.None?
    ensures AllDigits(s) && |s| > 0 && DigitsValue(s) <= IntMax ==> r == Some(DigitsValue(s))
  {
    if |s| == 0 then None
    else if s[0] == '-' || s[0] == '+' then
      if |s| == 1 || !AllDigits(s[1..]) then None
      else
        var v: int := if s[0] == '-' then 0 - DigitsValue(s[1..]) as int else DigitsValue(s[1..]);
        if IntMin <= v <= IntMax then Some(v) else None
    else if AllDigits(s) then
      var v := DigitsValue(s);
      if v <= IntMax then Some(v) else None
    else None
  }

  /** Reading back a formatted natural number gives the number. */
  lemma {:induction false} DigitsValueOfNatToString(n: nat)
    ensures DigitsValue(NatToString(n)) == n
    decreases n
  {
    var s := NatToString(n);
    if n >= 10 {
      DigitsValueOfNatToString(n / 10);
      assert s[..|s| - 1] == NatToString(n / 10);
    }
  }

  lemma ToIntOrNullOfNatToString(n: nat)
    requires n <= IntMax
    ensures ToIntOrNull(NatToString(n)) == Some(n)
  {
    DigitsValueOfNatToString(n);
  }

  /** Decimal formatting is injective, so a formatted number identifies it. */
  lemma NatToStringInjective(m: nat, n: nat)
    requires NatToString(m) == NatToString(n)
    ensures m == n
  {
    DigitsValueOfNatToString(m);
    DigitsValueOfNatToString(n);
  }
}
