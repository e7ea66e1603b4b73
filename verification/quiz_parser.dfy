/**
 * `QuizUtils.parseQuizQuestions`: the trimmed reply is split in front of
 * every `Question:`/`Tanong:` (any case); in each block three patterns are
 * searched:
 *
 *     question  (?:Question|Tanong):\s*(.+?)\n          CASE_INSENSITIVE, first match
 *     options   ([A-Da-d])[.)]\s*(.+?)(?:\n|$)          every match, left to right
 *     answer    (?:Answer|Sagot):\s*([A-Da-d])          CASE_INSENSITIVE, first match
 *
 * and a block becomes a question when the question and answer patterns
 * match, the trimmed question is not empty, at least one option was found,
 * and the option at the answer letter's position in "ABCD" exists and is
 * not empty after trimming.
 *
 * As for the flashcard pattern, each regex is a direct scanner here. The
 * `.` of these patterns stops at a line terminator (no DOTALL), so a lazy
 * `(.+?)` started at `h` can only end at the first line terminator after
 * `h`; whether the pattern then succeeds depends only on what that
 * terminator is.
 */
module QuizParser {
  import opened KotlinStd
  import opened Model
  import opened RegexScan

  // ---------------------------------------------------------------------
  // Splitting into blocks
  // ---------------------------------------------------------------------

  /** The lookahead `(?=Question:|Tanong:)` (CASE_INSENSITIVE) holds at `p`. */
  predicate SplitAt(t: string, p: nat) {
    WordAt(t, p, "question:") || WordAt(t, p, "tanong:")
  }

  /** The first split position at or after `from`. */
  function NextSplit(t: string, from: nat): (r: Option<nat>)
    ensures r.Some? ==> from <= r.value < |t|
    decreases |t| - from
  {
    if from >= |t| then None
    else if SplitAt(t, from) then Some(from)
    else NextSplit(t, from + 1)
  }

  /** `NextSplit` finds a split point, and no earlier one from `from` on. */
  lemma {:induction false} NextSplitIsFirst(t: string, from: nat)
    ensures NextSplit(t, from).Some? ==> SplitAt(t, NextSplit(t, from).value)
    ensures forall p :: from <= p && (NextSplit(t, from).None? || p < NextSplit(t, from).value) ==> !SplitAt(t, p)
    decreases |t| - from
  {
    if from < |t| && !SplitAt(t, from) {
      NextSplitIsFirst(t, from + 1);
    }
  }

  /** The first half of `NextSplitIsFirst` on its own: without the
      quantifier over earlier positions it is much cheaper for callers. */
  lemma {:induction false} NextSplitIsSplit(t: string, from: nat)
    ensures NextSplit(t, from).Some? ==> SplitAt(t, NextSplit(t, from).value)
    decreases |t| - from
  {
    if from < |t| && !SplitAt(t, from) {
      NextSplitIsSplit(t, from + 1);
    }
  }

  /** `Regex.split` from `start`, the next split point being searched from
      `from`. A zero-width match never repeats at the same position, so the
      search after a split at `p` resumes at `p + 1`; empty pieces are kept. */
  function PiecesFrom(t: string, start: nat, from: nat): (r: seq<string>)
    requires start <= from <= |t|
    ensures |r| > 0
    ensures Join(r, "") == t[start..]
    decreases |t| - from
  {
    match NextSplit(t, from)
    case None => [t[start..]]
    case Some(p) =>
      var rest := PiecesFrom(t, p, p + 1);
      assert ([t[start..p]] + rest)[1..] == rest;
      assert t[start..p] + t[p..] == t[start..];
      [t[start..p]] + rest
  }

  function Blocks(t: string): (r: seq<string>)
    ensures |r| > 0
  {
    PiecesFrom(t, 0, 0)
  }

  /** The number of split positions at or after `from`: the markers
      `Question:`/`Tanong:` in any case. */
  function MarkerCount(t: string, from: nat): nat
    decreases |t| - from
  {
    if from >= |t| then 0 else Indicator(SplitAt(t, from)) + MarkerCount(t, from + 1)
  }

  // ---------------------------------------------------------------------
  // The lazy group and the backtracking of `\s*`
  // ---------------------------------------------------------------------

  /** A group `(.+?)` started at `h` succeeds: it needs one character that is
      not a line terminator, and it ends at the first line terminator, where
      the pattern needs a `\n` (or, for the option pattern, `$`). */
  predicate GroupEndsAt(s: string, h: nat, dollar: bool) {
    h < |s| && !IsLineBreak(s[h]) &&
    var j := LineEnd(s, h);
    (j < |s| && s[j] == '\n') || (dollar && DollarAt(s, j))
  }

  /** Where the group starts: the greedy `\s*` run ends at `k`; when the group
      fails there, `\s*` gives back one character at a time down to `lo`. */
  function GroupStart(s: string, lo: nat, k: nat, dollar: bool): (r: Option<nat>)
    requires lo <= k <= |s|
    ensures r.Some? ==> lo <= r.value <= k && GroupEndsAt(s, r.value, dollar)
    ensures forall h :: lo <= h <= k && (r.None? || r.value < h) ==> !GroupEndsAt(s, h, dollar)
    decreases k
  {
    if GroupEndsAt(s, k, dollar) then Some(k)
    else if k == lo then None
    else GroupStart(s, lo, k - 1, dollar)
  }

  // ---------------------------------------------------------------------
  // The question pattern
  // ---------------------------------------------------------------------

  function QuestionMarkerLength(s: string, i: nat): (r: Option<nat>)
    ensures r.Some? <==> SplitAt(s, i)
    ensures r.Some? ==> i + r.value <= |s|
  {
    if WordAt(s, i, "question:") then Some(9)
    else if WordAt(s, i, "tanong:") then Some(7)
    else None
  }

  /** Group 1 of the question pattern matched at `i`. */
  function QuestionAt(s: string, i: nat): (r: Option<string>)
    ensures r.Some? ==> SplitAt(s, i)
    ensures r.Some? ==> |r.value| > 0 && forall k :: 0 <= k < |r.value| ==> !IsLineBreak(r.value[k])
  {
    match QuestionMarkerLength(s, i)
    case None => None
    case Some(len) =>
      match GroupStart(s, i + len, SkipSpaces(s, i + len), false)
      case None => None
      case Some(h) => Some(s[h..LineEnd(s, h)])
  }

  /** `find`: the question pattern's first match at or after `from`. */
  function FindQuestion(s: string, from: nat): (r: Option<string>)
    ensures r.Some? ==> exists i ::
      from <= i && QuestionAt(s, i) == r && forall j :: from <= j < i ==> QuestionAt(s, j).None?
    ensures r.None? ==> forall i :: from <= i ==> QuestionAt(s, i).None?
    decreases |s| - from
  {
    if from >= |s| then None
    else if QuestionAt(s, from).Some? then QuestionAt(s, from)
    else FindQuestion(s, from + 1)
  }

  // ---------------------------------------------------------------------
  // The option pattern
  // ---------------------------------------------------------------------

  predicate IsChoiceLetter(c: char) {
    'A' <= c <= 'D' || 'a' <= c <= 'd'
  }

  /** `([A-Da-d])[.)]` at `p`. */
  predicate ChoiceAt(s: string, p: nat) {
    p + 2 <= |s| && IsChoiceLetter(s[p]) && (s[p + 1] == '.' || s[p + 1] == ')')
  }

  /** One match of the option pattern: group 2, and where the match ends
      (after the `\n` when one was consumed). */
  datatype OptionMatch = OptionMatch(text: string, end: nat)

  function OptionAt(s: string, p: nat): (r: Option<OptionMatch>)
    ensures r.Some? ==> ChoiceAt(s, p) && p + 2 < r.value.end <= |s|
    ensures r.Some? ==> |r.value.text| > 0 && forall k :: 0 <= k < |r.value.text| ==> !IsLineBreak(r.value.text[k])
  {
    if !ChoiceAt(s, p) then None
    else
      match GroupStart(s, p + 2, SkipSpaces(s, p + 2), true)
      case None => None
      case Some(h) =>
        var j := LineEnd(s, h);
        Some(OptionMatch(s[h..j], if j < |s| && s[j] == '\n' then j + 1 else j))
  }

  /** `findAll`: each search resumes where the previous match ended. */
  function OptionTexts(s: string, from: nat): (r: seq<string>)
    ensures forall k :: 0 <= k < |r| ==> |r[k]| > 0
    decreases |s| - from
  {
    if from >= |s| then []
    else
      match OptionAt(s, from)
      case Some(m) => [m.text] + OptionTexts(s, m.end)
      case None => OptionTexts(s, from + 1)
  }

  /** Where the matches `OptionTexts` collects start. */
  function OptionStarts(s: string, from: nat): (r: seq<nat>)
    ensures forall k :: 0 <= k < |r| ==> from <= r[k] < |s| && OptionAt(s, r[k]).Some?
    decreases |s| - from
  {
    if from >= |s| then []
    else
      match OptionAt(s, from)
      case Some(m) => [from] + OptionStarts(s, m.end)
      case None => OptionStarts(s, from + 1)
  }

  /** The collected texts are the texts of the matches at those starts. */
  lemma {:induction false} OptionStartsMatchTexts(s: string, from: nat)
    ensures |OptionStarts(s, from)| == |OptionTexts(s, from)|
    ensures forall k :: 0 <= k < |OptionTexts(s, from)| ==>
      OptionTexts(s, from)[k] == OptionAt(s, OptionStarts(s, from)[k]).value.text
    decreases |s| - from
  {
    if from < |s| {
      match OptionAt(s, from)
      case Some(m) =>
        OptionStartsMatchTexts(s, m.end);
      case None =>
        OptionStartsMatchTexts(s, from + 1);
    }
  }

  /** The matches do not overlap: each one starts at or after the end of
      the one before. */
  lemma {:induction false} OptionStartsDoNotOverlap(s: string, from: nat)
    ensures forall k :: 0 < k < |OptionStarts(s, from)| ==>
      OptionAt(s, OptionStarts(s, from)[k - 1]).value.end <= OptionStarts(s, from)[k]
    decreases |s| - from
  {
    if from < |s| {
      match OptionAt(s, from)
      case Some(m) =>
        OptionStartsDoNotOverlap(s, m.end);
        var r := OptionStarts(s, from);
        var t := OptionStarts(s, m.end);
        assert r == [from] + t;
        forall k | 0 < k < |r|
          ensures OptionAt(s, r[k - 1]).value.end <= r[k]
        {
          if k > 1 {
            assert r[k - 1] == t[k - 2] && r[k] == t[k - 1];
          }
        }
      case None =>
        OptionStartsDoNotOverlap(s, from + 1);
    }
  }

  /** `p` lies inside one of the matches starting at `starts`. */
  predicate InsideMatch(s: string, starts: seq<nat>, p: nat) {
    exists k :: 0 <= k < |starts| && starts[k] < p && OptionAt(s, starts[k]).Some? && p < OptionAt(s, starts[k]).value.end
  }

  /** Every place where the option pattern matches is found, unless it lies
      inside a match found before it: scanning misses nothing, wherever in
      the block the letter stands (the question line included). */
  lemma {:induction false} OptionFoundOrCovered(s: string, from: nat, p: nat)
    requires from <= p && OptionAt(s, p).Some?
    ensures p in OptionStarts(s, from) || InsideMatch(s, OptionStarts(s, from), p)
    decreases |s| - from
  {
    match OptionAt(s, from)
    case Some(m) =>
      if p < m.end {
        FoundOrCoveredByFirst(s, from, m, p);
      } else {
        OptionFoundOrCovered(s, m.end, p);
        FoundOrCoveredLater(s, from, m, p);
      }
    case None =>
      OptionFoundOrCovered(s, from + 1, p);
  }

  lemma FoundOrCoveredByFirst(s: string, from: nat, m: OptionMatch, p: nat)
    requires from <= p < |s| && OptionAt(s, from) == Some(m) && p < m.end
    ensures p in OptionStarts(s, from) || InsideMatch(s, OptionStarts(s, from), p)
  {
    var r := OptionStarts(s, from);
    assert r == [from] + OptionStarts(s, m.end);
    if p != from {
      assert r[0] < p && OptionAt(s, r[0]).Some? && p < OptionAt(s, r[0]).value.end;
    }
  }

  lemma FoundOrCoveredLater(s: string, from: nat, m: OptionMatch, p: nat)
    requires from < |s| && OptionAt(s, from) == Some(m) && m.end <= p
    requires p in OptionStarts(s, m.end) || InsideMatch(s, OptionStarts(s, m.end), p)
    ensures p in OptionStarts(s, from) || InsideMatch(s, OptionStarts(s, from), p)
  {
    var r := OptionStarts(s, from);
    var t := OptionStarts(s, m.end);
    assert r == [from] + t;
    if p in t {
      assert p in r;
    } else {
      var k :| 0 <= k < |t| && t[k] < p && OptionAt(s, t[k]).Some? && p < OptionAt(s, t[k]).value.end;
      var q := t[k];
      assert r[k + 1] == q;
      assert 0 <= k + 1 < |r| && r[k + 1] < p && OptionAt(s, r[k + 1]).Some? && p < OptionAt(s, r[k + 1]).value.end;
    }
  }

  /** `map { it.groupValues[2].trim() }`. */
  function TrimAll(xs: seq<string>): (r: seq<string>)
    ensures |r| == |xs| && forall k :: 0 <= k < |xs| ==> r[k] == Trim(xs[k])
  {
    seq(|xs|, k requires 0 <= k < |xs| => Trim(xs[k]))
  }

  function Options(b: string): seq<string> {
    TrimAll(OptionTexts(b, 0))
  }

  // ---------------------------------------------------------------------
  // The answer pattern
  // ---------------------------------------------------------------------

  function AnswerMarkerLength(s: string, i: nat): (r: Option<nat>)
    ensures r.Some? ==> i + r.value <= |s|
  {
    if WordAt(s, i, "answer:") then Some(7)
    else if WordAt(s, i, "sagot:") then Some(6)
    else None
  }

  /** Group 1 of the answer pattern matched at `i`. Giving back spaces of
      `\s*` cannot help, since a space is not a letter, so only the greedy
      end is tried. */
  function AnswerAt(s: string, i: nat): (r: Option<char>)
    ensures r.Some? ==> IsChoiceLetter(r.value)
  {
    match AnswerMarkerLength(s, i)
    case None => None
    case Some(len) =>
      var g := SkipSpaces(s, i + len);
      if g < |s| && IsChoiceLetter(s[g]) then Some(s[g]) else None
  }

  /** `find`: the answer pattern's first match at or after `from`. */
  function FindAnswer(s: string, from: nat): (r: Option<char>)
    ensures r.Some? ==> IsChoiceLetter(r.value)
    ensures r.Some? ==> exists i ::
      from <= i && AnswerAt(s, i) == r && forall j :: from <= j < i ==> AnswerAt(s, j).None?
    ensures r.None? ==> forall i :: from <= i ==> AnswerAt(s, i).None?
    decreases |s| - from
  {
    if from >= |s| then None
    else if AnswerAt(s, from).Some? then AnswerAt(s, from)
    else FindAnswer(s, from + 1)
  }

  // ---------------------------------------------------------------------
  // Blocks to questions
  // ---------------------------------------------------------------------

  /** `"ABCD".indexOf(letter.uppercase())`. */
  function LetterIndex(c: char): (k: nat)
    requires IsChoiceLetter(c)
    ensures k < 4 && "ABCD"[k] == UpperChar(c)
  {
    UpperChar(c) as int - 'A' as int
  }

  /** `options.getOrNull(k).orEmpty()`. */
  function OptionOrEmpty(options: seq<string>, k: nat): string {
    if k < |options| then options[k] else ""
  }

  /** What every question the parser returns satisfies. */
  predicate WellFormed(q: QuizQuestion) {
    q.question != [] && IsTrimmed(q.question) &&
    |q.options| > 0 && (forall k :: 0 <= k < |q.options| ==> IsTrimmed(q.options[k])) &&
    q.correctAnswer != [] && q.correctAnswer in q.options &&
    q.userAnswer.None?
  }

  /** The question one block yields, if any. */
  function BlockQuestion(b: string): (r: Option<QuizQuestion>)
    ensures r.Some? ==> WellFormed(r.value)
  {
    match FindQuestion(b, 0)
    case None => None
    case Some(text) =>
      match FindAnswer(b, 0)
      case None => None
      case Some(letter) =>
        var question := Trim(text);
        var options := Options(b);
        var correct := OptionOrEmpty(options, LetterIndex(letter));
        if question != [] && |options| > 0 && correct != [] then
          Some(QuizQuestion(question, options, correct, None))
        else None
  }

  /** An emitted question's correct answer is the option at the answer
      letter's position, so a letter past the last option drops the block. */
  lemma CorrectAnswerIsLetteredOption(b: string)
    ensures BlockQuestion(b).Some? ==>
      FindQuestion(b, 0).Some? && FindAnswer(b, 0).Some? &&
      var k := LetterIndex(FindAnswer(b, 0).value);
      var q := BlockQuestion(b).value;
      q.options == Options(b) && k < |q.options| && q.correctAnswer == q.options[k]
  {
  }

  /** A block yields a question exactly when the question and answer
      patterns match, the trimmed question is not empty and the option at
      the answer letter's position exists and is not empty; the question is
      then made of the trimmed question text, the trimmed options and that
      option. */
  lemma BlockQuestionExactly(b: string)
    ensures BlockQuestion(b).Some? <==>
      FindQuestion(b, 0).Some? && FindAnswer(b, 0).Some? && Trim(FindQuestion(b, 0).value) != [] &&
      LetterIndex(FindAnswer(b, 0).value) < |Options(b)| && Options(b)[LetterIndex(FindAnswer(b, 0).value)] != []
    ensures BlockQuestion(b).Some? ==>
      var k := LetterIndex(FindAnswer(b, 0).value);
      BlockQuestion(b).value == QuizQuestion(Trim(FindQuestion(b, 0).value), Options(b), Options(b)[k], None)
  {
  }

  /** A block without a question match, or without an answer match, or whose
      answer letter is past the last option, yields nothing. */
  lemma DroppedBlocks(b: string)
    ensures FindQuestion(b, 0).None? ==> BlockQuestion(b).None?
    ensures FindAnswer(b, 0).None? ==> BlockQuestion(b).None?
    ensures FindAnswer(b, 0).Some? && LetterIndex(FindAnswer(b, 0).value) >= |Options(b)| ==>
      BlockQuestion(b).None?
  {
  }

  /** The questions of the blocks, in block order. */
  function Questions(blocks: seq<string>): (r: seq<QuizQuestion>)
    ensures |r| <= |blocks|
    ensures forall k :: 0 <= k < |r| ==> WellFormed(r[k])
    decreases |blocks|
  {
    if |blocks| == 0 then []
    else
      var rest := Questions(blocks[1..]);
      match BlockQuestion(blocks[0])
      case None => rest
      case Some(q) => WellFormedCons(q, rest); [q] + rest
  }

  lemma WellFormedCons(q: QuizQuestion, rest: seq<QuizQuestion>)
    requires WellFormed(q) && forall k :: 0 <= k < |rest| ==> WellFormed(rest[k])
    ensures forall k :: 0 <= k < |[q] + rest| ==> WellFormed(([q] + rest)[k])
  {
    forall k | 0 <= k < |[q] + rest|
      ensures WellFormed(([q] + rest)[k])
    {
      if k > 0 {
        assert ([q] + rest)[k] == rest[k - 1];
      }
    }
  }

  /** `parseQuizQuestions(raw)`. */
  function ParseQuiz(raw: string): (r: seq<QuizQuestion>)
    ensures forall k :: 0 <= k < |r| ==> WellFormed(r[k])
    ensures |r| <= MarkerCount(Trim(raw), 0)
  {
    var blocks := Blocks(Trim(raw));
    FirstBlockYieldsNothing(Trim(raw));
    BlockCount(Trim(raw), 0, 0);
    assert Questions(blocks) == Questions(blocks[1..]);
    Questions(blocks)
  }

  // ---------------------------------------------------------------------
  // Block structure
  // ---------------------------------------------------------------------

  /** The markers from `from` on: none when no split point is left, else
      the next one and those after it. */
  lemma {:induction false} MarkerCountAtNext(t: string, from: nat)
    ensures MarkerCount(t, from) == match NextSplit(t, from)
      case None => 0
      case Some(p) => 1 + MarkerCount(t, p + 1)
    decreases |t| - from
  {
    if from < |t| && !SplitAt(t, from) {
      MarkerCountAtNext(t, from + 1);
    }
  }

  /** There is one more piece than there are split points. */
  lemma {:induction false} BlockCount(t: string, start: nat, from: nat)
    requires start <= from <= |t|
    ensures |PiecesFrom(t, start, from)| == 1 + MarkerCount(t, from)
    decreases |t| - from
  {
    MarkerCountAtNext(t, from);
    match NextSplit(t, from)
    case None =>
    case Some(p) =>
      BlockCount(t, p, p + 1);
  }

  /** A character of a case-insensitive word match. */
  lemma WordAtChar(t: string, p: nat, w: string, k: nat)
    requires WordAt(t, p, w) && k < |w|
    ensures LowerChar(t[p + k]) == LowerChar(w[k])
  {
    assert t[p..p + |w|][k] == t[p + k];
  }

  /** Past its first letter a marker holds no 'q', and its only 't' is the
      one of "question:" followed by 'i'. */
  lemma MarkerInnerLetters(w: string, d: nat)
    requires (w == "question:" || w == "tanong:") && 0 < d < |w|
    ensures LowerChar(w[d]) != 'q'
    ensures LowerChar(w[d]) == 't' ==> w == "question:" && d == 4 && LowerChar(w[d + 1]) == 'i'
  {
    if w == "question:" {
      assert d == 1 || d == 2 || d == 3 || d == 4 || d == 5 || d == 6 || d == 7 || d == 8;
    } else {
      assert d == 1 || d == 2 || d == 3 || d == 4 || d == 5 || d == 6;
    }
  }

  /** Two markers never overlap: none starts inside another. */
  lemma MarkersDoNotOverlap(t: string, p: nat, q: nat)
    requires SplitAt(t, p) && p < q < p + QuestionMarkerLength(t, p).value
    ensures !SplitAt(t, q)
  {
    if SplitAt(t, q) {
      var w := if WordAt(t, p, "question:") then "question:" else "tanong:";
      var v := if WordAt(t, q, "question:") then "question:" else "tanong:";
      WordAtChar(t, p, w, q - p);
      WordAtChar(t, q, v, 0);
      MarkerInnerLetters(w, q - p);
      assert LowerChar(t[q]) == 't' && v == "tanong:";
      WordAtChar(t, p, w, 5);
      WordAtChar(t, q, v, 1);
      assert false;
    }
  }

  /** A word matched inside `t` is matched at the start of a slice that
      holds it. */
  lemma WordAtSlice(t: string, p: nat, end: nat, w: string)
    requires WordAt(t, p, w) && p + |w| <= end <= |t|
    ensures WordAt(t[p..end], 0, w)
  {
    assert t[p..end][0..|w|] == t[p..p + |w|];
  }

  /** After a split point the next one comes no earlier than the end of its
      marker. */
  lemma NextSplitAfterMarker(t: string, p: nat)
    requires SplitAt(t, p)
    ensures NextSplit(t, p + 1).None? || p + QuestionMarkerLength(t, p).value <= NextSplit(t, p + 1).value
  {
    NextSplitIsFirst(t, p + 1);
    if NextSplit(t, p + 1).Some? && NextSplit(t, p + 1).value < p + QuestionMarkerLength(t, p).value {
      MarkersDoNotOverlap(t, p, NextSplit(t, p + 1).value);
    }
  }

  /** The piece that starts at a split point opens with the whole marker. */
  lemma PieceAtSplitOpensWithMarker(t: string, p: nat)
    requires p < |t| && SplitAt(t, p)
    ensures SplitAt(PiecesFrom(t, p, p + 1)[0], 0)
  {
    var w := if WordAt(t, p, "question:") then "question:" else "tanong:";
    var end := match NextSplit(t, p + 1) case None => |t| case Some(q) => q;
    NextSplitAfterMarker(t, p);
    assert PiecesFrom(t, p, p + 1)[0] == t[p..end];
    WordAtSlice(t, p, end, w);
  }

  /** A split at `e` cuts the piece from `x` to `e`, and the split goes
      on from `e`. */
  lemma PiecesStep(t: string, x: nat, f: nat, e: nat)
    requires x <= f <= e < |t| && NextSplit(t, f) == Some(e)
    ensures PiecesFrom(t, x, f) == [t[x..e]] + PiecesFrom(t, e, e + 1)
  {
  }

  /** Every piece after the first opens with a marker. */
  lemma {:induction false} PiecesOpenWithMarkers(t: string, start: nat, from: nat)
    requires start <= from <= |t|
    ensures forall k :: 0 < k < |PiecesFrom(t, start, from)| ==> SplitAt(PiecesFrom(t, start, from)[k], 0)
    decreases |t| - from
  {
    match NextSplit(t, from)
    case None =>
    case Some(p) =>
      var r := PiecesFrom(t, start, from);
      var rest := PiecesFrom(t, p, p + 1);
      NextSplitIsSplit(t, from);
      PiecesOpenWithMarkers(t, p, p + 1);
      PieceAtSplitOpensWithMarker(t, p);
      assert r == [t[start..p]] + rest;
      forall k | 0 < k < |r|
        ensures SplitAt(r[k], 0)
      {
        assert r[k] == rest[k - 1];
      }
  }

  /** A marker inside a prefix of `t` is a marker of `t`. */
  lemma SplitInPrefix(t: string, end: nat, i: nat)
    requires end <= |t|
    ensures SplitAt(t[..end], i) ==> i < end && SplitAt(t, i)
  {
    var b := t[..end];
    if WordAt(b, i, "question:") {
      assert b[i..i + 9] == t[i..i + 9];
    }
    if WordAt(b, i, "tanong:") {
      assert b[i..i + 7] == t[i..i + 7];
    }
  }

  /** The text before the first marker holds no marker, so its block
      never matches the question pattern. */
  lemma FirstBlockYieldsNothing(t: string)
    ensures BlockQuestion(Blocks(t)[0]).None?
  {
    var b := Blocks(t)[0];
    var end := match NextSplit(t, 0) case None => |t| case Some(p) => p;
    NextSplitIsFirst(t, 0);
    assert b == t[..end];
    forall i | 0 <= i
      ensures !SplitAt(b, i)
    {
      SplitInPrefix(t, end, i);
    }
    assert FindQuestion(b, 0).None?;
  }

  lemma {:induction false} QuestionsAppend(a: seq<string>, b: seq<string>)
    ensures Questions(a + b) == Questions(a) + Questions(b)
    decreases |a|
  {
    if |a| == 0 {
      assert a + b == b;
    } else {
      assert (a + b)[1..] == a[1..] + b;
      QuestionsAppend(a[1..], b);
    }
  }

  /** The parse is the blocks' questions in block order: each block
      contributes the question it yields, or nothing. */
  lemma QuestionsOfOneBlock(b: string)
    ensures Questions([b]) == match BlockQuestion(b) case None => [] case Some(q) => [q]
  {
    assert [b][1..] == [];
  }
}
