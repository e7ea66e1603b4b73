/**
 * `FlashcardUtils.parseFlashcards`: every match of the multi-line, dot-all
 * pattern
 *
 *     ^Q:\s*(.+?)\r?\nA:\s*(.+?)(?=(\r?\nQ:)|\z)
 *
 * found left to right, with both groups trimmed and a card kept only when
 * neither trimmed group is empty.
 *
 * The pattern is not interpreted by a regex engine here: `MatchAt` is a direct
 * scanner that picks, at one start position, exactly the groups the
 * backtracking matcher reports (greedy `\s*`, lazy `(.+?)`, optional `\r`).
 */
module FlashcardParser {
  import opened KotlinStd
  import opened Model
  import opened RegexScan

  /** One match of the pattern: it starts at `start` (the `Q`), its `\nA:`
      is at `marker`, and it ends at `end`, where the answer's lookahead holds. */
  datatype Match = Match(start: nat, marker: nat, question: string, answer: string, end: nat)

  // ---------------------------------------------------------------------
  // The fixed pieces of the pattern
  // ---------------------------------------------------------------------

  /** `^` in multi-line mode: the start of the input or just after a line terminator. */
  predicate LineStart(s: string, i: nat) {
    i <= |s| && (i == 0 || IsLineBreak(s[i - 1]))
  }

  /** `^Q:` matches at `i`. */
  predicate QuestionMarkerAt(s: string, i: nat) {
    i + 2 <= |s| && LineStart(s, i) && s[i] == 'Q' && s[i + 1] == ':'
  }

  /** `\nA:` at `t` with at least one character after it: the answer part
      `\s*(.+?)` needs one character, and with nothing left the whole match
      at this `\nA:` fails. */
  predicate AnswerMarkerAt(s: string, t: nat) {
    t + 3 < |s| && s[t] == '\n' && s[t + 1] == 'A' && s[t + 2] == ':'
  }

  /** `\nQ:` at `p`. */
  predicate NextQuestionAt(s: string, p: nat) {
    p + 3 <= |s| && s[p] == '\n' && s[p + 1] == 'Q' && s[p + 2] == ':'
  }

  /** The lookahead `(?=(\r?\nQ:)|\z)` holds at `p`. */
  predicate AnswerStopAt(s: string, p: nat) {
    p == |s| || NextQuestionAt(s, p) || (p < |s| && s[p] == '\r' && NextQuestionAt(s, p + 1))
  }

  // ---------------------------------------------------------------------
  // Scanners
  // ---------------------------------------------------------------------

  /** The first `\nA:` (with a character after it) at or after `from`. */
  function FindAnswerMarker(s: string, from: nat): (r: Option<nat>)
    ensures r.Some? ==> from <= r.value && AnswerMarkerAt(s, r.value)
    ensures forall t :: from <= t && (r.None? || t < r.value) ==> !AnswerMarkerAt(s, t)
    decreases |s| - from
  {
    if from + 3 >= |s| then None
    else if AnswerMarkerAt(s, from) then Some(from)
    else FindAnswerMarker(s, from + 1)
  }

  /** The first position at or after `from` where the answer's lookahead holds. */
  function FindStop(s: string, from: nat): (r: nat)
    requires from <= |s|
    ensures from <= r <= |s| && AnswerStopAt(s, r)
    ensures forall p :: from <= p < r ==> !AnswerStopAt(s, p)
    decreases |s| - from
  {
    if AnswerStopAt(s, from) then from else FindStop(s, from + 1)
  }

  /** `A:\s*(.+?)(?=…)` after the `\n` at `marker`. The greedy `\s*` takes
      every space; when only spaces are left it gives one back, which the
      lazy group then captures and the `\z` alternative accepts. */
  function AnswerPart(s: string, start: nat, marker: nat, question: string): (m: Match)
    requires AnswerMarkerAt(s, marker)
    ensures m.start == start && m.marker == marker && m.question == question
    ensures marker + 3 < m.end <= |s| && AnswerStopAt(s, m.end)
    ensures 0 < |m.answer| <= m.end - (marker + 3)
    ensures m.answer == s[m.end - |m.answer|..m.end]
    ensures forall p :: m.end - |m.answer| < p < m.end ==> !AnswerStopAt(s, p)
    ensures NextQuestionAt(s, m.end) ==> m.answer[|m.answer| - 1] != '\r'
  {
    var a := SkipSpaces(s, marker + 3);
    if a == |s| then Match(start, marker, question, s[|s| - 1..], |s|)
    else
      var p := FindStop(s, a + 1);
      assert NextQuestionAt(s, p) && s[p - 1] == '\r' && a + 1 <= p - 1 ==> AnswerStopAt(s, p - 1);
      Match(start, marker, question, s[a..p], p)
  }

  /** The match of the pattern that starts at `i`, if any.
      With `g` the end of the greedy `\s*` after `Q:`, the lazy question
      group grows from `g` until the first `\r?\nA:` that leaves it
      non-empty. If there is none, the matcher backtracks into `\s*`; the
      only shorter run that can succeed is the one ending at `g - 2`, when the
      last space taken is the `\n` of a `\nA:` and the group is the space
      before it. */
  function MatchAt(s: string, i: nat): (r: Option<Match>)
    ensures r.Some? ==> QuestionMarkerAt(s, i) && r.value.start == i
    ensures r.Some? ==> i + 3 <= r.value.marker && AnswerMarkerAt(s, r.value.marker)
    ensures r.Some? ==> r.value.marker + 3 < r.value.end <= |s| && AnswerStopAt(s, r.value.end)
  {
    if !QuestionMarkerAt(s, i) then None
    else
      var g := SkipSpaces(s, i + 2);
      match FindAnswerMarker(s, g + 1)
      case Some(t) =>
        var q := if s[t - 1] == '\r' && t - 1 > g then s[g..t - 1] else s[g..t];
        Some(AnswerPart(s, i, t, q))
      case None =>
        if g >= i + 4 && AnswerMarkerAt(s, g - 1) then Some(AnswerPart(s, i, g - 1, s[g - 2..g - 1]))
        else None
  }

  /** `find` from `from`: the match with the least start at or after `from`. */
  function NextMatch(s: string, from: nat): (r: Option<Match>)
    ensures r.Some? ==> from <= r.value.start < r.value.end <= |s| && QuestionMarkerAt(s, r.value.start)
    ensures r.Some? ==> MatchAt(s, r.value.start) == r
    ensures forall i :: from <= i && (r.None? || i < r.value.start) ==> MatchAt(s, i).None?
    decreases |s| - from
  {
    if from + 2 > |s| then None
    else
      match MatchAt(s, from)
      case Some(m) => Some(m)
      case None => NextMatch(s, from + 1)
  }

  /** `findAll` from `from`: each search resumes where the previous match ended. */
  function Matches(s: string, from: nat): seq<Match>
    decreases |s| - from
  {
    match NextMatch(s, from)
    case None => []
    case Some(m) => [m] + Matches(s, m.end)
  }

  lemma MatchesUnfold(s: string, from: nat)
    ensures |Matches(s, from)| > 0 <==> NextMatch(s, from).Some?
    ensures |Matches(s, from)| > 0 ==>
      var m := NextMatch(s, from).value;
      Matches(s, from)[0] == m && Matches(s, from)[1..] == Matches(s, m.end)
  {
  }

  // ---------------------------------------------------------------------
  // From matches to cards
  // ---------------------------------------------------------------------

  predicate Kept(m: Match) {
    Trim(m.question) != [] && Trim(m.answer) != []
  }

  function CardOf(m: Match): Flashcard {
    Flashcard(Trim(m.question), Trim(m.answer))
  }

  /** What every returned card satisfies: both texts non-empty and trimmed. */
  predicate CleanCard(c: Flashcard) {
    c.question != [] && c.answer != [] && IsTrimmed(c.question) && IsTrimmed(c.answer)
  }

  function Cards(ms: seq<Match>): (cards: seq<Flashcard>)
    ensures |cards| <= |ms|
    ensures forall k :: 0 <= k < |cards| ==> CleanCard(cards[k])
    decreases |ms|
  {
    if |ms| == 0 then []
    else (if Kept(ms[0]) then [CardOf(ms[0])] else []) + Cards(ms[1..])
  }

  /** The positions in `ms` of the matches `Cards` keeps, in order. */
  function KeptIndices(ms: seq<Match>): (r: seq<nat>)
    ensures forall k :: 0 <= k < |r| ==> r[k] < |ms|
    decreases |ms|
  {
    if |ms| == 0 then []
    else
      (if Kept(ms[0]) then [0] else []) + Successors(KeptIndices(ms[1..]))
  }

  function Successors(t: seq<nat>): (r: seq<nat>)
    ensures |r| == |t| && forall k :: 0 <= k < |t| ==> r[k] == t[k] + 1
  {
    seq(|t|, k requires 0 <= k < |t| => t[k] + 1)
  }

  /** The number of line-start `Q:` markers at or after `from`. */
  function MarkersFrom(s: string, from: nat): nat
    decreases |s| - from
  {
    if from >= |s| then 0 else Indicator(QuestionMarkerAt(s, from)) + MarkersFrom(s, from + 1)
  }

  /** `parseFlashcards`. */
  function Parse(raw: string): (cards: seq<Flashcard>)
    ensures forall k :: 0 <= k < |cards| ==> CleanCard(cards[k])
    ensures forall k :: 0 <= k < |cards| ==> Trim(cards[k].question) == cards[k].question && Trim(cards[k].answer) == cards[k].answer
    ensures |cards| <= MarkersFrom(raw, 0)
  {
    MatchesAtMostMarkers(raw, 0);
    Cards(Matches(raw, 0))
  }

  /** Where the `Q:` of each returned card is. */
  function CardStarts(raw: string): (r: seq<nat>) {
    var ms := Matches(raw, 0);
    var idx := KeptIndices(ms);
    seq(|idx|, k requires 0 <= k < |idx| => ms[idx[k]].start)
  }

  // ---------------------------------------------------------------------
  // Properties of the parser
  // ---------------------------------------------------------------------

  lemma {:induction false} MarkersFromMonotone(s: string, a: nat, b: nat)
    requires a <= b
    ensures MarkersFrom(s, b) <= MarkersFrom(s, a)
    decreases b - a
  {
    if a < b && a < |s| {
      MarkersFromMonotone(s, a + 1, b);
    }
  }

  /** Each match consumes a distinct line-start `Q:`. */
  lemma MatchesAtMostMarkers(s: string, from: nat)
    ensures |Matches(s, from)| <= MarkersFrom(s, from)
  {
    MatchesAreMatches(s, from);
    MatchesOrdered(s, from);
    StartsAtMostMarkers(s, from, Matches(s, from));
  }

  /** Non-overlapping spans, each starting at a line-start `Q:` at or after
      `from`, are at most as many as those markers. */
  lemma {:induction false} StartsAtMostMarkers(s: string, from: nat, ms: seq<Match>)
    requires forall k :: 0 <= k < |ms| ==> from <= ms[k].start < ms[k].end && QuestionMarkerAt(s, ms[k].start)
    requires forall j, k :: 0 <= j < k < |ms| ==> ms[j].end <= ms[k].start
    ensures |ms| <= MarkersFrom(s, from)
    decreases |ms|
  {
    if |ms| > 0 {
      var m := ms[0];
      var rest := ms[1..];
      assert forall k :: 0 <= k < |rest| ==> rest[k] == ms[k + 1];
      StartsAtMostMarkers(s, m.end, rest);
      MarkersFromMonotone(s, m.start + 1, m.end);
      MarkersFromMonotone(s, from, m.start);
      assert MarkersFrom(s, m.start) == 1 + MarkersFrom(s, m.start + 1);
    }
  }

  /** Each element of `Matches` is the match `MatchAt` finds at a
      line-start `Q:` at or after `from`. */
  lemma {:induction false} MatchesAreMatches(s: string, from: nat)
    ensures forall k :: 0 <= k < |Matches(s, from)| ==>
      var m := Matches(s, from)[k];
      from <= m.start < m.end <= |s| && QuestionMarkerAt(s, m.start) && MatchAt(s, m.start) == Some(m)
    decreases |s| - from
  {
    var ms := Matches(s, from);
    MatchesUnfold(s, from);
    if |ms| > 0 {
      MatchesAreMatches(s, ms[0].end);
      forall k | 1 <= k < |ms|
        ensures from <= ms[k].start < ms[k].end <= |s| && QuestionMarkerAt(s, ms[k].start) && MatchAt(s, ms[k].start) == Some(ms[k])
      {
        assert ms[k] == ms[1..][k - 1];
      }
    }
  }

  /** Matches do not overlap and come in the order of their starts. */
  lemma {:induction false} MatchesOrdered(s: string, from: nat)
    ensures forall j, k :: 0 <= j < k < |Matches(s, from)| ==> Matches(s, from)[j].end <= Matches(s, from)[k].start
    decreases |s| - from
  {
    var ms := Matches(s, from);
    MatchesUnfold(s, from);
    if |ms| > 0 {
      var rest := ms[1..];
      MatchesOrdered(s, ms[0].end);
      MatchesAreMatches(s, ms[0].end);
      forall j, k | 0 <= j < k < |ms|
        ensures ms[j].end <= ms[k].start
      {
        assert ms[k] == rest[k - 1];
        if j > 0 {
          assert ms[j] == rest[j - 1];
        }
      }
    }
  }

  lemma KeptIndicesSelectCards(ms: seq<Match>)
    ensures |KeptIndices(ms)| == |Cards(ms)|
    ensures forall k :: 0 <= k < |KeptIndices(ms)| ==> Cards(ms)[k] == CardOf(ms[KeptIndices(ms)[k]])
  {
    KeptIndicesCount(ms);
    forall k | 0 <= k < |KeptIndices(ms)|
      ensures Cards(ms)[k] == CardOf(ms[KeptIndices(ms)[k]])
    {
      KeptIndexSelectsCard(ms, k);
    }
  }

  lemma {:induction false} KeptIndicesCount(ms: seq<Match>)
    ensures |KeptIndices(ms)| == |Cards(ms)|
    decreases |ms|
  {
    if |ms| > 0 {
      KeptIndicesCount(ms[1..]);
    }
  }

  lemma {:induction false} KeptIndexSelectsCard(ms: seq<Match>, k: nat)
    requires k < |KeptIndices(ms)|
    ensures k < |Cards(ms)| && Cards(ms)[k] == CardOf(ms[KeptIndices(ms)[k]])
    decreases |ms|, 2
  {
    if Kept(ms[0]) {
      KeptHeadSelects(ms, k);
    } else {
      DroppedHeadSelects(ms, k);
    }
  }

  lemma KeptHeadSelects(ms: seq<Match>, k: nat)
    requires |ms| > 0 && Kept(ms[0]) && k < |KeptIndices(ms)|
    ensures k < |Cards(ms)| && Cards(ms)[k] == CardOf(ms[KeptIndices(ms)[k]])
    decreases |ms|, 1
  {
    KeptCons(ms);
    if k > 0 {
      var tail := ms[1..];
      var rt, ct := KeptIndices(tail), Cards(tail);
      KeptIndicesCount(tail);
      KeptTailStep(ms, tail, rt, ct, k - 1);
      ConsIndex(0, Successors(rt), k);
      ConsIndex(CardOf(ms[0]), ct, k);
    }
  }

  lemma KeptCons(ms: seq<Match>)
    requires |ms| > 0 && Kept(ms[0])
    ensures KeptIndices(ms) == [0] + Successors(KeptIndices(ms[1..]))
    ensures Cards(ms) == [CardOf(ms[0])] + Cards(ms[1..])
  {
  }

  lemma DroppedHeadSelects(ms: seq<Match>, k: nat)
    requires |ms| > 0 && !Kept(ms[0]) && k < |KeptIndices(ms)|
    ensures k < |Cards(ms)| && Cards(ms)[k] == CardOf(ms[KeptIndices(ms)[k]])
    decreases |ms|, 1
  {
    var tail := ms[1..];
    var rt, ct := KeptIndices(tail), Cards(tail);
    KeptIndicesCount(tail);
    assert KeptIndices(ms) == Successors(rt);
    assert Cards(ms) == ct;
    KeptTailStep(ms, tail, rt, ct, k);
  }

  /** The step of `KeptIndexSelectsCard` into the tail: index `j` of the
      tail's kept positions, shifted by one, selects the tail's card `j`. */
  lemma KeptTailStep(ms: seq<Match>, tail: seq<Match>, rt: seq<nat>, ct: seq<Flashcard>, j: nat)
    requires |ms| > 0 && tail == ms[1..] && rt == KeptIndices(tail) && ct == Cards(tail)
    requires j < |rt| && |rt| == |ct|
    ensures Successors(rt)[j] < |ms| && ct[j] == CardOf(ms[Successors(rt)[j]])
    decreases |ms|, 0
  {
    KeptIndexSelectsCard(tail, j);
    assert ms[rt[j] + 1] == tail[rt[j]];
  }

  lemma ConsIndex<T>(h: T, t: seq<T>, k: nat)
    requires 0 < k <= |t|
    ensures ([h] + t)[k] == t[k - 1]
  {
  }

  lemma {:induction false} KeptIndicesIncrease(ms: seq<Match>)
    ensures forall j, k :: 0 <= j < k < |KeptIndices(ms)| ==> KeptIndices(ms)[j] < KeptIndices(ms)[k]
    decreases |ms|
  {
    if |ms| > 0 {
      KeptIndicesIncrease(ms[1..]);
    }
  }

  /** Cards appear in the order of their line-start `Q:` markers: card `k`
      is the trimmed groups of the match at the `k`-th kept marker. */
  lemma CardsFollowQuestionMarkers(raw: string)
    ensures |CardStarts(raw)| == |Parse(raw)|
    ensures forall k :: 0 <= k < |CardStarts(raw)| ==>
      QuestionMarkerAt(raw, CardStarts(raw)[k]) && MatchAt(raw, CardStarts(raw)[k]).Some? &&
      Parse(raw)[k] == CardOf(MatchAt(raw, CardStarts(raw)[k]).value)
    ensures forall j, k :: 0 <= j < k < |CardStarts(raw)| ==> CardStarts(raw)[j] < CardStarts(raw)[k]
  {
    var ms := Matches(raw, 0);
    var idx := KeptIndices(ms);
    var starts := CardStarts(raw);
    MatchesOrdered(raw, 0);
    MatchesAreMatches(raw, 0);
    KeptIndicesSelectCards(ms);
    KeptIndicesIncrease(ms);
    forall j, k | 0 <= j < k < |starts|
      ensures starts[j] < starts[k]
    {
      assert ms[idx[j]].end <= ms[idx[k]].start;
    }
  }

  /** Without a line-start `Q:` followed somewhere later by `\nA:`, nothing is parsed. */
  lemma NoAnswerAfterQuestionMeansNoCards(raw: string)
    requires forall i, t :: i < t && QuestionMarkerAt(raw, i) ==> !AnswerMarkerAt(raw, t)
    ensures Parse(raw) == []
  {
    assert NextMatch(raw, 0).None?;
  }

  /** `m`'s answer is the text just before `m.end`, where the lookahead
      first holds after the answer's first character: at the next `\nQ:` or
      `\r\nQ:`, or at the end of input. The `\r` of a `\r\nQ:` is never
      part of it. */
  predicate AnswerRunsToStop(s: string, m: Match) {
    0 < |m.answer| <= m.end <= |s| &&
    m.answer == s[m.end - |m.answer|..m.end] &&
    AnswerStopAt(s, m.end) &&
    (forall p :: m.end - |m.answer| < p < m.end ==> !AnswerStopAt(s, p)) &&
    (NextQuestionAt(s, m.end) ==> m.answer[|m.answer| - 1] != '\r')
  }

  lemma MatchAtAnswerRunsToStop(s: string, i: nat)
    ensures MatchAt(s, i).Some? ==> AnswerRunsToStop(s, MatchAt(s, i).value)
  {
    if QuestionMarkerAt(s, i) {
      var g := SkipSpaces(s, i + 2);
      if FindAnswerMarker(s, g + 1).Some? {
        FoundAnswerRunsToStop(s, i, g, FindAnswerMarker(s, g + 1).value);
      } else {
        BacktrackedAnswerRunsToStop(s, i, g);
      }
    }
  }

  lemma FoundAnswerRunsToStop(s: string, i: nat, g: nat, t: nat)
    requires QuestionMarkerAt(s, i) && g == SkipSpaces(s, i + 2)
    requires FindAnswerMarker(s, g + 1) == Some(t)
    ensures MatchAt(s, i).Some? && AnswerRunsToStop(s, MatchAt(s, i).value)
  {
    MatchAtFound(s, i, g, t);
    AnswerPartRunsToStop(s, i, t, if s[t - 1] == '\r' && t - 1 > g then s[g..t - 1] else s[g..t]);
  }

  lemma BacktrackedAnswerRunsToStop(s: string, i: nat, g: nat)
    requires QuestionMarkerAt(s, i) && g == SkipSpaces(s, i + 2)
    requires FindAnswerMarker(s, g + 1).None?
    ensures MatchAt(s, i).Some? ==> AnswerRunsToStop(s, MatchAt(s, i).value)
  {
    if g >= i + 4 && AnswerMarkerAt(s, g - 1) {
      MatchAtBacktracked(s, i, g);
      AnswerPartRunsToStop(s, i, g - 1, s[g - 2..g - 1]);
    } else {
      NoMatchWithoutAnswer(s, i, g);
    }
  }

  lemma NoMatchWithoutAnswer(s: string, i: nat, g: nat)
    requires QuestionMarkerAt(s, i) && g == SkipSpaces(s, i + 2)
    requires FindAnswerMarker(s, g + 1).None? && !(g >= i + 4 && AnswerMarkerAt(s, g - 1))
    ensures MatchAt(s, i).None?
  {
  }

  lemma AnswerPartRunsToStop(s: string, start: nat, marker: nat, question: string)
    requires AnswerMarkerAt(s, marker)
    ensures AnswerRunsToStop(s, AnswerPart(s, start, marker, question))
  {
  }

  lemma AnswersRunToStop(raw: string)
    ensures forall k :: 0 <= k < |Matches(raw, 0)| ==> AnswerRunsToStop(raw, Matches(raw, 0)[k])
  {
    MatchesAreMatches(raw, 0);
    forall k | 0 <= k < |Matches(raw, 0)|
      ensures AnswerRunsToStop(raw, Matches(raw, 0)[k])
    {
      MatchAtAnswerRunsToStop(raw, Matches(raw, 0)[k].start);
    }
  }

  /** A `Q:` line with no `A:` line before the next `Q:` is not a card of its
      own: the lazy dot-all question group runs over the second `Q:` up to
      the next `\nA:`, so the second `Q:` ends up inside the first card's
      question. */
  lemma QuestionWithoutAnswerIsMerged(raw: string, i: nat, j: nat)
    requires QuestionMarkerAt(raw, i) && QuestionMarkerAt(raw, j)
    requires SkipSpaces(raw, i + 2) < j
    requires forall t :: i <= t < j + 2 ==> !AnswerMarkerAt(raw, t)
    ensures MatchAt(raw, i).Some? <==> FindAnswerMarker(raw, j + 2).Some?
    ensures MatchAt(raw, i).Some? ==>
      var m := MatchAt(raw, i).value;
      var g := SkipSpaces(raw, i + 2);
      j < m.marker && j + 2 - g <= |m.question| &&
      m.question[j - g] == 'Q' && m.question[j + 1 - g] == ':' &&
      m.end > j
  {
    var g := SkipSpaces(raw, i + 2);
    FindAnswerMarkerSkip(raw, g + 1, j + 2);
    match FindAnswerMarker(raw, j + 2)
    case Some(t) =>
      MatchAtFound(raw, i, g, t);
      MergedQuestionSlice(raw, g, j, t);
    case None =>
      assert !AnswerMarkerAt(raw, g - 1);
  }

  /** The question group from `g` to the answer marker at `t` (less a `\r`
      before it) still holds the `Q:` at `j`. */
  lemma MergedQuestionSlice(raw: string, g: nat, j: nat, t: nat)
    requires g < j && j + 2 <= t < |raw| && raw[j] == 'Q' && raw[j + 1] == ':'
    ensures var q := if raw[t - 1] == '\r' && t - 1 > g then raw[g..t - 1] else raw[g..t];
      j + 2 - g <= |q| && q[j - g] == 'Q' && q[j + 1 - g] == ':'
  {
    if raw[t - 1] == '\r' {
      assert t - 1 != j + 1;
      var q := raw[g..t - 1];
      assert q[j - g] == raw[j] && q[j + 1 - g] == raw[j + 1];
    } else {
      var q := raw[g..t];
      assert q[j - g] == raw[j] && q[j + 1 - g] == raw[j + 1];
    }
  }

  /** The merged card's question keeps the second `Q:` after trimming. */
  lemma MergedQuestionKeepsMarker(raw: string, i: nat, j: nat)
    requires QuestionMarkerAt(raw, i) && QuestionMarkerAt(raw, j)
    requires SkipSpaces(raw, i + 2) < j
    requires forall t :: i <= t < j + 2 ==> !AnswerMarkerAt(raw, t)
    requires MatchAt(raw, i).Some?
    ensures var q := CardOf(MatchAt(raw, i).value).question;
      exists k :: 0 <= k < |q| - 1 && q[k] == 'Q' && q[k + 1] == ':'
  {
    QuestionWithoutAnswerIsMerged(raw, i, j);
    var m := MatchAt(raw, i).value;
    TrimKeepsMarker(m.question, j - SkipSpaces(raw, i + 2));
  }

  /** Trimming keeps a `Q:` inside the text. */
  lemma TrimKeepsMarker(q: string, x: nat)
    requires x + 1 < |q| && q[x] == 'Q' && q[x + 1] == ':'
    ensures exists k :: 0 <= k < |Trim(q)| - 1 && Trim(q)[k] == 'Q' && Trim(q)[k + 1] == ':'
  {
    var lo := SkipWhitespace(q, 0);
    TrimKeepsNonWhitespace(q, x);
    TrimKeepsNonWhitespace(q, x + 1);
    assert Trim(q)[x - lo] == 'Q' && Trim(q)[x - lo + 1] == ':';
  }

  lemma FindAnswerMarkerSkip(s: string, a: nat, b: nat)
    requires a <= b
    requires forall t :: a <= t < b ==> !AnswerMarkerAt(s, t)
    ensures FindAnswerMarker(s, a) == FindAnswerMarker(s, b)
  {
    FindAnswerMarkerIs(s, a, FindAnswerMarker(s, b));
  }

  // ---------------------------------------------------------------------
  // The scanners are determined by their contracts
  // ---------------------------------------------------------------------

  lemma FindAnswerMarkerIs(s: string, from: nat, r: Option<nat>)
    requires r.Some? ==> from <= r.value && AnswerMarkerAt(s, r.value)
    requires forall t :: from <= t && (r.None? || t < r.value) ==> !AnswerMarkerAt(s, t)
    ensures FindAnswerMarker(s, from) == r
  {
    var r0 := FindAnswerMarker(s, from);
    assert r0.Some? ==> AnswerMarkerAt(s, r0.value);
    assert r.Some? ==> AnswerMarkerAt(s, r.value);
  }

  lemma FindStopIs(s: string, from: nat, r: nat)
    requires from <= r <= |s| && AnswerStopAt(s, r)
    requires forall p :: from <= p < r ==> !AnswerStopAt(s, p)
    ensures FindStop(s, from) == r
  {
    var r0 := FindStop(s, from);
    assert AnswerStopAt(s, r0) && AnswerStopAt(s, r);
  }

  // The result of `MatchAt` and `AnswerPart` once their scans are known;
  // callers use these instead of unfolding the bodies in a large context.

  lemma MatchAtFound(s: string, i: nat, g: nat, t: nat)
    requires QuestionMarkerAt(s, i) && g == SkipSpaces(s, i + 2)
    requires FindAnswerMarker(s, g + 1) == Some(t)
    ensures MatchAt(s, i) ==
      Some(AnswerPart(s, i, t, if s[t - 1] == '\r' && t - 1 > g then s[g..t - 1] else s[g..t]))
  {
  }

  lemma MatchAtBacktracked(s: string, i: nat, g: nat)
    requires QuestionMarkerAt(s, i) && g == SkipSpaces(s, i + 2)
    requires FindAnswerMarker(s, g + 1).None? && g >= i + 4 && AnswerMarkerAt(s, g - 1)
    ensures MatchAt(s, i) == Some(AnswerPart(s, i, g - 1, s[g - 2..g - 1]))
  {
  }

  lemma AnswerPartStops(s: string, start: nat, marker: nat, question: string, a: nat, p: nat)
    requires AnswerMarkerAt(s, marker) && a == SkipSpaces(s, marker + 3) && a < |s|
    requires p == FindStop(s, a + 1)
    ensures AnswerPart(s, start, marker, question) == Match(start, marker, question, s[a..p], p)
  {
  }

  /** `MatchAt` when the question group ends cleanly at the first answer
      marker and the answer runs to a stop; `q` and `ans` name the groups. */
  lemma MatchAtScanned(s: string, i: nat, g: nat, t: nat, a: nat, p: nat, q: string, ans: string)
    requires QuestionMarkerAt(s, i) && g == SkipSpaces(s, i + 2)
    requires FindAnswerMarker(s, g + 1) == Some(t) && s[t - 1] != '\r'
    requires a == SkipSpaces(s, t + 3) && a < |s| && p == FindStop(s, a + 1)
    requires s[g..t] == q && s[a..p] == ans
    ensures MatchAt(s, i) == Some(Match(i, t, q, ans, p))
  {
    MatchAtFound(s, i, g, t);
    AnswerPartStops(s, i, t, s[g..t], a, p);
  }

  lemma NextMatchHere(s: string, x: nat)
    requires MatchAt(s, x).Some?
    ensures NextMatch(s, x) == MatchAt(s, x)
  {
  }

  lemma NextMatchPastNewline(s: string, x: nat)
    requires x < |s| && s[x] == '\n'
    ensures NextMatch(s, x) == NextMatch(s, x + 1)
  {
    assert MatchAt(s, x).None?;
  }
}
