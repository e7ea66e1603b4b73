/**
 * The text format the quiz generator's English prompt asks the model for —
 * each question a "Question:" line, one "A."…"D." line per option and an
 * "Answer:" line with the letter, questions one after the other — and the
 * proof that parsing it gives back the questions.
 *
 * Three facts carry the proof. The only colons of a rendered block are
 * those of its two labels, which rules out every other marker match. The
 * only `[A-Da-d][.)]` of a block are the option labels, which rules out
 * every other option match. And the split, the option scan and both `find`s
 * skip regions without a match, so each can be followed region by region.
 */
module QuizRender {
  import opened KotlinStd
  import opened Model
  import opened RegexScan
  import opened QuizParser

  // ---------------------------------------------------------------------
  // The format
  // ---------------------------------------------------------------------

  /** No option label `[A-Da-d][.)]` inside `t`. */
  predicate NoChoice(t: string) {
    forall j, k :: 0 <= j < |t| && 0 <= k < |t| && k == j + 1 ==> !(IsChoiceLetter(t[j]) && (t[k] == '.' || t[k] == ')'))
  }

  /** A question or option text that survives the round trip: non-empty,
      trimmed, on one line, without a colon and without an option label. */
  predicate RenderableText(t: string) {
    t != [] && IsTrimmed(t) && NoLineBreak(t) && ':' !in t && NoChoice(t)
  }

  /** A question that survives the round trip: renderable texts, one to four
      options, a correct answer among them and no answer given. */
  predicate Renderable(q: QuizQuestion) {
    RenderableText(q.question) && 0 < |q.options| <= 4 &&
    (forall k :: 0 <= k < |q.options| ==> RenderableText(q.options[k])) &&
    q.correctAnswer in q.options && q.userAnswer.None?
  }

  /** The position of the first `x` in `xs`. */
  function FirstIndex(xs: seq<string>, x: string): (k: nat)
    requires x in xs
    ensures k < |xs| && xs[k] == x
    ensures forall j :: 0 <= j < k ==> xs[j] != x
  {
    if xs[0] == x then 0 else 1 + FirstIndex(xs[1..], x)
  }

  /** The label letter of option `k`. */
  function Letter(k: nat): (c: char)
    requires k < 4
    ensures IsChoiceLetter(c) && LetterIndex(c) == k
  {
    "ABCD"[k]
  }

  function AnswerLetter(q: QuizQuestion): char
    requires Renderable(q)
  {
    Letter(FirstIndex(q.options, q.correctAnswer))
  }

  /** "A. <option>\n" and so on, from option `k` on. */
  function OptionLines(opts: seq<string>, k: nat): string
    requires |opts| <= 4
    decreases |opts| - k
  {
    if k >= |opts| then [] else OptionLine(k, opts[k]) + OptionLines(opts, k + 1)
  }

  function BlockText(q: QuizQuestion): string
    requires Renderable(q)
  {
    "Question: " + q.question + "\n" + OptionLines(q.options, 0) + "Answer: " + [AnswerLetter(q)]
  }

  /** The questions' blocks, separated by a newline. */
  function Render(qs: seq<QuizQuestion>): string
    requires forall k :: 0 <= k < |qs| ==> Renderable(qs[k])
    decreases |qs|
  {
    if |qs| == 0 then []
    else if |qs| == 1 then BlockText(qs[0])
    else BlockText(qs[0]) + "\n" + Render(qs[1..])
  }

  // ---------------------------------------------------------------------
  // Characters of a block
  // ---------------------------------------------------------------------

  /** Where the option lines of `q`'s block start. */
  function LinesStart(q: QuizQuestion): nat {
    11 + |q.question|
  }

  /** Where the answer label of `q`'s block starts. */
  function AnswerStart(q: QuizQuestion): nat
    requires Renderable(q)
  {
    LinesStart(q) + |OptionLines(q.options, 0)|
  }

  /** The two halves of a concatenation, as slices. */
  lemma Halves(s: string, u: string, v: string)
    requires s == u + v
    ensures s[..|u|] == u && s[|u|..] == v
  {
  }

  /** The pieces of `q`'s block followed by `tail`, as slices. */
  lemma BlockSlices(b: string, q: QuizQuestion, tail: string)
    requires Renderable(q) && b == BlockText(q) + tail
    ensures |BlockText(q)| == AnswerStart(q) + 9
    ensures b[..10] == "Question: "
    ensures b[10..10 + |q.question|] == q.question && b[10 + |q.question|] == '\n'
    ensures b[LinesStart(q)..] == OptionLines(q.options, 0) + ("Answer: " + [AnswerLetter(q)] + tail)
    ensures b[AnswerStart(q)..] == "Answer: " + [AnswerLetter(q)] + tail
    ensures b[AnswerStart(q)..AnswerStart(q) + 9] == "Answer: " + [AnswerLetter(q)]
    ensures b[AnswerStart(q) + 9..] == tail
  {
    var n, lines := |q.question|, OptionLines(q.options, 0);
    var a := AnswerStart(q);
    var head := "Question: " + q.question + "\n";
    var last := "Answer: " + [AnswerLetter(q)];
    var rest := lines + (last + tail);
    assert b == head + rest;
    Halves(b, head, rest);
    Halves(head, "Question: " + q.question, "\n");
    Halves("Question: " + q.question, "Question: ", q.question);
    assert b[10..10 + n] == head[10..10 + n];
    Halves(rest, lines, last + tail);
    assert b[a..] == last + tail;
    Halves(last + tail, last, tail);
  }

  // ---------------------------------------------------------------------
  // The options of a block
  // ---------------------------------------------------------------------

  /** The option pattern matches nowhere in `[from, e)`. */
  predicate NoOptionIn(s: string, from: nat, e: nat)
    decreases e - from
  {
    from >= e || (OptionAt(s, from).None? && NoOptionIn(s, from + 1, e))
  }

  /** The option scan steps over a position where the pattern does not
      match. */
  lemma ScanSkipsOne(s: string, from: nat)
    requires from < |s| && OptionAt(s, from).None?
    ensures OptionTexts(s, from) == OptionTexts(s, from + 1)
  {
  }

  /** The option scan passes over a region where the option pattern does
      not match. */
  lemma {:induction false} OptionScanSkips(s: string, from: nat, e: nat)
    requires from <= e <= |s| && NoOptionIn(s, from, e)
    ensures OptionTexts(s, from) == OptionTexts(s, e)
    decreases e - from
  {
    if from < e {
      OptionScanSkips(s, from + 1, e);
      ScanSkipsOne(s, from);
    }
  }

  /** Without an option label, the option pattern matches nowhere. */
  lemma {:induction false} NoLabelNoOption(s: string, from: nat, e: nat)
    requires forall p :: from <= p < e ==> !ChoiceAt(s, p)
    ensures NoOptionIn(s, from, e)
    decreases e - from
  {
    if from < e {
      NoLabelNoOption(s, from + 1, e);
    }
  }

  /** "A. <option>\n" for option `k`. */
  function OptionLine(k: nat, o: string): string
    requires k < 4
  {
    [Letter(k)] + ". " + o + "\n"
  }

  /** An option line is one match of the option pattern, ending after its
      newline. */
  lemma OptionLineMatch(s: string, y: nat, k: nat, o: string)
    requires k < 4 && RenderableText(o)
    requires y + 4 + |o| <= |s| && s[y..y + 4 + |o|] == OptionLine(k, o)
    ensures OptionAt(s, y) == Some(OptionMatch(o, y + 4 + |o|))
  {
    var t := s[y..y + 4 + |o|];
    var n := |o|;
    assert t[0] == Letter(k) && t[1] == '.' && t[2] == ' ' && t[3 + n] == '\n';
    assert t[3..3 + n] == o;
    forall i | 0 <= i < n
      ensures s[y + 3 + i] == o[i]
    {
      assert s[y + 3 + i] == t[3 + i];
    }
    assert s[y + 3..y + 3 + n] == o;
    assert ChoiceAt(s, y);
    assert s[y + 3] == o[0];
    SkipSpacesIs(s, y + 2, y + 3);
    LineEndIs(s, y + 3, y + 3 + n);
    assert GroupEndsAt(s, y + 3, true);
  }

  /** The option lines from option `k` on sit in `s` from `y`, one after the
      other. */
  predicate LinesLaidOut(s: string, y: nat, opts: seq<string>, k: nat)
    decreases |opts| - k
  {
    k >= |opts| ||
    (k < 4 && y + 4 + |opts[k]| <= |s| && s[y..y + 4 + |opts[k]|] == OptionLine(k, opts[k]) &&
     LinesLaidOut(s, y + 4 + |opts[k]|, opts, k + 1))
  }

  /** The option lines from option `k` on, laid out from `y`, are matched
      one after the other. */
  predicate LinesMatched(s: string, y: nat, opts: seq<string>, k: nat)
    decreases |opts| - k
  {
    k >= |opts| ||
    (OptionAt(s, y) == Some(OptionMatch(opts[k], y + 4 + |opts[k]|)) && LinesMatched(s, y + 4 + |opts[k]|, opts, k + 1))
  }

  /** Where the option lines from option `k` on end when laid out from `y`. */
  function LinesEnd(y: nat, opts: seq<string>, k: nat): nat
    decreases |opts| - k
  {
    if k >= |opts| then y else LinesEnd(y + 4 + |opts[k]|, opts, k + 1)
  }

  /** The first option line and the lines after it. */
  lemma OptionLinesCons(opts: seq<string>, k: nat)
    requires |opts| <= 4 && k < |opts|
    ensures OptionLines(opts, k) == OptionLine(k, opts[k]) + OptionLines(opts, k + 1)
    ensures |OptionLine(k, opts[k])| == 4 + |opts[k]|
  {
  }

  /** A line at `y` and what follows it, as slices. */
  lemma LineThenRest(s: string, y: nat, line: string, after: string)
    requires y <= |s| && s[y..] == line + after
    ensures y + |line| <= |s| && s[y..y + |line|] == line && s[y + |line|..] == after
  {
    Halves(s[y..], line, after);
    assert s[y..y + |line|] == s[y..][..|line|];
  }

  /** The rendered option lines are laid out line by line. */
  lemma {:induction false} RenderedLinesLaidOut(s: string, y: nat, opts: seq<string>, k: nat, rest: string)
    requires |opts| <= 4
    requires y <= |s| && s[y..] == OptionLines(opts, k) + rest
    ensures LinesLaidOut(s, y, opts, k) && LinesEnd(y, opts, k) == y + |OptionLines(opts, k)|
    decreases |opts| - k
  {
    if k < |opts| {
      var line, more := OptionLine(k, opts[k]), OptionLines(opts, k + 1);
      OptionLinesCons(opts, k);
      assert OptionLines(opts, k) + rest == line + (more + rest);
      LineThenRest(s, y, line, more + rest);
      RenderedLinesLaidOut(s, y + |line|, opts, k + 1, rest);
    }
  }

  /** Laid-out option lines are matched. */
  lemma {:induction false} LaidOutLinesMatched(s: string, y: nat, opts: seq<string>, k: nat)
    requires forall j :: 0 <= j < |opts| ==> RenderableText(opts[j])
    requires LinesLaidOut(s, y, opts, k)
    ensures LinesMatched(s, y, opts, k)
    decreases |opts| - k
  {
    if k < |opts| {
      OptionLineMatch(s, y, k, opts[k]);
      LaidOutLinesMatched(s, y + 4 + |opts[k]|, opts, k + 1);
    }
  }

  /** A match found by the scan is collected, and the scan resumes at its end. */
  lemma ScanTakesMatch(s: string, y: nat, m: OptionMatch)
    requires OptionAt(s, y) == Some(m)
    ensures OptionTexts(s, y) == [m.text] + OptionTexts(s, m.end)
  {
  }

  lemma HeadThenSlice<T>(xs: seq<T>, k: nat, after: seq<T>)
    requires k < |xs|
    ensures [xs[k]] + (xs[k + 1..] + after) == xs[k..] + after
  {
    assert xs[k..] == [xs[k]] + xs[k + 1..];
  }

  /** The option scan over matched lines collects their options, in order. */
  lemma {:induction false} MatchedLinesScan(s: string, y: nat, opts: seq<string>, k: nat)
    requires k <= |opts| && LinesMatched(s, y, opts, k)
    ensures OptionTexts(s, y) == opts[k..] + OptionTexts(s, LinesEnd(y, opts, k))
    decreases |opts| - k
  {
    if k < |opts| {
      var e := y + 4 + |opts[k]|;
      MatchedLinesScan(s, e, opts, k + 1);
      ScanTakesMatch(s, y, OptionMatch(opts[k], e));
      HeadThenSlice(opts, k, OptionTexts(s, LinesEnd(e, opts, k + 1)));
    } else {
      assert opts[k..] == [];
    }
  }

  /** What may follow a block in the rendered text: nothing, or the newline
      before the next block. */
  predicate BlockTail(tail: string) {
    tail == [] || tail == "\n"
  }

  /** No option label stands before the option lines: the question label
      has no choice letter, the question text has no label of its own, and
      its last letter is followed by the newline. */
  lemma HeadHasNoLabel(b: string, q: QuizQuestion, tail: string)
    requires Renderable(q) && b == BlockText(q) + tail
    ensures forall p :: 0 <= p < LinesStart(q) ==> !ChoiceAt(b, p)
  {
    var n := |q.question|;
    BlockSlices(b, q, tail);
    forall p | 0 <= p < LinesStart(q)
      ensures !ChoiceAt(b, p)
    {
      if p < 10 {
        assert b[p] == "Question: "[p];
      } else if p < 10 + n - 1 {
        assert b[p] == q.question[p - 10] && b[p + 1] == q.question[p - 10 + 1];
      } else if p == 10 + n - 1 {
        assert b[p + 1] == '\n';
      } else {
        assert b[p] == '\n';
      }
    }
  }

  /** No option label stands in the answer line or after it: the letter is
      followed by a newline or by nothing. */
  lemma TailHasNoLabel(b: string, q: QuizQuestion, tail: string)
    requires Renderable(q) && b == BlockText(q) + tail && BlockTail(tail)
    ensures forall p :: AnswerStart(q) <= p < |b| ==> !ChoiceAt(b, p)
  {
    var a := AnswerStart(q);
    BlockSlices(b, q, tail);
    var last := "Answer: " + [AnswerLetter(q)] + tail;
    assert b[a..] == last;
    forall p | a <= p < |b|
      ensures !ChoiceAt(b, p)
    {
      assert b[p] == last[p - a];
      if p + 1 < |b| {
        assert b[p + 1] == last[p - a + 1];
      }
    }
  }

  /** The option scan of a rendered block passes over its question line. */
  lemma HeadScan(b: string, q: QuizQuestion, tail: string)
    requires Renderable(q) && b == BlockText(q) + tail
    ensures LinesStart(q) <= |b| && OptionTexts(b, 0) == OptionTexts(b, LinesStart(q))
  {
    BlockSlices(b, q, tail);
    HeadHasNoLabel(b, q, tail);
    NoLabelNoOption(b, 0, LinesStart(q));
    OptionScanSkips(b, 0, LinesStart(q));
  }

  /** The option scan of a rendered block collects its option lines and
      goes on at the answer line. */
  lemma LinesScan(b: string, q: QuizQuestion, tail: string)
    requires Renderable(q) && b == BlockText(q) + tail
    ensures OptionTexts(b, LinesStart(q)) == q.options + OptionTexts(b, AnswerStart(q))
  {
    var y := LinesStart(q);
    BlockSlices(b, q, tail);
    RenderedLinesLaidOut(b, y, q.options, 0, "Answer: " + [AnswerLetter(q)] + tail);
    LaidOutLinesMatched(b, y, q.options, 0);
    MatchedLinesScan(b, y, q.options, 0);
    assert q.options[0..] == q.options;
  }

  /** The option scan of a rendered block finds nothing from its answer
      line on. */
  lemma TailScan(b: string, q: QuizQuestion, tail: string)
    requires Renderable(q) && b == BlockText(q) + tail && BlockTail(tail)
    ensures OptionTexts(b, AnswerStart(q)) == []
  {
    BlockSlices(b, q, tail);
    TailHasNoLabel(b, q, tail);
    NoLabelNoOption(b, AnswerStart(q), |b|);
    OptionScanSkips(b, AnswerStart(q), |b|);
  }

  /** The option scan of a rendered block collects exactly its options. */
  lemma BlockOptionTexts(b: string, q: QuizQuestion, tail: string)
    requires Renderable(q) && b == BlockText(q) + tail && BlockTail(tail)
    ensures OptionTexts(b, 0) == q.options
  {
    HeadScan(b, q, tail);
    LinesScan(b, q, tail);
    TailScan(b, q, tail);
    assert q.options + [] == q.options;
  }

  /** The options of a rendered block, trimmed, are its options. */
  lemma BlockOptions(b: string, q: QuizQuestion, tail: string)
    requires Renderable(q) && b == BlockText(q) + tail && BlockTail(tail)
    ensures Options(b) == q.options
  {
    BlockOptionTexts(b, q, tail);
  }

  // ---------------------------------------------------------------------
  // The question of a block
  // ---------------------------------------------------------------------

  /** `"Question:"`, in any case, at `p`. */
  lemma QuestionLabelAt(b: string, p: nat)
    requires p + 9 <= |b| && b[p..p + 9] == "Question:"
    ensures WordAt(b, p, "question:")
  {
  }

  /** `"Answer:"`, in any case, at `p`. */
  lemma AnswerLabelAt(b: string, p: nat)
    requires p + 7 <= |b| && b[p..p + 7] == "Answer:"
    ensures WordAt(b, p, "answer:")
  {
  }

  /** The question pattern matches at the start of a rendered block and
      captures its question. */
  lemma QuestionAtStart(b: string, q: QuizQuestion, tail: string)
    requires Renderable(q) && b == BlockText(q) + tail
    ensures QuestionAt(b, 0) == Some(q.question)
  {
    var n := |q.question|;
    BlockSlices(b, q, tail);
    assert b[0..9] == "Question:";
    QuestionLabelAt(b, 0);
    assert QuestionMarkerLength(b, 0) == Some(9);
    assert b[9] == ' ' && b[10] == q.question[0];
    SkipSpacesIs(b, 9, 10);
    forall k | 10 <= k < 10 + n
      ensures !IsLineBreak(b[k])
    {
      assert b[k] == q.question[k - 10];
    }
    LineEndIs(b, 10, 10 + n);
    assert GroupEndsAt(b, 10, false);
    assert GroupStart(b, 9, 10, false) == Some(10);
  }

  /** The question `find` of a rendered block gives its question. */
  lemma BlockFindsQuestion(b: string, q: QuizQuestion, tail: string)
    requires Renderable(q) && b == BlockText(q) + tail
    ensures FindQuestion(b, 0) == Some(q.question)
  {
    QuestionAtStart(b, q, tail);
  }

  // ---------------------------------------------------------------------
  // The answer of a block
  // ---------------------------------------------------------------------

  /** The option lines hold no colon when the options hold none. */
  lemma {:induction false} OptionLinesHaveNoColon(opts: seq<string>, k: nat)
    requires |opts| <= 4 && forall j :: 0 <= j < |opts| ==> ':' !in opts[j]
    ensures ':' !in OptionLines(opts, k)
    decreases |opts| - k
  {
    if k < |opts| {
      OptionLinesHaveNoColon(opts, k + 1);
      OptionLinesCons(opts, k);
      assert ':' !in OptionLine(k, opts[k]);
    }
  }

  /** The only colons of a rendered block are those of its two labels. */
  lemma BlockColons(b: string, q: QuizQuestion, tail: string)
    requires Renderable(q) && b == BlockText(q) + tail
    ensures forall p :: 0 <= p < |BlockText(q)| && b[p] == ':' ==> p == 8 || p == AnswerStart(q) + 6
  {
    var n, y, a := |q.question|, LinesStart(q), AnswerStart(q);
    BlockSlices(b, q, tail);
    var lines := OptionLines(q.options, 0);
    OptionLinesHaveNoColon(q.options, 0);
    var last := "Answer: " + [AnswerLetter(q)] + tail;
    assert b[y..] == lines + last;
    forall p | 0 <= p < |BlockText(q)|
      ensures b[p] == ':' ==> p == 8 || p == a + 6
    {
      if p < 10 {
        assert b[p] == "Question: "[p];
      } else if p < y - 1 {
        assert b[p] == q.question[p - 10];
      } else if p == y - 1 {
      } else if p < a {
        assert b[p] == lines[p - y];
      } else {
        assert b[p] == last[p - a];
      }
    }
  }

  /** A character of a case-insensitive word match, stated for any position. */
  lemma WordAtCharIf(t: string, p: nat, w: string, k: nat)
    requires k < |w|
    ensures WordAt(t, p, w) ==> LowerChar(t[p + k]) == LowerChar(w[k])
  {
    if WordAt(t, p, w) {
      WordAtChar(t, p, w, k);
    }
  }

  /** The answer pattern matches nowhere before the answer label: its
      markers would need a colon where the block has none. */
  lemma NoAnswerBeforeLabel(b: string, q: QuizQuestion, tail: string, j: nat)
    requires Renderable(q) && b == BlockText(q) + tail && BlockTail(tail)
    requires j < AnswerStart(q)
    ensures AnswerAt(b, j).None?
  {
    NoAnswerWordBeforeLabel(b, q, tail, j);
    NoSagotWordBeforeLabel(b, q, tail, j);
  }

  lemma NoAnswerWordBeforeLabel(b: string, q: QuizQuestion, tail: string, j: nat)
    requires Renderable(q) && b == BlockText(q) + tail && j < AnswerStart(q)
    ensures !WordAt(b, j, "answer:")
  {
    BlockColons(b, q, tail);
    BlockSlices(b, q, tail);
    assert b[2] == 'e';
    WordAtCharIf(b, j, "answer:", 6);
    WordAtCharIf(b, j, "answer:", 0);
  }

  lemma NoSagotWordBeforeLabel(b: string, q: QuizQuestion, tail: string, j: nat)
    requires Renderable(q) && b == BlockText(q) + tail && j < AnswerStart(q)
    ensures !WordAt(b, j, "sagot:")
  {
    BlockColons(b, q, tail);
    BlockSlices(b, q, tail);
    assert b[4] == 't';
    WordAtCharIf(b, j, "sagot:", 5);
    WordAtCharIf(b, j, "sagot:", 1);
  }

  /** The answer pattern matches at the answer label and captures the
      letter of the correct option. */
  lemma AnswerAtLabel(b: string, q: QuizQuestion, tail: string)
    requires Renderable(q) && b == BlockText(q) + tail
    ensures AnswerAt(b, AnswerStart(q)) == Some(AnswerLetter(q))
  {
    var a := AnswerStart(q);
    BlockSlices(b, q, tail);
    var w := "Answer: " + [AnswerLetter(q)];
    assert b[a..a + 7] == w[..7] == "Answer:";
    AnswerLabelAt(b, a);
    assert b[a + 7] == ' ' && b[a + 8] == AnswerLetter(q);
    SkipSpacesIs(b, a + 7, a + 8);
  }

  /** The answer `find` from the start gives the match at `i` when the
      pattern matches nowhere before `i`. */
  lemma FindAnswerAt(s: string, i: nat)
    requires AnswerAt(s, i).Some? && forall j :: 0 <= j < i ==> AnswerAt(s, j).None?
    ensures FindAnswer(s, 0) == AnswerAt(s, i)
  {
    var r := FindAnswer(s, 0);
    if r.Some? {
      var k :| 0 <= k && AnswerAt(s, k) == r && forall j :: 0 <= j < k ==> AnswerAt(s, j).None?;
      assert !(k < i) && !(i < k);
    }
  }

  /** The answer `find` of a rendered block gives the correct option's
      letter. */
  lemma BlockFindsAnswer(b: string, q: QuizQuestion, tail: string)
    requires Renderable(q) && b == BlockText(q) + tail && BlockTail(tail)
    ensures FindAnswer(b, 0) == Some(AnswerLetter(q))
  {
    AnswerAtLabel(b, q, tail);
    forall j | 0 <= j < AnswerStart(q)
      ensures AnswerAt(b, j).None?
    {
      NoAnswerBeforeLabel(b, q, tail, j);
    }
    FindAnswerAt(b, AnswerStart(q));
  }

  // ---------------------------------------------------------------------
  // One block
  // ---------------------------------------------------------------------

  /** A rendered block, alone or followed by the newline before the next
      one, yields its question back. */
  lemma BlockRoundTrip(q: QuizQuestion, tail: string)
    requires Renderable(q) && BlockTail(tail)
    ensures BlockQuestion(BlockText(q) + tail) == Some(q)
  {
    var b := BlockText(q) + tail;
    BlockFindsQuestion(b, q, tail);
    BlockFindsAnswer(b, q, tail);
    BlockOptions(b, q, tail);
  }

  // ---------------------------------------------------------------------
  // Splitting the rendered text
  // ---------------------------------------------------------------------

  /** What follows a block in the rendered text: nothing, or a newline and
      more. */
  predicate OpensLine(tail: string) {
    tail == [] || tail[0] == '\n'
  }

  /** The last nine characters of a block are its answer line. */
  lemma AnswerLineChars(c: string, q: QuizQuestion, tail: string, p: nat)
    requires Renderable(q) && c == BlockText(q) + tail
    requires |BlockText(q)| - 9 <= p < |BlockText(q)|
    ensures c[p] == ("Answer: " + [AnswerLetter(q)])[p - (|BlockText(q)| - 9)]
  {
    BlockSlices(c, q, tail);
    var a := AnswerStart(q);
    assert c[p] == c[a..a + 9][p - a];
  }

  /** The option lines end with a newline. */
  lemma {:induction false} OptionLinesEndLine(opts: seq<string>, k: nat)
    requires |opts| <= 4 && k < |opts|
    ensures |OptionLines(opts, k)| > 0 && OptionLines(opts, k)[|OptionLines(opts, k)| - 1] == '\n'
    decreases |opts| - k
  {
    OptionLinesCons(opts, k);
    if k + 1 < |opts| {
      OptionLinesEndLine(opts, k + 1);
    } else {
      assert OptionLines(opts, k + 1) == [];
    }
  }

  /** The answer label opens a line. */
  lemma BeforeAnswerLabel(c: string, q: QuizQuestion, tail: string)
    requires Renderable(q) && c == BlockText(q) + tail
    ensures LinesStart(q) < AnswerStart(q) && c[AnswerStart(q) - 1] == '\n'
  {
    var y, lines := LinesStart(q), OptionLines(q.options, 0);
    BlockSlices(c, q, tail);
    OptionLinesEndLine(q.options, 0);
    assert c[AnswerStart(q) - 1] == c[y..][|lines| - 1];
  }

  /** Neither marker fits before the answer line's end: its colon would
      have to be one of the block's two, which puts a wrong letter at its
      start. */
  lemma NoMarkerInsideBlock(c: string, q: QuizQuestion, tail: string, p: nat)
    requires Renderable(q) && c == BlockText(q) + tail && 1 <= p
    ensures p + 8 < |BlockText(q)| ==> !WordAt(c, p, "question:")
    ensures p + 6 < |BlockText(q)| ==> !WordAt(c, p, "tanong:")
  {
    NoQuestionMarkerInsideBlock(c, q, tail, p);
    NoTanongMarkerInsideBlock(c, q, tail, p);
  }

  lemma NoQuestionMarkerInsideBlock(c: string, q: QuizQuestion, tail: string, p: nat)
    requires Renderable(q) && c == BlockText(q) + tail && 1 <= p
    ensures p + 8 < |BlockText(q)| ==> !WordAt(c, p, "question:")
  {
    BlockColons(c, q, tail);
    BeforeAnswerLabel(c, q, tail);
    WordAtCharIf(c, p, "question:", 8);
    WordAtCharIf(c, p, "question:", 1);
  }

  lemma NoTanongMarkerInsideBlock(c: string, q: QuizQuestion, tail: string, p: nat)
    requires Renderable(q) && c == BlockText(q) + tail && 1 <= p
    ensures p + 6 < |BlockText(q)| ==> !WordAt(c, p, "tanong:")
  {
    BlockColons(c, q, tail);
    BlockSlices(c, q, tail);
    assert c[2] == 'e' && c[AnswerStart(q)] == 'A';
    WordAtCharIf(c, p, "tanong:", 6);
    WordAtCharIf(c, p, "tanong:", 0);
  }

  /** Neither marker starts in the answer line or at the character after
      the block. */
  lemma NoMarkerAtBlockEnd(c: string, q: QuizQuestion, tail: string, p: nat)
    requires Renderable(q) && c == BlockText(q) + tail && OpensLine(tail)
    requires |BlockText(q)| - 8 <= p <= |BlockText(q)|
    ensures !WordAt(c, p, "question:") && !WordAt(c, p, "tanong:")
  {
    var n := |BlockText(q)|;
    if p < |c| {
      if p < n {
        AnswerLineChars(c, q, tail, p);
      } else {
        assert c[p] == tail[0];
      }
      assert LowerChar(c[p]) != 'q' && LowerChar(c[p]) != 't';
    }
    WordAtCharIf(c, p, "question:", 0);
    WordAtCharIf(c, p, "tanong:", 0);
  }

  /** A marker cannot start inside a block or at the newline after it, so
      a block is one piece of the split. */
  lemma NoSplitInBlock(c: string, q: QuizQuestion, tail: string, p: nat)
    requires Renderable(q) && c == BlockText(q) + tail && OpensLine(tail)
    requires 1 <= p <= |BlockText(q)|
    ensures !SplitAt(c, p)
  {
    NoMarkerInsideBlock(c, q, tail, p);
    if |BlockText(q)| - 8 <= p {
      NoMarkerAtBlockEnd(c, q, tail, p);
    }
  }

  /** A split point of the suffix from `x` is one of the whole text. */
  lemma SplitShift(t: string, x: nat, p: nat)
    requires x <= |t|
    ensures SplitAt(t, x + p) <==> SplitAt(t[x..], p)
  {
    var c := t[x..];
    if x + p + 9 <= |t| {
      assert t[x + p..x + p + 9] == c[p..p + 9];
    }
    if x + p + 7 <= |t| {
      assert t[x + p..x + p + 7] == c[p..p + 7];
    }
  }

  /** The next split is at `p` when `p` is a split point and none comes
      before it. */
  lemma NextSplitIs(t: string, from: nat, p: nat)
    requires from <= p && SplitAt(t, p) && forall j :: from <= j < p ==> !SplitAt(t, j)
    ensures NextSplit(t, from) == Some(p)
  {
    NextSplitIsFirst(t, from);
  }

  /** No split is left when no split point is. */
  lemma NoNextSplit(t: string, from: nat)
    requires forall j :: from <= j < |t| ==> !SplitAt(t, j)
    ensures NextSplit(t, from).None?
  {
    NextSplitIsFirst(t, from);
  }

  /** A rendered text of at least one question opens with its first block,
      followed by nothing or by a newline and the rest. */
  lemma RenderFirstBlock(qs: seq<QuizQuestion>)
    requires 0 < |qs| && forall k :: 0 <= k < |qs| ==> Renderable(qs[k])
    ensures |qs| == 1 ==> Render(qs) == BlockText(qs[0])
    ensures |qs| > 1 ==> Render(qs) == BlockText(qs[0]) + ("\n" + Render(qs[1..]))
  {
  }

  /** A block opens with the question marker. */
  lemma BlockOpensWithMarker(c: string, q: QuizQuestion, tail: string)
    requires Renderable(q) && c == BlockText(q) + tail
    ensures SplitAt(c, 0) && c[0] == 'Q'
  {
    BlockSlices(c, q, tail);
    assert c[0..9] == "Question:";
    QuestionLabelAt(c, 0);
  }

  /** A rendered text opens with the question marker. */
  lemma RenderOpensWithMarker(qs: seq<QuizQuestion>)
    requires 0 < |qs| && forall k :: 0 <= k < |qs| ==> Renderable(qs[k])
    ensures SplitAt(Render(qs), 0) && Render(qs)[0] == 'Q'
  {
    var tail := if |qs| == 1 then [] else "\n" + Render(qs[1..]);
    RenderFirstBlock(qs);
    assert Render(qs) == BlockText(qs[0]) + tail;
    BlockOpensWithMarker(Render(qs), qs[0], tail);
  }

  /** The blocks of a rendered text, as the split cuts them: each followed
      by its newline but the last. */
  function BlockPieces(qs: seq<QuizQuestion>): seq<string>
    requires forall k :: 0 <= k < |qs| ==> Renderable(qs[k])
    decreases |qs|
  {
    if |qs| == 0 then []
    else if |qs| == 1 then [BlockText(qs[0])]
    else [BlockText(qs[0]) + "\n"] + BlockPieces(qs[1..])
  }

  /** No split point inside a block of the text, nor at the newline after
      it. */
  lemma NoSplitWithinBlock(t: string, x: nat, q: QuizQuestion, tail: string)
    requires Renderable(q) && x <= |t| && t[x..] == BlockText(q) + tail && OpensLine(tail)
    ensures forall j :: x + 1 <= j <= x + |BlockText(q)| ==> !SplitAt(t, j)
  {
    var c := t[x..];
    forall j | x + 1 <= j <= x + |BlockText(q)|
      ensures !SplitAt(t, j)
    {
      NoSplitInBlock(c, q, tail, j - x);
      SplitShift(t, x, j - x);
    }
  }

  /** After the last block no split is left. */
  lemma LastBlockSplit(t: string, x: nat, q: QuizQuestion)
    requires Renderable(q) && x <= |t| && t[x..] == BlockText(q)
    ensures x < |t| && NextSplit(t, x + 1).None?
  {
    assert t[x..] == BlockText(q) + [];
    BlockSlices(t[x..], q, []);
    NoSplitWithinBlock(t, x, q, []);
    NoNextSplit(t, x + 1);
  }

  /** A block, its newline and the rest, as slices. */
  lemma BlockLineSlices(t: string, x: nat, b: string, r: string)
    requires x <= |t| && t[x..] == b + ("\n" + r)
    ensures x + |b| + 1 <= |t| && t[x..x + |b| + 1] == b + "\n" && t[x + |b| + 1..] == r
  {
    assert t[x..] == (b + "\n") + r;
    LineThenRest(t, x, b + "\n", r);
  }

  /** After a block `b` without split points and its newline, the next
      split is where the text `r` that follows opens with a marker. */
  lemma NextPieceAt(t: string, x: nat, b: string, r: string)
    requires x <= |t| && t[x..] == b + ("\n" + r) && SplitAt(r, 0)
    requires forall j :: x + 1 <= j <= x + |b| ==> !SplitAt(t, j)
    ensures x + |b| + 1 <= |t|
    ensures NextSplit(t, x + 1) == Some(x + |b| + 1)
    ensures t[x..x + |b| + 1] == b + "\n" && t[x + |b| + 1..] == r
  {
    BlockLineSlices(t, x, b, r);
    SplitAtSuffixStart(t, x + |b| + 1);
    NextSplitIs(t, x + 1, x + |b| + 1);
  }

  /** A marker opening the suffix from `e` is a split point at `e`. */
  lemma SplitAtSuffixStart(t: string, e: nat)
    requires e <= |t| && SplitAt(t[e..], 0)
    ensures SplitAt(t, e)
  {
    SplitShift(t, e, 0);
  }

  /** The first block's piece carries its newline when more blocks
      follow. */
  lemma BlockPiecesCons(qs: seq<QuizQuestion>)
    requires 1 < |qs| && forall k :: 0 <= k < |qs| ==> Renderable(qs[k])
    ensures BlockPieces(qs) == [BlockText(qs[0]) + "\n"] + BlockPieces(qs[1..])
  {
  }

  /** Split from the start of a rendered text (the marker there already
      passed), the pieces are its blocks. */
  lemma {:induction false} RenderPieces(t: string, x: nat, qs: seq<QuizQuestion>)
    requires 0 < |qs| && forall k :: 0 <= k < |qs| ==> Renderable(qs[k])
    requires x <= |t| && t[x..] == Render(qs)
    ensures x < |t| && PiecesFrom(t, x, x + 1) == BlockPieces(qs)
    decreases |qs|
  {
    RenderFirstBlock(qs);
    if |qs| == 1 {
      LastBlockSplit(t, x, qs[0]);
      assert PiecesFrom(t, x, x + 1) == [t[x..]];
    } else {
      var b, rest := BlockText(qs[0]), qs[1..];
      var e := x + |b| + 1;
      NoSplitWithinBlock(t, x, qs[0], "\n" + Render(rest));
      RenderOpensWithMarker(rest);
      NextPieceAt(t, x, b, Render(rest));
      RenderPieces(t, e, rest);
      PiecesStep(t, x, x + 1, e);
      BlockPiecesCons(qs);
    }
  }

  /** A block that yields a question puts it in front of the questions of
      the blocks after it. */
  lemma QuestionsCons(b: string, rest: seq<string>, q: QuizQuestion)
    requires BlockQuestion(b) == Some(q)
    ensures Questions([b] + rest) == [q] + Questions(rest)
  {
    assert ([b] + rest)[1..] == rest;
  }

  /** A block with its newline yields its question in front of the
      questions of the blocks after it. */
  lemma QuestionsOfBlockLine(q: QuizQuestion, rest: seq<string>)
    requires Renderable(q)
    ensures Questions([BlockText(q) + "\n"] + rest) == [q] + Questions(rest)
  {
    BlockRoundTrip(q, "\n");
    QuestionsCons(BlockText(q) + "\n", rest, q);
  }

  /** The last block, alone, yields its question. */
  lemma QuestionsOfLastPiece(q: QuizQuestion)
    requires Renderable(q)
    ensures Questions(BlockPieces([q])) == [q]
  {
    assert BlockText(q) + [] == BlockText(q);
    BlockRoundTrip(q, []);
    QuestionsOfOneBlock(BlockText(q));
  }

  /** Each piece yields its block's question, in order. */
  lemma {:induction false} QuestionsOfPieces(qs: seq<QuizQuestion>)
    requires forall k :: 0 <= k < |qs| ==> Renderable(qs[k])
    ensures Questions(BlockPieces(qs)) == qs
    decreases |qs|
  {
    if |qs| == 1 {
      QuestionsOfLastPiece(qs[0]);
    } else if |qs| > 1 {
      BlockPiecesCons(qs);
      QuestionsOfBlockLine(qs[0], BlockPieces(qs[1..]));
      QuestionsOfPieces(qs[1..]);
      assert qs == [qs[0]] + qs[1..];
    }
  }

  /** A rendered text ends with the last answer letter. */
  lemma {:induction false} RenderEndsWithLetter(qs: seq<QuizQuestion>)
    requires 0 < |qs| && forall k :: 0 <= k < |qs| ==> Renderable(qs[k])
    ensures |Render(qs)| > 0 && IsChoiceLetter(Render(qs)[|Render(qs)| - 1])
    decreases |qs|
  {
    var t := Render(qs);
    RenderFirstBlock(qs);
    if |qs| == 1 {
      assert t == BlockText(qs[0]) + [];
      BlockSlices(t, qs[0], []);
      assert t[|t| - 1] == t[AnswerStart(qs[0])..AnswerStart(qs[0]) + 9][8];
    } else {
      RenderEndsWithLetter(qs[1..]);
      var r := Render(qs[1..]);
      assert t == (BlockText(qs[0]) + "\n") + r;
      assert t[|t| - 1] == r[|r| - 1];
    }
  }

  /** A text needs no trimming when it opens and ends with a letter. */
  lemma LettersNeedNoTrim(t: string)
    requires |t| > 0 && t[0] == 'Q' && IsChoiceLetter(t[|t| - 1])
    ensures Trim(t) == t
  {
    assert IsTrimmed(t);
  }

  /** A rendered text needs no trimming: it opens with the question label
      and ends with an answer letter. */
  lemma RenderIsTrimmed(qs: seq<QuizQuestion>)
    requires forall k :: 0 <= k < |qs| ==> Renderable(qs[k])
    ensures Trim(Render(qs)) == Render(qs)
  {
    if |qs| > 0 {
      RenderOpensWithMarker(qs);
      RenderEndsWithLetter(qs);
      LettersNeedNoTrim(Render(qs));
    }
  }

  /** The empty piece before the first marker yields nothing. */
  lemma QuestionsSkipEmpty(rest: seq<string>)
    ensures Questions([[]] + rest) == Questions(rest)
  {
    assert FindQuestion([], 0).None?;
    assert ([[]] + rest)[1..] == rest;
  }

  /** Split from a marker at `x`, the first piece is empty. */
  lemma PiecesOpenEmpty(t: string, x: nat)
    requires x < |t| && SplitAt(t, x)
    ensures PiecesFrom(t, x, x) == [[]] + PiecesFrom(t, x, x + 1)
  {
    NextSplitIs(t, x, x);
    PiecesStep(t, x, x, x);
    assert t[x..x] == [];
  }

  /** Split from where a rendered text starts, the pieces yield its
      questions. */
  lemma RenderedPiecesQuestions(t: string, x: nat, qs: seq<QuizQuestion>)
    requires 0 < |qs| && forall k :: 0 <= k < |qs| ==> Renderable(qs[k])
    requires x <= |t| && t[x..] == Render(qs)
    ensures Questions(PiecesFrom(t, x, x)) == qs
  {
    RenderOpensWithMarker(qs);
    SplitShift(t, x, 0);
    RenderPieces(t, x, qs);
    PiecesOpenEmpty(t, x);
    QuestionsSkipEmpty(BlockPieces(qs));
    QuestionsOfPieces(qs);
  }

  /** Nothing to parse, nothing parsed. */
  lemma ParseNothing()
    ensures ParseQuiz([]) == []
  {
    assert Blocks([]) == [[]];
    QuestionsSkipEmpty([]);
  }

  /** Parsing the rendered text of questions in the English prompt format
      gives the questions back, in order. */
  lemma ParseRender(qs: seq<QuizQuestion>)
    requires forall k :: 0 <= k < |qs| ==> Renderable(qs[k])
    ensures ParseQuiz(Render(qs)) == qs
  {
    if |qs| == 0 {
      ParseNothing();
    } else {
      var t := Render(qs);
      RenderIsTrimmed(qs);
      assert t[0..] == t;
      RenderedPiecesQuestions(t, 0, qs);
    }
  }
}
