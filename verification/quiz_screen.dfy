/**
 * `QuizActivity`: the Generate button's checks, the view model's
 * `generateQuiz`, how the chat reply becomes text, which prompt language
 * is used, and the Clear button.
 *
 * The chat call is a parameter: its outcome is a `Reply`.
 */
module QuizScreen {
  import opened KotlinStd
  import opened Model
  import opened RegexScan
  import opened GeneratorInput
  import QuizParser

  /** The outcome of the chat call: a response with its text blocks (`None`
      when the body or message is missing), or a failure, which reaches
      `generateQuiz` as an exception. */
  datatype Reply = Delivered(blocks: Option<seq<string>>) | Failed

  /** `joinToString("\n") { it.text.trim() }.takeIf { it.isNotBlank() } ?: ""`. */
  function ReplyText(blocks: Option<seq<string>>): (r: string)
    ensures r == "" || !IsBlank(r)
    ensures blocks.None? ==> r == ""
  {
    match blocks
    case None => ""
    case Some(bs) =>
      var t := Join(QuizParser.TrimAll(bs), "\n");
      if IsBlank(t) then "" else t
  }

  /** A reply of blank blocks only reads as no reply at all. */
  lemma BlankBlocksReadAsNothing(bs: seq<string>)
    requires forall k :: 0 <= k < |bs| ==> IsBlank(bs[k])
    ensures ReplyText(Some(bs)) == ""
  {
    var ts := QuizParser.TrimAll(bs);
    BlankJoin(ts);
  }

  /** Joining empty strings with newlines gives a blank string. */
  lemma {:induction false} BlankJoin(ts: seq<string>)
    requires forall k :: 0 <= k < |ts| ==> ts[k] == []
    ensures IsBlank(Join(ts, "\n"))
    decreases |ts|
  {
    if |ts| >= 2 {
      BlankJoin(ts[1..]);
      var tail := Join(ts[1..], "\n");
      assert Join(ts, "\n") == "\n" + tail;
    }
  }

  /** Which prompt the view model builds: the Filipino one only for exactly
      "Filipino". */
  datatype PromptLanguage = FilipinoPrompt | EnglishPrompt

  function PromptLanguageOf(language: string): (r: PromptLanguage)
    ensures r == FilipinoPrompt <==> language == "Filipino"
  {
    if language == "Filipino" then FilipinoPrompt else EnglishPrompt
  }

  /** Unlike the summary screen, the comparison minds letter case. */
  lemma PromptLanguageMindsCase()
    ensures PromptLanguageOf("filipino") == EnglishPrompt
    ensures PromptLanguageOf("FILIPINO") == EnglishPrompt
  {
  }

  /** The question and answer labels the prompt asks the model to use. */
  function QuestionLabel(l: PromptLanguage): string {
    if l == FilipinoPrompt then "Tanong:" else "Question:"
  }

  function AnswerLabel(l: PromptLanguage): string {
    if l == FilipinoPrompt then "Sagot:" else "Answer:"
  }

  /** Both prompts ask for labels the parser recognises: a block starts at
      the question label and the answer label introduces the letter. */
  lemma PromptLabelsAreMarkers(l: PromptLanguage)
    ensures QuizParser.SplitAt(QuestionLabel(l), 0)
    ensures QuizParser.AnswerMarkerLength(AnswerLabel(l), 0) == Some(|AnswerLabel(l)|)
  {
    var q, a := QuestionLabel(l), AnswerLabel(l);
    assert q[0..|q|] == q && a[0..|a|] == a;
    if l == FilipinoPrompt {
      assert WordAt(q, 0, "tanong:");
      assert !WordAt(a, 0, "answer:");
      assert WordAt(a, 0, "sagot:");
    } else {
      assert WordAt(q, 0, "question:");
      assert WordAt(a, 0, "answer:");
    }
  }

  /** `QuizActivityVM.generateQuiz`: nothing on blank input; a reply is
      parsed into the new list; a failure is caught and leaves the list as
      it was. */
  function VmGenerate(input: string, questions: seq<QuizQuestion>, reply: Reply): (r: seq<QuizQuestion>)
    ensures IsBlank(input) || reply.Failed? ==> r == questions
    ensures !IsBlank(input) && reply.Delivered? ==> forall k :: 0 <= k < |r| ==> QuizParser.WellFormed(r[k])
  {
    if IsBlank(input) then questions
    else
      match reply
      case Delivered(blocks) => QuizParser.ParseQuiz(ReplyText(blocks))
      case Failed => questions
  }

  datatype Toast = NoTextToast | CountToast | NoQuestionsToast

  datatype Screen = Screen(
    input: string,
    countField: string,
    language: string,
    questions: seq<QuizQuestion>,
    launched: seq<seq<QuizQuestion>>,
    toast: Option<Toast>)

  /** The Generate button: blank input and a count outside 1..10 are refused
      in that order; otherwise the view model runs and the viewer opens on
      its list when that list is not empty. */
  function Generate(s: Screen, reply: Reply): (r: Screen)
    ensures r.input == s.input && r.countField == s.countField && r.language == s.language
  {
    if IsBlank(s.input) then s.(toast := Some(NoTextToast))
    else if RequestedCount(s.countField).None? then s.(toast := Some(CountToast))
    else
      var qs := VmGenerate(s.input, s.questions, reply);
      if |qs| > 0 then s.(questions := qs, launched := s.launched + [qs])
      else s.(questions := qs, toast := Some(NoQuestionsToast))
  }

  lemma GenerateChecksInOrder(s: Screen, reply: Reply)
    ensures IsBlank(s.input) ==> Generate(s, reply) == s.(toast := Some(NoTextToast))
    ensures !IsBlank(s.input) && RequestedCount(s.countField).None? ==>
      Generate(s, reply) == s.(toast := Some(CountToast))
  {
  }

  /** A delivered reply replaces the list with its parse, and the viewer
      opens on it exactly when it is not empty; every question opened is
      well formed. */
  lemma DeliveredReplyOpensParse(s: Screen, blocks: Option<seq<string>>)
    requires !IsBlank(s.input) && RequestedCount(s.countField).Some?
    ensures var r := Generate(s, Delivered(blocks));
      r.questions == QuizParser.ParseQuiz(ReplyText(blocks)) &&
      (|r.questions| > 0 <==> r.launched == s.launched + [r.questions]) &&
      (|r.questions| == 0 ==> r.launched == s.launched) &&
      forall k :: 0 <= k < |r.questions| ==> QuizParser.WellFormed(r.questions[k])
  {
  }

  /** A missing body yields no questions and opens nothing. */
  lemma EmptyReplyOpensNothing(s: Screen)
    requires !IsBlank(s.input) && RequestedCount(s.countField).Some?
    ensures Generate(s, Delivered(None)).questions == []
    ensures Generate(s, Delivered(None)).launched == s.launched
  {
    assert Trim("") == "";
    assert QuizParser.MarkerCount("", 0) == 0;
  }

  /** A failed call keeps the previous list, and when that list is not empty
      the viewer opens on it again. */
  lemma FailureReopensPreviousList(s: Screen)
    requires !IsBlank(s.input) && RequestedCount(s.countField).Some? && |s.questions| > 0
    ensures Generate(s, Failed).questions == s.questions
    ensures Generate(s, Failed).launched == s.launched + [s.questions]
  {
  }

  /** The Clear button empties the input and the list. */
  function Clear(s: Screen): (r: Screen)
    ensures r.input == "" && r.questions == []
    ensures r.countField == s.countField && r.launched == s.launched
  {
    s.(input := "", questions := [])
  }

  /** After Clear, Generate is refused for blank input and opens nothing. */
  lemma GenerateAfterClearRefused(s: Screen, reply: Reply)
    ensures Generate(Clear(s), reply).toast == Some(NoTextToast)
    ensures Generate(Clear(s), reply).launched == s.launched
  {
  }

  function Import(s: Screen, text: string): Screen {
    s.(input := AppendImport(s.input, text))
  }

  /** Importing into a cleared screen makes the imported text the input. */
  lemma ImportAfterClear(s: Screen, text: string)
    ensures Import(Clear(s), text).input == text
  {
  }
}
