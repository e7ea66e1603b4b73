/**
 * `QuizHistoryViewerScreen`: a read-only walk through a saved quiz with
 * Previous / Next buttons, a score line and coloured options.
 */
module QuizHistoryViewer {
  import opened KotlinStd
  import opened Model

  datatype HistoryView = HistoryView(quiz: seq<QuizQuestion>, index: int)

  /** The activity closes on a missing or empty list, and the screen reads
      `quizList[currentIndex]` from the first frame, so the list is non-empty. */
  predicate Valid(v: HistoryView) {
    |v.quiz| > 0 && 0 <= v.index < |v.quiz|
  }

  function Open(quiz: seq<QuizQuestion>): (v: HistoryView)
    requires |quiz| > 0
    ensures Valid(v) && v.index == 0 && v.quiz == quiz
  {
    HistoryView(quiz, 0)
  }

  /** Previous: back one question unless on the first. */
  function Previous(v: HistoryView): (r: HistoryView)
    ensures r.quiz == v.quiz
    ensures r.index != v.index <==> v.index > 0
    ensures r.index != v.index ==> r.index == v.index - 1
  {
    if v.index > 0 then v.(index := v.index - 1) else v
  }

  /** Next: forward one question unless on the last (`lastIndex`). */
  function Next(v: HistoryView): (r: HistoryView)
    ensures r.quiz == v.quiz
    ensures r.index != v.index <==> v.index < |v.quiz| - 1
    ensures r.index != v.index ==> r.index == v.index + 1
  {
    if v.index < |v.quiz| - 1 then v.(index := v.index + 1) else v
  }

  /** The score line: correct answers over the whole saved quiz. */
  function ShownScore(v: HistoryView): nat {
    Score(v.quiz)
  }

  /** The three option backgrounds. */
  datatype Shade = CorrectShade | WrongShade | PlainShade

  /** The background of `option`: the correct answer first, then a wrong
      answer the user gave, then plain. */
  function ShadeOf(q: QuizQuestion, option: string): Shade {
    if option == q.correctAnswer then CorrectShade
    else if Some(option) == q.userAnswer && q.userAnswer != Some(q.correctAnswer) then WrongShade
    else PlainShade
  }

  // ---------------------------------------------------------------------
  // Properties
  // ---------------------------------------------------------------------

  /** Each shade, stated independently of the order of the tests. */
  lemma ShadeMeaning(q: QuizQuestion, option: string)
    ensures ShadeOf(q, option) == CorrectShade <==> option == q.correctAnswer
    ensures ShadeOf(q, option) == WrongShade <==> option != q.correctAnswer && q.userAnswer == Some(option)
    ensures ShadeOf(q, option) == PlainShade <==> option != q.correctAnswer && q.userAnswer != Some(option)
  {
  }

  /** A correctly answered question shows no wrong option, and an
      unanswered one shows none either. */
  lemma NoWrongShadeWhenRightOrBlank(q: QuizQuestion, option: string)
    requires IsCorrect(q) || q.userAnswer.None?
    ensures ShadeOf(q, option) != WrongShade
  {
  }

  /** A wrong answer that is one of the options is shown red on exactly the
      options equal to it. */
  lemma WrongAnswerShown(q: QuizQuestion)
    requires q.userAnswer.Some? && !IsCorrect(q)
    ensures forall i :: 0 <= i < |q.options| ==>
      (ShadeOf(q, q.options[i]) == WrongShade <==> q.options[i] == q.userAnswer.value)
  {
  }

  datatype Button = PreviousButton | NextButton

  function Press(v: HistoryView, b: Button): HistoryView {
    match b
    case PreviousButton => Previous(v)
    case NextButton => Next(v)
  }

  function Walk(v: HistoryView, bs: seq<Button>): (r: HistoryView)
    ensures r.quiz == v.quiz
    decreases |bs|
  {
    if |bs| == 0 then v else Walk(Press(v, bs[0]), bs[1..])
  }

  /** Any sequence of presses keeps the index on a question and changes no
      answer, so the score line never changes and stays within the quiz
      size. */
  lemma {:induction false} WalkStaysValid(v: HistoryView, bs: seq<Button>)
    requires Valid(v)
    ensures Valid(Walk(v, bs))
    ensures Walk(v, bs).quiz == v.quiz && ShownScore(Walk(v, bs)) == ShownScore(v) <= |v.quiz|
    decreases |bs|
  {
    if |bs| > 0 {
      var w := Press(v, bs[0]);
      assert Valid(w);
      WalkStaysValid(w, bs[1..]);
    }
  }

  /** Pressing Next then Previous from below the last question returns to
      the same question. */
  lemma PreviousUndoesNext(v: HistoryView)
    requires 0 <= v.index < |v.quiz| - 1
    ensures Previous(Next(v)) == v
  {
  }
}
