/**
 * The quiz session of `QuizViewerScreen`.
 *
 * `quizList.shuffled()` is a new list holding the same question objects,
 * so an answer written into a question of the shuffled list is an answer
 * written into the original list, and it is the original list that is
 * saved. Here the original list is `questions`, the shuffle is an index
 * permutation `order` (element `i` of the shuffled list is
 * `questions[order[i]]`), and every write goes to `questions[order[i]]`.
 *
 * Events are atomic: a timer tick, a timeout together with the automatic
 * move that follows it, and the read-only prefill that runs whenever the
 * index changes. Saves to the history store are recorded in `saved`; a
 * save needs a signed-in `user` and is silently skipped without one. The
 * user is fixed for the whole session.
 */
module QuizSession {
  import opened KotlinStd
  import opened Model

  datatype Session = Session(
    questions: seq<QuizQuestion>,
    order: seq<nat>,
    index: nat,
    selected: Option<string>,
    answered: bool,
    timeLeft: int,
    finished: bool,
    readOnly: bool,
    millis: int,
    user: Option<string>,
    saved: seq<seq<QuizQuestion>>)

  /** Kotlin's `Long` division, which truncates toward zero. */
  function TruncDiv(a: int, b: int): (q: int)
    requires b > 0
    ensures a >= 0 ==> q >= 0 && q * b <= a < (q + 1) * b
    ensures a < 0 ==> q <= 0 && (q - 1) * b < a <= q * b
  {
    if a >= 0 then
      DivBounds(a, b);
      a / b
    else
      DivBounds(-a, b);
      -((-a) / b)
  }

  /** The quotient of a natural number brackets it between two multiples. */
  lemma DivBounds(n: nat, b: int)
    requires b > 0
    ensures 0 <= n / b && (n / b) * b <= n < (n / b + 1) * b
  {
    var q, r := n / b, n % b;
    assert n == q * b + r && 0 <= r < b;
    assert (q + 1) * b == q * b + b;
  }

  /** The countdown's starting value: `questionTimeMillis / 1000`. */
  function FullTime(millis: int): int {
    TruncDiv(millis, 1000)
  }

  /** The states the screen can be in: a non-empty list (the activity closes
      on an empty one), a permutation, and an index on a question. */
  predicate Valid(s: Session) {
    |s.questions| > 0 && IsPermutation(s.order, |s.questions|) && s.index < |s.questions|
  }

  /** The question on screen: element `index` of the shuffled list. */
  function Current(s: Session): QuizQuestion
    requires Valid(s)
  {
    PermutationIndicesIn(s.order, |s.questions|);
    s.questions[s.order[s.index]]
  }

  /** The shuffled list as the screen sees it. */
  function Shuffled(s: Session): seq<QuizQuestion>
    requires Valid(s)
  {
    PermutationIndicesIn(s.order, |s.questions|);
    View(s.questions, s.order)
  }

  /** `question.userAnswer = a` on the question on screen. */
  function WriteAnswer(s: Session, a: Option<string>): (r: Session)
    requires Valid(s)
    ensures Valid(r)
  {
    PermutationIndicesIn(s.order, |s.questions|);
    var k := s.order[s.index];
    s.(questions := s.questions[k := s.questions[k].(userAnswer := a)])
  }

  /** The read-only prefill run on every index change: show the stored answer
      as selected and the question as answered. */
  function Prefill(s: Session): (r: Session)
    requires Valid(s)
    ensures Valid(r)
  {
    if s.readOnly then s.(selected := Current(s).userAnswer, answered := true) else s
  }

  /** The first screen of a session over `questions` shuffled by `order`. */
  function Start(questions: seq<QuizQuestion>, order: seq<nat>, readOnly: bool, millis: int, user: Option<string>): (r: Session)
    requires |questions| > 0 && IsPermutation(order, |questions|)
    ensures Valid(r)
  {
    var s := Session(questions, order, 0, None, false, FullTime(millis), false, readOnly, millis, user, []);
    PermutationIndicesIn(order, |questions|);
    Prefill(s)
  }

  // ---------------------------------------------------------------------
  // Events
  // ---------------------------------------------------------------------

  /** Options are clickable only before answering and outside read-only mode. */
  predicate CanSelect(s: Session, option: string) {
    Valid(s) && !s.finished && !s.answered && !s.readOnly && option in Current(s).options
  }

  function Select(s: Session, option: string): (r: Session)
    requires Valid(s)
    ensures Valid(r)
  {
    if CanSelect(s, option) then s.(selected := Some(option)) else s
  }

  /** Moving to the next question: clear the selection and restart the timer. */
  function Advance(s: Session): (r: Session)
    requires Valid(s) && s.index + 1 < |s.questions|
    ensures Valid(r)
  {
    Prefill(s.(index := s.index + 1, selected := None, answered := false, timeLeft := FullTime(s.millis)))
  }

  /** Ending the session, saving the original list when `save` holds and a
      user is signed in. */
  function Finish(s: Session, save: bool): (r: Session)
    requires Valid(s)
    ensures Valid(r)
  {
    s.(finished := true, saved := if save && s.user.Some? then s.saved + [s.questions] else s.saved)
  }

  /** The Submit / Next / Finish button. It is disabled while unanswered with
      nothing selected. */
  function Press(s: Session): (r: Session)
    requires Valid(s)
    ensures Valid(r)
  {
    if s.finished then s
    else if !s.answered then
      if s.selected.None? then s
      else WriteAnswer(s, s.selected).(answered := true)
    else if s.index + 1 < |s.questions| then Advance(s)
    else Finish(s, !s.readOnly)
  }

  /** The countdown runs only outside read-only mode, while unanswered. */
  predicate TimerRunning(s: Session) {
    !s.readOnly && !s.finished && !s.answered
  }

  /** One second of the countdown. */
  function Tick(s: Session): (r: Session)
    requires Valid(s)
    ensures Valid(r)
  {
    if TimerRunning(s) && s.timeLeft > 0 then s.(timeLeft := s.timeLeft - 1) else s
  }

  predicate TimedOut(s: Session) {
    TimerRunning(s) && s.timeLeft == 0
  }

  /** The timeout itself: no answer is recorded and the question counts as
      answered. The selection is left as it was. */
  function Expire(s: Session): (r: Session)
    requires Valid(s)
    ensures Valid(r)
  {
    WriteAnswer(s, None).(answered := true)
  }

  /** A timeout and the automatic move after it: the next question, or the
      end of the session with the list saved. */
  function Timeout(s: Session): (r: Session)
    requires Valid(s)
    ensures Valid(r)
  {
    if !TimedOut(s) then s
    else
      var e := Expire(s);
      if e.index + 1 < |e.questions| then Advance(e) else Finish(e, true)
  }

  /** `forEach { it.userAnswer = null }` over the shuffled list. */
  function ClearAnswers(qs: seq<QuizQuestion>): (r: seq<QuizQuestion>)
    ensures |r| == |qs|
    ensures forall i :: 0 <= i < |qs| ==> r[i] == qs[i].(userAnswer := None)
  {
    seq(|qs|, i requires 0 <= i < |qs| => qs[i].(userAnswer := None))
  }

  /** Retry on the score screen: all answers cleared and a fresh session over
      a new shuffle of the same questions. */
  function Retry(s: Session, newOrder: seq<nat>): (r: Session)
    requires Valid(s) && IsPermutation(newOrder, |s.questions|)
    ensures Valid(r)
  {
    if !s.finished then s
    else
      var restarted := Start(ClearAnswers(s.questions), newOrder, s.readOnly, s.millis, s.user);
      restarted.(saved := s.saved)
  }

  /** The score shown on the score screen, counted over the shuffled list. */
  function ShownScore(s: Session): nat
    requires Valid(s)
  {
    Score(Shuffled(s))
  }

  // ---------------------------------------------------------------------
  // Properties
  // ---------------------------------------------------------------------

  /** The question contents, with the answers left out. */
  function Contents(qs: seq<QuizQuestion>): (r: seq<QuizQuestion>)
    ensures |r| == |qs|
  {
    ClearAnswers(qs)
  }

  /** Writing an answer through the shuffled list changes exactly one
      question of the original list, at the shuffled position's index. */
  lemma WriteAnswerThroughShuffle(s: Session, a: Option<string>)
    requires Valid(s)
    ensures Current(WriteAnswer(s, a)).userAnswer == a
    ensures Shuffled(WriteAnswer(s, a))[s.index].userAnswer == a
    ensures var k := s.order[s.index];
      forall i :: 0 <= i < |s.questions| && i != k ==> WriteAnswer(s, a).questions[i] == s.questions[i]
    ensures Contents(WriteAnswer(s, a).questions) == Contents(s.questions)
  {
    PermutationIndicesIn(s.order, |s.questions|);
  }

  /** Selecting overwrites the selection and nothing else, and only when the
      options are clickable; so the option ends up selected exactly when it
      was clickable or already selected. */
  lemma SelectOnlyChangesSelection(s: Session, option: string)
    requires Valid(s)
    ensures CanSelect(s, option) ==> Select(s, option) == s.(selected := Some(option))
    ensures !CanSelect(s, option) ==> Select(s, option) == s
    ensures Select(s, option).selected == Some(option) <==> CanSelect(s, option) || s.selected == Some(option)
  {
  }

  /** Submitting records the selection as the shown question's answer, in
      the original list. */
  lemma SubmitRecordsSelection(s: Session)
    requires Valid(s) && !s.finished && !s.answered && s.selected.Some?
    ensures Press(s).answered
    ensures Current(Press(s)).userAnswer == s.selected
    ensures Press(s).index == s.index && Press(s).selected == s.selected
    ensures Contents(Press(s).questions) == Contents(s.questions)
  {
    WriteAnswerThroughShuffle(s, s.selected);
  }

  /** With nothing selected the button is disabled. */
  lemma SubmitNeedsSelection(s: Session)
    requires Valid(s) && !s.answered && s.selected.None?
    ensures Press(s) == s
  {
  }

  /** After answering, the button moves to the next question with a clean
      slate and a full timer. */
  lemma NextAfterAnswer(s: Session)
    requires Valid(s) && !s.finished && s.answered && !s.readOnly && s.index + 1 < |s.questions|
    ensures Press(s).index == s.index + 1
    ensures Press(s).selected.None? && !Press(s).answered
    ensures Press(s).timeLeft == FullTime(s.millis)
    ensures Press(s).questions == s.questions && !Press(s).finished
  {
  }

  /** On the last question the button ends the session; the list is saved
      exactly when the quiz is not read-only and a user is signed in. */
  lemma FinishOnLastQuestion(s: Session)
    requires Valid(s) && !s.finished && s.answered && s.index + 1 == |s.questions|
    ensures Press(s).finished
    ensures !s.readOnly && s.user.Some? ==> Press(s).saved == s.saved + [s.questions]
    ensures s.readOnly || s.user.None? ==> Press(s).saved == s.saved
  {
  }

  /** The countdown starts at the truncated number of seconds and each tick
      of a running timer takes one second off. */
  lemma CountdownTicks(questions: seq<QuizQuestion>, order: seq<nat>, millis: int, user: Option<string>)
    requires |questions| > 0 && IsPermutation(order, |questions|)
    ensures Start(questions, order, false, millis, user).timeLeft == FullTime(millis)
    ensures millis >= 1000 ==>
      Tick(Start(questions, order, false, millis, user)).timeLeft == FullTime(millis) - 1
    ensures 0 <= millis < 1000 ==> TimedOut(Start(questions, order, false, millis, user))
  {
  }

  /** A read-only quiz never counts down and never times out. */
  lemma ReadOnlyHasNoTimer(s: Session)
    requires Valid(s) && s.readOnly
    ensures Tick(s) == s && Timeout(s) == s
  {
  }

  /** A timeout records no answer and keeps the selection; the session
      then moves on, or finishes and saves the list when a user is signed in. */
  lemma TimeoutRecordsNoAnswer(s: Session)
    requires Valid(s) && TimedOut(s)
    ensures Current(Expire(s)).userAnswer.None? && Expire(s).answered
    ensures Expire(s).selected == s.selected
    ensures s.index + 1 < |s.questions| ==> Timeout(s).index == s.index + 1 && !Timeout(s).answered
    ensures s.index + 1 == |s.questions| ==>
      Timeout(s).finished && Timeout(s).selected == s.selected &&
      (s.user.Some? ==> Timeout(s).saved == s.saved + [Expire(s).questions]) &&
      (s.user.None? ==> Timeout(s).saved == s.saved)
  {
    WriteAnswerThroughShuffle(s, None);
  }

  /** The score on the score screen is the score of the saved list, it is at
      most the number of questions, and it is perfect exactly when every
      question was answered correctly. */
  lemma ShownScoreIsSavedScore(s: Session)
    requires Valid(s)
    ensures ShownScore(s) == Score(s.questions)
    ensures ShownScore(s) <= |s.questions|
    ensures ShownScore(s) == |s.questions| <==> forall i :: 0 <= i < |s.questions| ==> IsCorrect(s.questions[i])
  {
    PermutedViewSameScore(s.questions, s.order);
    ScoreExtremes(s.questions);
  }

  /** Retry clears every answer of the original list and starts over on the
      same questions. */
  lemma RetryResets(s: Session, newOrder: seq<nat>)
    requires Valid(s) && s.finished && IsPermutation(newOrder, |s.questions|)
    ensures var r := Retry(s, newOrder);
      r.index == 0 && !r.finished && r.order == newOrder &&
      r.timeLeft == FullTime(s.millis) &&
      Contents(r.questions) == Contents(s.questions) &&
      (forall i :: 0 <= i < |r.questions| ==> r.questions[i].userAnswer.None?) &&
      Score(r.questions) == 0
    ensures !s.readOnly ==> Retry(s, newOrder).selected.None? && !Retry(s, newOrder).answered
  {
    var r := Retry(s, newOrder);
    assert ClearAnswers(ClearAnswers(s.questions)) == ClearAnswers(s.questions);
    assert forall i :: 0 <= i < |r.questions| ==> !IsCorrect(r.questions[i]);
    ScoreExtremes(r.questions);
  }

  /** In read-only mode every index change shows the stored answer as the
      selection and the question as answered. */
  lemma ReadOnlyPrefills(s: Session)
    requires Valid(s) && s.readOnly && !s.finished && s.answered && s.index + 1 < |s.questions|
    ensures Press(s).index == s.index + 1
    ensures Press(s).answered && Press(s).selected == Current(Press(s)).userAnswer
    ensures Press(s).questions == s.questions
  {
  }

  datatype Event = SelectEvent(option: string) | PressEvent | TickEvent | TimeoutEvent | RetryEvent(order: seq<nat>)

  function Apply(s: Session, e: Event): (r: Session)
    requires Valid(s)
    ensures Valid(r)
  {
    match e
    case SelectEvent(o) => Select(s, o)
    case PressEvent => Press(s)
    case TickEvent => Tick(s)
    case TimeoutEvent => Timeout(s)
    case RetryEvent(o) => if IsPermutation(o, |s.questions|) then Retry(s, o) else s
  }

  /** Every event keeps the questions' contents: only answers change. */
  lemma EventKeepsContents(s: Session, e: Event)
    requires Valid(s)
    ensures Contents(Apply(s, e).questions) == Contents(s.questions)
    ensures |Apply(s, e).saved| <= |s.saved| + 1
  {
    match e
    case SelectEvent(o) =>
    case PressEvent =>
      if !s.finished && !s.answered && s.selected.Some? {
        WriteAnswerThroughShuffle(s, s.selected);
      }
    case TickEvent =>
    case TimeoutEvent =>
      if TimedOut(s) {
        WriteAnswerThroughShuffle(s, None);
      }
    case RetryEvent(o) =>
      assert ClearAnswers(ClearAnswers(s.questions)) == ClearAnswers(s.questions);
  }

  /** The state after a sequence of events. */
  function Run(s: Session, es: seq<Event>): (r: Session)
    requires Valid(s)
    ensures Valid(r)
    decreases |es|
  {
    if |es| == 0 then s else Run(Apply(s, es[0]), es[1..])
  }

  /** Whatever happens in a session, the question list keeps its contents
      and every save records a list with those contents. */
  lemma {:induction false} RunKeepsContents(s: Session, es: seq<Event>)
    requires Valid(s)
    requires forall k :: 0 <= k < |s.saved| ==> Contents(s.saved[k]) == Contents(s.questions)
    ensures Contents(Run(s, es).questions) == Contents(s.questions)
    ensures forall k :: 0 <= k < |Run(s, es).saved| ==> Contents(Run(s, es).saved[k]) == Contents(s.questions)
    decreases |es|
  {
    if |es| > 0 {
      var t := Apply(s, es[0]);
      EventKeepsContents(s, es[0]);
      SavedContents(s, es[0]);
      RunKeepsContents(t, es[1..]);
    }
  }

  /** A save records the current list, or no save happens. */
  lemma SavedContents(s: Session, e: Event)
    requires Valid(s)
    ensures var t := Apply(s, e);
      t.saved == s.saved || t.saved == s.saved + [t.questions]
  {
  }
}
