/**
 * The app's records and the quiz score shared by every quiz screen.
 *
 * `Flashcard`, `QuizQuestion` and `StudyHistory` are plain records. A Kotlin
 * `Long` timestamp is an unbounded `int` here.
 */
module Model {
  import opened KotlinStd

  datatype Flashcard = Flashcard(question: string, answer: string)

  /** A multiple-choice question. `userAnswer` is the option the user chose,
      `None` while unanswered or after a timeout. */
  datatype QuizQuestion = QuizQuestion(
    question: string,
    options: seq<string>,
    correctAnswer: string,
    userAnswer: Option<string>)

  /** One saved activity: `kind` is the record's `type` field ("flashcards",
      "summary" or "quiz" when written by the app). */
  datatype StudyHistory = StudyHistory(
    id: string,
    uid: string,
    kind: string,
    inputText: string,
    timestamp: int,
    resultText: string,
    resultFlashcards: seq<Flashcard>,
    quiz: seq<QuizQuestion>)

  predicate IsCorrect(q: QuizQuestion) {
    q.userAnswer == Some(q.correctAnswer)
  }

  function Indicator(b: bool): nat {
    if b then 1 else 0
  }

  /** The number of questions whose user answer equals the correct answer. */
  function Score(qs: seq<QuizQuestion>): (r: nat)
    ensures r <= |qs|
    decreases |qs|
  {
    if |qs| == 0 then 0 else Indicator(IsCorrect(qs[0])) + Score(qs[1..])
  }

  /** The score is the full length exactly when every answer is correct, and
      zero exactly when none is. */
  lemma {:induction false} ScoreExtremes(qs: seq<QuizQuestion>)
    ensures Score(qs) == |qs| <==> forall i :: 0 <= i < |qs| ==> IsCorrect(qs[i])
    ensures Score(qs) == 0 <==> forall i :: 0 <= i < |qs| ==> !IsCorrect(qs[i])
    decreases |qs|
  {
    if |qs| > 0 {
      ScoreExtremes(qs[1..]);
      assert forall i :: 1 <= i < |qs| ==> qs[i] == qs[1..][i - 1];
    }
  }

  /** The score is "perfect" exactly when every question was answered correctly. */
  predicate IsPerfect(qs: seq<QuizQuestion>) {
    Score(qs) == |qs|
  }

  lemma {:induction false} ScoreAppend(a: seq<QuizQuestion>, b: seq<QuizQuestion>)
    ensures Score(a + b) == Score(a) + Score(b)
    decreases |a|
  {
    if |a| == 0 {
      assert a + b == b;
    } else {
      assert (a + b)[0] == a[0];
      assert (a + b)[1..] == a[1..] + b;
      ScoreAppend(a[1..], b);
    }
  }

  lemma MultisetTail<T>(a: seq<T>)
    requires |a| > 0
    ensures multiset(a[1..]) == multiset(a) - multiset{a[0]}
  {
    assert a == [a[0]] + a[1..];
  }

  lemma MultisetRemove<T>(b: seq<T>, j: nat)
    requires j < |b|
    ensures multiset(b[..j] + b[j + 1..]) == multiset(b) - multiset{b[j]}
  {
    assert b == b[..j] + [b[j]] + b[j + 1..];
    assert multiset(b) == multiset(b[..j]) + multiset{b[j]} + multiset(b[j + 1..]);
  }

  /** The score counts answers, not positions: any rearrangement of the
      questions has the same score. */
  lemma {:induction false} ScorePermutationInvariant(a: seq<QuizQuestion>, b: seq<QuizQuestion>)
    requires multiset(a) == multiset(b)
    ensures Score(a) == Score(b)
    decreases |a|
  {
    if |a| == 0 {
      assert |b| == |multiset(b)| == 0;
    } else {
      assert a[0] in multiset(b);
      var j :| 0 <= j < |b| && b[j] == a[0];
      MultisetTail(a);
      MultisetRemove(b, j);
      ScorePermutationInvariant(a[1..], b[..j] + b[j + 1..]);
      ScoreRemove(b, j);
    }
  }

  /** Taking one question out of a list takes its indicator off the score. */
  lemma ScoreRemove(b: seq<QuizQuestion>, j: nat)
    requires j < |b|
    ensures Score(b) == Indicator(IsCorrect(b[j])) + Score(b[..j] + b[j + 1..])
  {
    var p, d, q := b[..j], b[j..], b[j + 1..];
    assert p + d == b;
    ScoreAppend(p, d);
    assert d[0] == b[j] && d[1..] == q;
    ScoreAppend(p, q);
  }


  // ---------------------------------------------------------------------
  // Shuffled views: `shuffled()` is modelled by an index permutation
  // ---------------------------------------------------------------------

  function Range(n: nat): (r: seq<nat>)
    ensures |r| == n && forall i :: 0 <= i < n ==> r[i] == i
  {
    seq(n, i requires 0 <= i < n => i)
  }

  /** `order` lists each of the indices `0..n-1` exactly once. */
  predicate IsPermutation(order: seq<nat>, n: nat) {
    multiset(order) == multiset(Range(n))
  }

  predicate IndicesIn(order: seq<nat>, n: nat) {
    forall i :: 0 <= i < |order| ==> order[i] < n
  }

  lemma PermutationIndicesIn(order: seq<nat>, n: nat)
    requires IsPermutation(order, n)
    ensures IndicesIn(order, n) && |order| == n
  {
    forall i | 0 <= i < |order|
      ensures order[i] < n
    {
      assert order[i] in multiset(Range(n));
    }
    assert |order| == |multiset(order)| == |multiset(Range(n))| == n;
  }

  /** The list seen through `order`: element `i` of the view is `qs[order[i]]`.
      The view holds the same question values, so an answer written through it
      is an answer written into `qs` at `order[i]`. */
  function View<T>(qs: seq<T>, order: seq<nat>): (r: seq<T>)
    requires IndicesIn(order, |qs|)
    ensures |r| == |order|
    ensures forall i :: 0 <= i < |order| ==> r[i] == qs[order[i]]
  {
    seq(|order|, i requires 0 <= i < |order| => qs[order[i]])
  }

  lemma ViewAppend<T>(qs: seq<T>, o1: seq<nat>, o2: seq<nat>)
    requires IndicesIn(o1, |qs|) && IndicesIn(o2, |qs|)
    ensures IndicesIn(o1 + o2, |qs|)
    ensures View(qs, o1 + o2) == View(qs, o1) + View(qs, o2)
  {
    assert forall i :: 0 <= i < |o1 + o2| ==> (o1 + o2)[i] == if i < |o1| then o1[i] else o2[i - |o1|];
  }

  lemma ViewRemove<T>(qs: seq<T>, o: seq<nat>, j: nat)
    requires IndicesIn(o, |qs|) && j < |o|
    ensures IndicesIn(o[..j] + o[j + 1..], |qs|)
    ensures multiset(View(qs, o)) == multiset{qs[o[j]]} + multiset(View(qs, o[..j] + o[j + 1..]))
  {
    var pre, post := o[..j], o[j + 1..];
    assert IndicesIn(pre, |qs|) && IndicesIn(post, |qs|);
    ViewAppend(qs, pre, post);
    assert View(qs, o) == View(qs, pre) + [qs[o[j]]] + View(qs, post);
  }

  lemma {:induction false} ViewMultiset<T>(qs: seq<T>, o1: seq<nat>, o2: seq<nat>)
    requires IndicesIn(o1, |qs|) && IndicesIn(o2, |qs|)
    requires multiset(o1) == multiset(o2)
    ensures multiset(View(qs, o1)) == multiset(View(qs, o2))
    decreases |o1|
  {
    if |o1| == 0 {
      assert |o2| == |multiset(o2)| == 0;
    } else {
      assert o1[0] in multiset(o2);
      var j :| 0 <= j < |o2| && o2[j] == o1[0];
      MultisetTail(o1);
      MultisetRemove(o2, j);
      ViewRemove(qs, o1, 0);
      ViewRemove(qs, o2, j);
      assert o1[..0] + o1[1..] == o1[1..];
      ViewMultiset(qs, o1[1..], o2[..j] + o2[j + 1..]);
    }
  }

  /** A shuffled view holds exactly the questions of the original list. */
  lemma PermutedViewSameElements<T>(qs: seq<T>, order: seq<nat>)
    requires IsPermutation(order, |qs|)
    ensures IndicesIn(order, |qs|)
    ensures multiset(View(qs, order)) == multiset(qs)
  {
    PermutationIndicesIn(order, |qs|);
    ViewMultiset(qs, order, Range(|qs|));
    assert View(qs, Range(|qs|)) == qs;
  }

  /** The score computed over the shuffled view equals the score of the
      original list the app saves. */
  lemma PermutedViewSameScore(qs: seq<QuizQuestion>, order: seq<nat>)
    requires IsPermutation(order, |qs|)
    ensures IndicesIn(order, |qs|)
    ensures Score(View(qs, order)) == Score(qs)
  {
    PermutedViewSameElements(qs, order);
    ScorePermutationInvariant(View(qs, order), qs);
  }
}
