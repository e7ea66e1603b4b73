/**
 * `FlashcardViewerVM`: the card list, the current `index` and whether the
 * card is flipped, with `next`, `prev` and `flip`. Swipes and buttons call
 * these three; the swipe distance threshold is not modelled.
 */
module FlashcardViewer {
  import opened Model

  datatype Viewer = Viewer(cards: seq<Flashcard>, index: int, flipped: bool)

  /** The state the view model starts in. */
  function Init(cards: seq<Flashcard>): Viewer {
    Viewer(cards, 0, false)
  }

  /** Kotlin's `lastIndex`: `size - 1`, so -1 for an empty list. */
  function LastIndex(v: Viewer): int {
    |v.cards| - 1
  }

  /** `index` points at a card. */
  predicate InRange(v: Viewer) {
    0 <= v.index < |v.cards|
  }

  /** `next()`: moves forward unless on the last card; moving shows the front. */
  function Next(v: Viewer): (r: Viewer)
    ensures r.cards == v.cards
    ensures r.index != v.index <==> v.index < LastIndex(v)
    ensures r.index != v.index ==> r.index == v.index + 1 && !r.flipped
    ensures r.index == v.index ==> r == v
  {
    if v.index < LastIndex(v) then v.(index := v.index + 1, flipped := false) else v
  }

  /** `prev()`: moves back unless on the first card; moving shows the front. */
  function Prev(v: Viewer): (r: Viewer)
    ensures r.cards == v.cards
    ensures r.index != v.index <==> v.index > 0
    ensures r.index != v.index ==> r.index == v.index - 1 && !r.flipped
    ensures r.index == v.index ==> r == v
  {
    if v.index > 0 then v.(index := v.index - 1, flipped := false) else v
  }

  /** `flip()`: turns the card over and nothing else. */
  function Flip(v: Viewer): (r: Viewer)
    ensures r.cards == v.cards && r.index == v.index
    ensures r.flipped != v.flipped
  {
    v.(flipped := !v.flipped)
  }

  /** The text on the visible face of the current card. */
  function Face(v: Viewer): string
    requires InRange(v)
  {
    if v.flipped then v.cards[v.index].answer else v.cards[v.index].question
  }

  /** The progress label "i / n": one-based, and never past the last card
      while the index is on a card. */
  function Progress(v: Viewer): (r: (int, int))
    ensures r.1 == |v.cards|
    ensures InRange(v) <==> 1 <= r.0 <= r.1
  {
    (v.index + 1, |v.cards|)
  }

  datatype Op = NextOp | PrevOp | FlipOp

  function Step(v: Viewer, op: Op): Viewer {
    match op
    case NextOp => Next(v)
    case PrevOp => Prev(v)
    case FlipOp => Flip(v)
  }

  /** The state after a sequence of user actions. */
  function Run(v: Viewer, ops: seq<Op>): (r: Viewer)
    ensures r.cards == v.cards
    decreases |ops|
  {
    if |ops| == 0 then v else Run(Step(v, ops[0]), ops[1..])
  }

  // ---------------------------------------------------------------------
  // Properties
  // ---------------------------------------------------------------------

  lemma FlipTwice(v: Viewer)
    ensures Flip(Flip(v)) == v
  {
  }

  /** `prev` undoes a `next` that moved, leaving the front shown. */
  lemma PrevUndoesNext(v: Viewer)
    requires 0 <= v.index < LastIndex(v)
    ensures Prev(Next(v)) == v.(flipped := false)
  {
  }

  /** `next` undoes a `prev` that moved. */
  lemma NextUndoesPrev(v: Viewer)
    requires v.index > 0 && v.index <= LastIndex(v)
    ensures Next(Prev(v)) == v.(flipped := false)
  {
    var p := Prev(v);
    assert p.index == v.index - 1 && p.index < LastIndex(p);
  }

  /** From a valid index, every action keeps the index on a card. */
  lemma StepKeepsInRange(v: Viewer, op: Op)
    requires InRange(v)
    ensures InRange(Step(v, op))
  {
  }

  /** Starting at the first card of a non-empty list, no sequence of actions
      moves the index off the list. */
  lemma {:induction false} RunKeepsInRange(v: Viewer, ops: seq<Op>)
    requires InRange(v)
    ensures InRange(Run(v, ops))
    ensures 1 <= Progress(Run(v, ops)).0 <= Progress(Run(v, ops)).1
    decreases |ops|
  {
    if |ops| > 0 {
      StepKeepsInRange(v, ops[0]);
      RunKeepsInRange(Step(v, ops[0]), ops[1..]);
    }
  }

  lemma InitInRange(cards: seq<Flashcard>)
    requires |cards| > 0
    ensures InRange(Init(cards))
    ensures Face(Init(cards)) == cards[0].question
  {
  }

  /** With no cards, `next` and `prev` never move: the index stays 0. */
  lemma {:induction false} EmptyListStaysAtZero(v: Viewer, ops: seq<Op>)
    requires |v.cards| == 0 && v.index == 0
    ensures Run(v, ops).index == 0
    decreases |ops|
  {
    if |ops| > 0 {
      EmptyListStaysAtZero(Step(v, ops[0]), ops[1..]);
    }
  }
}
