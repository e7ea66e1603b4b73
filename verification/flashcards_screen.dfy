/**
 * `FlashcardsActivity`: the Generate button's checks, what the repository
 * makes of the chat reply, when the cards are saved and shown, the Clear
 * button, and the history record's card list.
 *
 * The chat call, the signed-in user and the clock are parameters.
 */
module FlashcardsScreen {
  import opened KotlinStd
  import opened Model
  import opened GeneratorInput
  import FlashcardParser

  /** The outcome of the chat call: a 2xx response with its text blocks
      (`None` when the body or message is missing), another status, or an
      exception. */
  datatype Reply = Delivered(blocks: Option<seq<string>>) | Rejected | Crashed

  /** `FlashcardRepository.generateFlashcards`: the blocks joined with
      newlines, and "" for every kind of failure. */
  function ReplyText(reply: Reply): (r: string)
    ensures !reply.Delivered? ==> r == ""
    ensures reply == Delivered(None) ==> r == ""
    ensures reply.Delivered? && reply.blocks.Some? ==> r == Join(reply.blocks.value, "\n")
  {
    match reply
    case Delivered(blocks) => if blocks.Some? then Join(blocks.value, "\n") else ""
    case Rejected => ""
    case Crashed => ""
  }

  /** One card as the history record stores it. */
  function CardMap(c: Flashcard): (m: map<string, string>)
    ensures "question" in m && "answer" in m
  {
    map["question" := c.question, "answer" := c.answer]
  }

  /** `flashcards.map { mapOf("question" to …, "answer" to …) }`. */
  function CardMaps(cards: seq<Flashcard>): (r: seq<map<string, string>>)
    ensures |r| == |cards|
    ensures forall i :: 0 <= i < |cards| ==> r[i] == CardMap(cards[i])
  {
    seq(|cards|, i requires 0 <= i < |cards| => CardMap(cards[i]))
  }

  /** Reading stored maps back as cards. */
  function CardsOfMaps(ms: seq<map<string, string>>): seq<Flashcard>
    requires forall i :: 0 <= i < |ms| ==> "question" in ms[i] && "answer" in ms[i]
  {
    seq(|ms|, i requires 0 <= i < |ms| && "question" in ms[i] && "answer" in ms[i] =>
      Flashcard(ms[i]["question"], ms[i]["answer"]))
  }

  /** The stored card list reads back as the cards, in the same order. */
  lemma CardMapsRoundTrip(cards: seq<Flashcard>)
    ensures CardsOfMaps(CardMaps(cards)) == cards
  {
  }

  /** The record `saveHistory` writes. */
  datatype Record = Record(uid: string, kind: string, inputText: string, resultFlashcards: seq<map<string, string>>, timestamp: int)

  datatype Toast = NoTextToast | CountToast | NothingGeneratedToast

  datatype Screen = Screen(
    input: string,
    countField: string,
    language: string,
    flashcards: seq<Flashcard>,
    saved: seq<Record>,
    launched: seq<seq<Flashcard>>,
    toast: Option<Toast>)

  /** `saveHistory`: nothing without a signed-in user. */
  function SaveHistory(s: Screen, user: Option<string>, now: int): (r: Screen)
    ensures r.flashcards == s.flashcards && r.launched == s.launched
    ensures user.None? ==> r.saved == s.saved
    ensures user.Some? ==> r.saved == s.saved + [Record(user.value, "flashcards", s.input, CardMaps(s.flashcards), now)]
  {
    match user
    case None => s
    case Some(uid) => s.(saved := s.saved + [Record(uid, "flashcards", s.input, CardMaps(s.flashcards), now)])
  }

  /** The Generate button. The chat call is only made when the input is not
      blank and the count is in range; its reply is parsed, and the cards
      are saved and shown when there are any. */
  function Generate(s: Screen, user: Option<string>, now: int, reply: Reply): (r: Screen)
    ensures r.input == s.input && r.countField == s.countField
  {
    if IsBlank(s.input) then s.(toast := Some(NoTextToast))
    else if RequestedCount(s.countField).None? then s.(toast := Some(CountToast))
    else
      var t := s.(flashcards := FlashcardParser.Parse(ReplyText(reply)));
      if |t.flashcards| > 0 then
        var saved := SaveHistory(t, user, now);
        saved.(launched := saved.launched + [t.flashcards])
      else t.(toast := Some(NothingGeneratedToast))
  }

  /** Blank input is refused before the count is looked at; a bad count is
      refused next; neither changes anything else. */
  lemma GenerateChecksInOrder(s: Screen, user: Option<string>, now: int, reply: Reply)
    ensures IsBlank(s.input) ==> Generate(s, user, now, reply) == s.(toast := Some(NoTextToast))
    ensures !IsBlank(s.input) && RequestedCount(s.countField).None? ==>
      Generate(s, user, now, reply) == s.(toast := Some(CountToast))
  {
  }

  /** After a request, the shown list is the parse of the reply; cards are
      saved (for a signed-in user) and launched exactly when there are any. */
  lemma GenerateSavesOnlyCards(s: Screen, user: Option<string>, now: int, reply: Reply)
    requires !IsBlank(s.input) && RequestedCount(s.countField).Some?
    ensures var r := Generate(s, user, now, reply);
      r.flashcards == FlashcardParser.Parse(ReplyText(reply)) &&
      (|r.flashcards| > 0 <==> r.launched == s.launched + [r.flashcards]) &&
      (|r.flashcards| == 0 ==> r.saved == s.saved && r.launched == s.launched && r.toast == Some(NothingGeneratedToast)) &&
      (|r.flashcards| > 0 && user.Some? ==>
        r.saved == s.saved + [Record(user.value, "flashcards", s.input, CardMaps(r.flashcards), now)]) &&
      (user.None? ==> r.saved == s.saved)
  {
  }

  /** A failed call yields no cards, so nothing is saved or launched. */
  lemma FailedReplyGeneratesNothing(s: Screen, user: Option<string>, now: int, reply: Reply)
    requires !reply.Delivered? || reply.blocks.None?
    ensures var r := Generate(s, user, now, reply);
      r.saved == s.saved && r.launched == s.launched
  {
    assert ReplyText(reply) == "";
    FlashcardParser.NoAnswerAfterQuestionMeansNoCards("");
  }

  /** The Clear button. */
  function Clear(s: Screen): (r: Screen)
    ensures r.input == "" && r.flashcards == []
    ensures r.countField == s.countField && r.saved == s.saved && r.launched == s.launched
  {
    s.(input := "", flashcards := [])
  }

  /** An import. */
  function Import(s: Screen, text: string): Screen {
    s.(input := AppendImport(s.input, text))
  }

  /** Importing into a cleared screen makes the imported text the input. */
  lemma ImportAfterClear(s: Screen, text: string)
    ensures Import(Clear(s), text).input == text
  {
  }
}
