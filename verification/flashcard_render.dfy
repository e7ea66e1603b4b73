/**
 * The text format the flashcard generator asks the model for — each card a
 * "Q:" line followed by an "A:" line — and the proof that parsing it gives
 * back the cards.
 *
 * The proof follows the rendered text card by card: `LaidOut` says where
 * each card's characters sit, `LaidOutMatches` shows the matcher finds one
 * match per card in turn, and `CardsOfCardMatches` turns those matches back
 * into the cards.
 */
module FlashcardRender {
  import opened KotlinStd
  import opened Model
  import opened RegexScan
  import opened FlashcardParser

  /** A card that survives a render/parse round trip: both texts are
      non-empty, trimmed and on one line. */
  predicate Renderable(c: Flashcard) {
    c.question != [] && c.answer != [] && IsTrimmed(c.question) && IsTrimmed(c.answer) &&
    NoLineBreak(c.question) && NoLineBreak(c.answer)
  }

  function CardText(c: Flashcard): string {
    "Q: " + c.question + "\nA: " + c.answer
  }

  function CardTexts(cards: seq<Flashcard>): (r: seq<string>)
    ensures |r| == |cards| && forall k :: 0 <= k < |cards| ==> r[k] == CardText(cards[k])
  {
    seq(|cards|, k requires 0 <= k < |cards| => CardText(cards[k]))
  }

  /** The cards one per "Q:"/"A:" pair, pairs separated by a newline. */
  function Render(cards: seq<Flashcard>): string {
    Join(CardTexts(cards), "\n")
  }

  lemma RenderCons(cards: seq<Flashcard>)
    requires |cards| >= 2
    ensures Render(cards) == CardText(cards[0]) + "\n" + Render(cards[1..])
  {
    assert CardTexts(cards)[1..] == CardTexts(cards[1..]);
  }

  // ---------------------------------------------------------------------
  // The round trip
  // ---------------------------------------------------------------------

  lemma SplitSuffix(s: string, x: nat, u: string, v: string)
    requires x <= |s| && s[x..] == u + v
    ensures x + |u| <= |s| && s[x..x + |u|] == u && s[x + |u|..] == v
  {
    assert s[x..x + |u|] == s[x..][..|u|];
    assert s[x + |u|..] == s[x..][|u|..];
  }

  /** `c`'s text sits at the line start `x`. */
  predicate CardAt(s: string, x: nat, c: Flashcard) {
    Renderable(c) && LineStart(s, x) && x + |CardText(c)| <= |s| && s[x..x + |CardText(c)|] == CardText(c)
  }

  /** The characters of `CardText(c)` placed at `x`. */
  lemma CardChars(s: string, x: nat, c: Flashcard)
    requires x + |CardText(c)| <= |s| && s[x..x + |CardText(c)|] == CardText(c)
    ensures |CardText(c)| == 7 + |c.question| + |c.answer|
    ensures s[x] == 'Q' && s[x + 1] == ':' && s[x + 2] == ' '
    ensures forall k :: 0 <= k < |c.question| ==> s[x + 3 + k] == c.question[k]
    ensures var n := |c.question|;
      s[x + 3 + n] == '\n' && s[x + 4 + n] == 'A' && s[x + 5 + n] == ':' && s[x + 6 + n] == ' '
    ensures forall k :: 0 <= k < |c.answer| ==> s[x + 7 + |c.question| + k] == c.answer[k]
  {
    var w := CardText(c);
    var n := |c.question|;
    assert forall k :: 0 <= k < |w| ==> s[x + k] == w[k];
    assert forall k :: 0 <= k < n ==> w[3 + k] == c.question[k];
    assert forall k :: 0 <= k < |c.answer| ==> w[7 + n + k] == c.answer[k];
    assert w[3 + n] == '\n' && w[4 + n] == 'A' && w[5 + n] == ':' && w[6 + n] == ' ';
  }

  /** In a text holding `CardText(c)` at `x`, the question group found at `x`
      is exactly `c`'s question. */
  lemma CardQuestionFound(s: string, x: nat, c: Flashcard)
    ensures CardAt(s, x, c) ==>
      SkipSpaces(s, x + 2) == x + 3 &&
      FindAnswerMarker(s, x + 4) == Some(x + 3 + |c.question|) &&
      s[x + 2 + |c.question|] != '\r' &&
      s[x + 3..x + 3 + |c.question|] == c.question
  {
    if CardAt(s, x, c) {
      var q, n := c.question, |c.question|;
      CardChars(s, x, c);
      assert s[x + 3] == q[0];
      SkipSpacesIs(s, x + 2, x + 3);
      forall u | x + 4 <= u < x + 3 + n
        ensures !AnswerMarkerAt(s, u)
      {
        assert s[u] == q[u - x - 3];
      }
      FindAnswerMarkerIs(s, x + 4, Some(x + 3 + n));
      assert s[x + 2 + n] == q[n - 1];
      assert s[x + 3..x + 3 + n] == q;
    }
  }

  /** ... the answer group starts right after "A: " ... */
  lemma CardAnswerStart(s: string, x: nat, c: Flashcard)
    ensures CardAt(s, x, c) ==>
      SkipSpaces(s, x + 6 + |c.question|) == x + 7 + |c.question| &&
      s[x + 7 + |c.question|..x + |CardText(c)|] == c.answer
  {
    if CardAt(s, x, c) {
      var a, n := c.answer, |c.question|;
      CardChars(s, x, c);
      assert s[x + 7 + n] == a[0];
      SkipSpacesIs(s, x + 6 + n, x + 7 + n);
      assert s[x + 7 + n..x + 7 + n + |a|] == a;
    }
  }

  /** ... and runs to where the card's text ends when a stop follows it. */
  lemma CardAnswerEnd(s: string, x: nat, c: Flashcard)
    ensures CardAt(s, x, c) && AnswerStopAt(s, x + |CardText(c)|) ==>
      FindStop(s, x + 8 + |c.question|) == x + |CardText(c)|
  {
    if CardAt(s, x, c) && AnswerStopAt(s, x + |CardText(c)|) {
      var a, n := c.answer, |c.question|;
      CardChars(s, x, c);
      var e := 7 + n + |a|;
      forall u | x + 8 + n <= u < x + e
        ensures !AnswerStopAt(s, u)
      {
        assert s[u] == a[u - x - 7 - n];
      }
      FindStopIs(s, x + 8 + n, x + e);
    }
  }

  lemma CardMarker(s: string, x: nat, c: Flashcard)
    ensures CardAt(s, x, c) ==> QuestionMarkerAt(s, x)
  {
    if CardAt(s, x, c) {
      CardChars(s, x, c);
    }
  }

  /** A card's text at a line start, followed by a stop, is matched there with
      exactly the card's question and answer as groups. */
  lemma CardMatch(s: string, x: nat, c: Flashcard)
    ensures CardAt(s, x, c) && AnswerStopAt(s, x + |CardText(c)|) ==>
      MatchAt(s, x) == Some(Match(x, x + 3 + |c.question|, c.question, c.answer, x + |CardText(c)|))
  {
    var n, e := |c.question|, |CardText(c)|;
    if CardAt(s, x, c) && AnswerStopAt(s, x + e) {
      CardScanned(s, x, c, n, e);
    }
  }

  lemma CardScanned(s: string, x: nat, c: Flashcard, n: nat, e: nat)
    requires CardAt(s, x, c) && n == |c.question| && e == |CardText(c)| && AnswerStopAt(s, x + e)
    ensures MatchAt(s, x) == Some(Match(x, x + 3 + n, c.question, c.answer, x + e))
  {
    CardMarker(s, x, c);
    CardQuestionFound(s, x, c);
    CardAnswerStart(s, x, c);
    CardAnswerEnd(s, x, c);
    MatchAtScanned(s, x, x + 3, x + 3 + n, x + 7 + n, x + e, c.question, c.answer);
  }

  lemma MatchesSkipNewline(s: string, x: nat)
    requires x < |s| && s[x] == '\n'
    ensures Matches(s, x) == Matches(s, x + 1)
  {
    NextMatchPastNewline(s, x);
    MatchesUnfold(s, x);
    MatchesUnfold(s, x + 1);
  }

  lemma RenderStart(cards: seq<Flashcard>)
    requires |cards| > 0
    ensures |Render(cards)| >= 3 && Render(cards)[..3] == "Q: "
  {
    if |cards| >= 2 {
      RenderCons(cards);
    }
  }

  /** Where the first card's text ends inside a rendering of two or more
      cards: a newline, then the rendering of the rest. */
  lemma RenderedLayout(s: string, x: nat, cards: seq<Flashcard>)
    requires |cards| >= 2 && x <= |s| && s[x..] == Render(cards)
    ensures var e := x + |CardText(cards[0])|;
      e < |s| && s[x..e] == CardText(cards[0]) && s[e] == '\n' &&
      NextQuestionAt(s, e) && s[e + 1..] == Render(cards[1..])
  {
    var w := CardText(cards[0]);
    var rest := Render(cards[1..]);
    RenderCons(cards);
    RenderStart(cards[1..]);
    SplitSuffix(s, x, w, "\n" + rest);
    SplitSuffix(s, x + |w|, "\n", rest);
    assert s[x + |w| + 1..x + |w| + 4] == rest[..3];
  }

  lemma RenderedTail(s: string, x: nat, cards: seq<Flashcard>)
    requires |cards| >= 2 && x <= |s| && s[x..] == Render(cards)
    ensures x + |CardText(cards[0])| < |s|
    ensures LineStart(s, x + |CardText(cards[0])| + 1)
    ensures s[x + |CardText(cards[0])| + 1..] == Render(cards[1..])
  {
    RenderedLayout(s, x, cards);
  }

  /** The match each card's text produces when the rendering starts at `x`. */
  function CardMatches(x: nat, cards: seq<Flashcard>): (ms: seq<Match>)
    ensures |ms| == |cards|
    decreases |cards|
  {
    if |cards| == 0 then []
    else
      var c := cards[0];
      [Match(x, x + 3 + |c.question|, c.question, c.answer, x + |CardText(c)|)] +
      CardMatches(x + |CardText(c)| + 1, cards[1..])
  }

  function FirstCardMatch(x: nat, cards: seq<Flashcard>): Match
    requires |cards| > 0
  {
    CardMatches(x, cards)[0]
  }

  /** From the line start `x` on, `s` holds the cards' texts, each followed
      by a newline and the next, the last ending the text. */
  predicate LaidOut(s: string, x: nat, cards: seq<Flashcard>)
    decreases |cards|
  {
    if |cards| == 0 then x == |s|
    else
      var e := x + |CardText(cards[0])|;
      CardAt(s, x, cards[0]) &&
      if |cards| == 1 then e == |s|
      else e < |s| && s[e] == '\n' && NextQuestionAt(s, e) && LaidOut(s, e + 1, cards[1..])
  }

  // The lemmas below state their hypotheses as the left side of an
  // implication: they are used next to `MatchAt` terms, where checking a
  // precondition conjunct by conjunct is expensive.

  /** The first card of a layout, followed by a stop. */
  lemma LaidOutHead(s: string, x: nat, cards: seq<Flashcard>)
    requires |cards| > 0
    ensures LaidOut(s, x, cards) ==> CardAt(s, x, cards[0]) && AnswerStopAt(s, x + |CardText(cards[0])|)
  {
  }

  lemma FirstCardMatchIs(x: nat, cards: seq<Flashcard>)
    requires |cards| > 0
    ensures var c := cards[0];
      FirstCardMatch(x, cards) == Match(x, x + 3 + |c.question|, c.question, c.answer, x + |CardText(c)|)
  {
  }

  lemma LaidOutHeadMatch(s: string, x: nat, cards: seq<Flashcard>)
    requires |cards| > 0
    ensures LaidOut(s, x, cards) ==> MatchAt(s, x) == Some(FirstCardMatch(x, cards))
  {
    var c := cards[0];
    LaidOutHead(s, x, cards);
    CardMatch(s, x, c);
    FirstCardMatchIs(x, cards);
    if LaidOut(s, x, cards) {
      SomeOfEqual(MatchAt(s, x), Match(x, x + 3 + |c.question|, c.question, c.answer, x + |CardText(c)|), FirstCardMatch(x, cards));
    }
  }

  lemma SomeOfEqual(o: Option<Match>, m: Match, n: Match)
    requires o == Some(m) && m == n
    ensures o == Some(n)
  {
  }

  /** What the layout says past the first card: a newline, then the rest laid out. */
  lemma LaidOutTail(s: string, x: nat, cards: seq<Flashcard>)
    requires |cards| >= 2
    ensures var m := FirstCardMatch(x, cards);
      LaidOut(s, x, cards) ==>
      m.end == x + |CardText(cards[0])| && m.end < |s| && s[m.end] == '\n' && LaidOut(s, m.end + 1, cards[1..])
  {
    FirstCardMatchIs(x, cards);
    LaidOutRest(s, x, cards);
  }

  lemma LaidOutRest(s: string, x: nat, cards: seq<Flashcard>)
    requires |cards| >= 2
    ensures var e := x + |CardText(cards[0])|;
      LaidOut(s, x, cards) ==> e < |s| && s[e] == '\n' && LaidOut(s, e + 1, cards[1..])
  {
  }

  /** `findAll` on a layout of two or more cards: the first card's match,
      then the matches from the next line on. */
  lemma LaidOutFirstMatch(s: string, x: nat, cards: seq<Flashcard>)
    requires |cards| >= 2
    ensures var m := FirstCardMatch(x, cards);
      LaidOut(s, x, cards) ==> Matches(s, x) == [m] + Matches(s, m.end + 1)
  {
    LaidOutHeadMatch(s, x, cards);
    LaidOutTail(s, x, cards);
    if LaidOut(s, x, cards) {
      MatchesStep(s, x, FirstCardMatch(x, cards));
    }
  }

  /** The text laid out card by card is matched card by card. */
  lemma {:induction false} LaidOutMatches(s: string, x: nat, cards: seq<Flashcard>)
    ensures LaidOut(s, x, cards) ==> Matches(s, x) == CardMatches(x, cards)
    decreases |cards|
  {
    if |cards| < 2 {
      ShortLaidOutMatches(s, x, cards);
    } else {
      var m := FirstCardMatch(x, cards);
      LaidOutTail(s, x, cards);
      LaidOutMatches(s, m.end + 1, cards[1..]);
      LaidOutFirstMatch(s, x, cards);
      CardMatchesCons(x, cards, m);
      if LaidOut(s, x, cards) {
        SameHeadSameTail(Matches(s, x), CardMatches(x, cards), m, Matches(s, m.end + 1), CardMatches(m.end + 1, cards[1..]));
      }
    }
  }

  lemma ShortLaidOutMatches(s: string, x: nat, cards: seq<Flashcard>)
    requires |cards| < 2
    ensures LaidOut(s, x, cards) ==> Matches(s, x) == CardMatches(x, cards)
  {
    if |cards| == 0 {
      if LaidOut(s, x, cards) {
        MatchesAtEnd(s, x);
      }
    } else {
      LaidOutHeadMatch(s, x, cards);
      FirstCardMatchIs(x, cards);
      if LaidOut(s, x, cards) {
        MatchesLast(s, x, FirstCardMatch(x, cards));
      }
    }
  }

  lemma CardMatchesCons(x: nat, cards: seq<Flashcard>, m: Match)
    requires |cards| > 0 && m == FirstCardMatch(x, cards)
    ensures CardMatches(x, cards) == [m] + CardMatches(m.end + 1, cards[1..])
  {
  }

  /** Two lists with the same head and equal tails are equal. */
  lemma SameHeadSameTail<T>(a: seq<T>, d: seq<T>, m: T, b: seq<T>, c: seq<T>)
    requires a == [m] + b && b == c && d == [m] + c
    ensures a == d
  {
  }

  lemma MatchesAtEnd(s: string, x: nat)
    requires x == |s|
    ensures Matches(s, x) == []
  {
    MatchesUnfold(s, x);
    assert NextMatch(s, x).None?;
  }

  lemma MatchesLast(s: string, x: nat, m: Match)
    requires MatchAt(s, x) == Some(m) && m.end == |s|
    ensures Matches(s, x) == [m]
  {
    NextMatchHere(s, x);
    assert Matches(s, x) == [m] + Matches(s, m.end);
    MatchesAtEnd(s, m.end);
  }

  lemma MatchesStep(s: string, x: nat, m: Match)
    requires MatchAt(s, x) == Some(m) && m.end < |s| && s[m.end] == '\n'
    ensures Matches(s, x) == [m] + Matches(s, m.end + 1)
  {
    NextMatchHere(s, x);
    assert Matches(s, x) == [m] + Matches(s, m.end);
    MatchesSkipNewline(s, m.end);
  }

  lemma RenderedSingleLaidOut(s: string, x: nat, c: Flashcard)
    requires Renderable(c) && LineStart(s, x) && s[x..] == Render([c])
    ensures LaidOut(s, x, [c])
  {
    assert Render([c]) == CardText(c) + [];
    SplitSuffix(s, x, CardText(c), []);
  }

  /** The rendering of `cards` filling the text from a line start is laid
      out card by card. */
  lemma {:induction false} RenderedLaidOut(s: string, x: nat, cards: seq<Flashcard>)
    requires forall k :: 0 <= k < |cards| ==> Renderable(cards[k])
    requires LineStart(s, x) && s[x..] == Render(cards)
    ensures LaidOut(s, x, cards)
    decreases |cards|
  {
    if |cards| == 0 {
      assert s[x..] == [];
    } else if |cards| == 1 {
      assert cards == [cards[0]];
      RenderedSingleLaidOut(s, x, cards[0]);
    } else {
      var e := x + |CardText(cards[0])|;
      RenderedTail(s, x, cards);
      RenderedLaidOut(s, e + 1, cards[1..]);
      RenderedLayout(s, x, cards);
    }
  }

  /** Each card's match is kept and turned back into the card. */
  lemma {:induction false} CardsOfCardMatches(x: nat, cards: seq<Flashcard>)
    requires forall k :: 0 <= k < |cards| ==> Renderable(cards[k])
    ensures Cards(CardMatches(x, cards)) == cards
    decreases |cards|
  {
    if |cards| > 0 {
      var c := cards[0];
      var m := FirstCardMatch(x, cards);
      var rest := CardMatches(m.end + 1, cards[1..]);
      FirstCardMatchIs(x, cards);
      RenderableCardKept(m, c);
      CardMatchesCons(x, cards, m);
      CardsOfCardMatches(m.end + 1, cards[1..]);
      KeptHead(CardMatches(x, cards), m, rest);
      HeadAndTail(Cards(CardMatches(x, cards)), CardOf(m), Cards(rest), cards);
    }
  }

  /** A match whose groups are a renderable card's texts gives back the card. */
  lemma RenderableCardKept(m: Match, c: Flashcard)
    requires Renderable(c) && m.question == c.question && m.answer == c.answer
    ensures Kept(m) && CardOf(m) == c
  {
  }

  lemma KeptHead(ms: seq<Match>, m: Match, rest: seq<Match>)
    requires ms == [m] + rest && Kept(m)
    ensures Cards(ms) == [CardOf(m)] + Cards(rest)
  {
    assert ms[0] == m && ms[1..] == rest;
  }

  /** A list is its head followed by its tail. */
  lemma HeadAndTail<T>(a: seq<T>, h: T, t: seq<T>, b: seq<T>)
    requires a == [h] + t && |b| > 0 && h == b[0] && t == b[1..]
    ensures a == b
  {
    assert b == [b[0]] + b[1..];
  }

  /** Parsing the rendered cards gives back exactly the cards. */
  lemma ParseRender(cards: seq<Flashcard>)
    requires forall k :: 0 <= k < |cards| ==> Renderable(cards[k])
    ensures Parse(Render(cards)) == cards
  {
    var s := Render(cards);
    assert s[0..] == s;
    RenderedLaidOut(s, 0, cards);
    LaidOutMatches(s, 0, cards);
    CardsOfCardMatches(0, cards);
  }
}
