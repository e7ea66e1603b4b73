# CramMode core in Dafny

CramMode is an Android study app. It sends the user's notes to a chat model and turns the reply into a summary, a deck of flashcards or a multiple-choice quiz. Each result is kept in a per-user study history. This project models the app's logic in Dafny and proves properties of it. The screens' layout and the remote services are not modelled.

What is modelled, one module per source file:

- `FlashcardParser` (`FlashcardUtils.kt`) scans the flashcard reply the way the JVM regex engine does. The pattern is `(?m)^Q:\s*(.+?)\r?\nA:\s*(.+?)(?=(\r?\nQ:)|\z)` with DOTALL. The module writes out the lazy groups, the lookahead, and the backtracking of `\s*` into a line break. Matches are kept only when both trimmed groups are non-empty.
- `FlashcardRender` proves that cards written in the format the generator asks for parse back to exactly those cards. In that format each card is a `Q:` line and an `A:` line.
- `QuizRender` proves that questions written in the English format the quiz generator asks for (`Question:` line, lettered option lines, `Answer:` line) parse back to exactly those questions, in order.
- `QuizParser` (`QuizUtils.kt`) covers:
  - the split before every `Question:` / `Tanong:` (any case);
  - the question, option and answer patterns of each block;
  - the map from the answer letter to its option, and the checks that drop a block.
- `FlashcardViewer` and `QuizHistoryViewer` model the card viewer's `next` / `prev` / `flip` and the read-only quiz review. The review has a green/red shading of options and a score line.
- `QuizSession` (`QuizViewerActivity.kt`) models a quiz run:
  - The question list is shuffled. The shuffled list holds the same question objects, so an answer written through it lands in the original list, and the original list is the one saved.
  - Selection, Submit / Next / Finish, the per-question countdown and the timeout are modelled.
  - So are the read-only prefill, the score screen and Retry.
- `FlashcardsScreen`, `QuizScreen`, `GeneratorInput` model the generator screens' Generate button, count field, Clear button and import. `FlashcardsScreen` also covers the history record.
- `Summary` models the summary prompts, the cleaning of the reply and the rule deciding what goes into the history.
- `Home` models the history tab:
  - loading, newest first;
  - the type and date filters;
  - deleting, the card preview and subtitle;
  - the profile counters and the last quiz score.
- `Auth` models the email and password checks before sign-in, the Login/Register toggle and the launch decision.
- `Model` holds the shared records and the quiz score. `KotlinStd` and `RegexScan` hold the Kotlin library and regex behaviour the rest relies on, such as `trim`, `lowercase`, `toIntOrNull`, `replace`, `\s*` and `.`.

Remote calls are parameters: the chat reply, the signed-in user, the clock, the calendar tests, and the shuffle order. A chat reply is a datatype with one case for each outcome the source distinguishes, such as a delivered body, a missing body, a failed status or an exception.

The comment at `QuizUtils.kt:27` asks for at least two options, but the check on the next line only requires the option list to be non-empty. The model follows the code.

## Model

| member | source | states |
|---|---|---|
| Auth.ValidEmailIsLocalPartAtDomain | app/src/main/java/com/labactivity/crammode/AuthComposeActivity.kt:345 | The email pattern accepts exactly a non-empty run of `[A-Za-z0-9._%+-]` followed by `@email.com` (both directions). |
| Auth.ValidEmailHasOneAt | app/src/main/java/com/labactivity/crammode/AuthComposeActivity.kt:345 | An accepted address has its only `@` right before `email.com`. |
| Auth.MalformedEmailsRejected | app/src/main/java/com/labactivity/crammode/AuthComposeActivity.kt:371 | An address with two `@`s, or starting with `@`, is rejected. |
| Auth.Login | app/src/main/java/com/labactivity/crammode/AuthComposeActivity.kt:345-354 | Login is sent iff the email matches and the password is non-empty; a bad email is reported first; the password length is never checked. |
| Auth.Register | app/src/main/java/com/labactivity/crammode/AuthComposeActivity.kt:371-380 | Registration is sent iff the email matches and the password has at least 6 characters; a bad email is reported first. |
| Auth.RegisterPasswordsLogIn | app/src/main/java/com/labactivity/crammode/AuthComposeActivity.kt:371-378 | Every email and password that registration accepts is also accepted by login, unchanged. |
| Auth.Toggle | app/src/main/java/com/labactivity/crammode/AuthComposeActivity.kt:325-329 | The Login/Register link flips the mode and empties both fields. |
| Auth.ToggleTwice | app/src/main/java/com/labactivity/crammode/AuthComposeActivity.kt:325-329 | Toggling twice gives back the mode, with both fields emptied. |
| Auth.ToggledFormIsRejected | app/src/main/java/com/labactivity/crammode/AuthComposeActivity.kt:325-329 | Right after a toggle the main button is refused for the email. |
| Auth.Press | app/src/main/java/com/labactivity/crammode/AuthComposeActivity.kt:240-246 | The main button runs the login checks in login mode and the registration checks otherwise. |
| Auth.Launch | app/src/main/java/com/labactivity/crammode/AuthComposeActivity.kt:68-73 | The screen is skipped for Home iff a user is signed in and did not just sign out; otherwise the form opens in login mode, empty. |
| KotlinStd.Lowercase | app/src/main/java/com/labactivity/crammode/SummaryActivity.kt:431 | Definition (ASCII `lowercase()` character by character); what it is used for, case-insensitive comparison, is proved in `KotlinStd.EqualsIgnoreCaseIsLowercaseEquality`. |
| KotlinStd.EqualsIgnoreCaseIsLowercaseEquality | app/src/main/java/com/labactivity/crammode/HomeComposeActivity.kt:285 | `equals(ignoreCase = true)` holds exactly when the lower-cased strings are equal. |
| KotlinStd.Trim | app/src/main/java/com/labactivity/crammode/FlashcardUtils.kt:17-18 | `trim()` gives a string with no whitespace at either end, empty iff the input is blank, and leaves a trimmed string unchanged. |
| KotlinStd.TrimDropsOnlyMargins | app/src/main/java/com/labactivity/crammode/FlashcardUtils.kt:17-18 | `trim()` drops whitespace at both ends and keeps the middle slice unchanged. |
| KotlinStd.TrimIdempotent | app/src/main/java/com/labactivity/crammode/FlashcardUtils.kt:17-18 | Trimming twice is the same as trimming once. |
| KotlinStd.TrimKeepsNonWhitespace | app/src/main/java/com/labactivity/crammode/QuizUtils.kt:21 | Every non-whitespace character survives trimming, at the same offset from the first one. |
| KotlinStd.Take | app/src/main/java/com/labactivity/crammode/HomeComposeActivity.kt:379 | `take(n)` is the prefix of length `min(n, length)`. |
| KotlinStd.RemoveDoubleStars | app/src/main/java/com/labactivity/crammode/SummaryActivity.kt:494 | `replace("**", "")` leaves no `**`, never lengthens the text, keeps a first character that is not `*`, and brings in no new character. |
| KotlinStd.RemoveDoubleStarsKeepsOthers | app/src/main/java/com/labactivity/crammode/SummaryActivity.kt:494 | Every character other than `*` is kept, in order. |
| KotlinStd.RemoveDoubleStarsRemovesPairs | app/src/main/java/com/labactivity/crammode/SummaryActivity.kt:494 | Exactly two stars are removed per non-overlapping `**`, and nothing else. |
| KotlinStd.RemoveDoubleStarsRun | app/src/main/java/com/labactivity/crammode/SummaryActivity.kt:494 | A run of n stars keeps n mod 2 of them (pairs are taken from the left) and the rest of the text is cleaned on its own. |
| KotlinStd.RemoveDoubleStarsNoop | app/src/main/java/com/labactivity/crammode/SummaryActivity.kt:494 | The text is unchanged exactly when it holds no `**`. |
| KotlinStd.JoinKeepsNoDoubleStar | app/src/main/java/com/labactivity/crammode/SummaryActivity.kt:494 | Joining star-free blocks with a newline creates no `**`. |
| KotlinStd.IntToString | app/src/main/java/com/labactivity/crammode/SummaryActivity.kt:496 | `Int.toString()` is non-empty and starts with a digit iff the number is not negative. |
| KotlinStd.ToIntOrNull | app/src/main/java/com/labactivity/crammode/FlashcardsActivity.kt:106 | `toIntOrNull()` gives a value in the 32-bit range, nothing for the empty string, and the digits' value for a digit string that fits. |
| KotlinStd.DigitsValueOfNatToString | app/src/main/java/com/labactivity/crammode/HomeComposeActivity.kt:649 | Reading back a formatted count gives the count. |
| KotlinStd.ToIntOrNullOfNatToString | app/src/main/java/com/labactivity/crammode/FlashcardsActivity.kt:106 | `toIntOrNull()` of a formatted count in range is that count. |
| KotlinStd.NatToStringInjective | app/src/main/java/com/labactivity/crammode/HomeComposeActivity.kt:649 | Two different counts are never formatted the same. |
| RegexScan.SkipSpaces | app/src/main/java/com/labactivity/crammode/FlashcardUtils.kt:12 | Greedy `\s*` stops at the first character that is not a regex space. |
| RegexScan.LineEnd | app/src/main/java/com/labactivity/crammode/QuizUtils.kt:16 | A `.` run without DOTALL stops at the first `\n` or `\r`. |
| Model.Score | app/src/main/java/com/labactivity/crammode/QuizViewerActivity.kt:104-108 | The count of questions whose user answer equals the correct answer is at most the number of questions. |
| Model.ScoreExtremes | app/src/main/java/com/labactivity/crammode/QuizViewerActivity.kt:371 | The score equals the question count iff every answer is correct, and is 0 iff none is. |
| Model.ScoreAppend | app/src/main/java/com/labactivity/crammode/QuizHistoryViewerActivity.kt:52 | The score of two lists together is the sum of their scores. |
| Model.ScorePermutationInvariant | app/src/main/java/com/labactivity/crammode/QuizViewerActivity.kt:100-108 | Any rearrangement of the questions has the same score. |
| Model.ScoreRemove | app/src/main/java/com/labactivity/crammode/QuizViewerActivity.kt:104-108 | Taking one question out of a list takes its contribution off the score. |
| Model.View | app/src/main/java/com/labactivity/crammode/QuizViewerActivity.kt:100-102 | Definition of the shuffled list as aliases of the original questions; its meaning is proved in `Model.PermutedViewSameElements` and `Model.PermutedViewSameScore`. |
| Model.ViewMultiset | app/src/main/java/com/labactivity/crammode/QuizViewerActivity.kt:100-102 | Two index orders with the same indices show the same questions. |
| Model.PermutedViewSameElements | app/src/main/java/com/labactivity/crammode/QuizViewerActivity.kt:100-102 | The shuffled list holds exactly the questions of the original list. |
| Model.PermutedViewSameScore | app/src/main/java/com/labactivity/crammode/QuizViewerActivity.kt:104-108 | The score counted over the shuffled list equals the score of the original list that is saved. |
| FlashcardParser.FindAnswerMarker | app/src/main/java/com/labactivity/crammode/FlashcardUtils.kt:12 | Finds the first `\nA:` at or after a position, and there is none before it. |
| FlashcardParser.FindStop | app/src/main/java/com/labactivity/crammode/FlashcardUtils.kt:12 | Finds the first position where the lookahead `(?=(\r?\nQ:)\|\z)` holds, and there is none before it. |
| FlashcardParser.AnswerPart | app/src/main/java/com/labactivity/crammode/FlashcardUtils.kt:12 | The answer group is non-empty, ends at the first lookahead position after its first character, and does not end in `\r` when a `Q:` line follows. |
| FlashcardParser.MatchAt | app/src/main/java/com/labactivity/crammode/FlashcardUtils.kt:11-14 | A match starts only at a line-start `Q:`, has its `\nA:` after the question, and ends where the lookahead holds. |
| FlashcardParser.MatchAtFound | app/src/main/java/com/labactivity/crammode/FlashcardUtils.kt:12 | With an `\nA:` after the greedy `\s*`, the question group runs up to the first such marker, less a `\r` before it. |
| FlashcardParser.MatchAtBacktracked | app/src/main/java/com/labactivity/crammode/FlashcardUtils.kt:12 | With no such `\nA:`, the only match gives back the `\n` of an `\nA:` that `\s*` took, and the question is the single space before it. |
| FlashcardParser.NoMatchWithoutAnswer | app/src/main/java/com/labactivity/crammode/FlashcardUtils.kt:12 | With no `\nA:` reachable, there is no match at that `Q:`. |
| FlashcardParser.NextMatch | app/src/main/java/com/labactivity/crammode/FlashcardUtils.kt:16 | `find` returns the match with the least start at or after the search position; there is no match at any earlier start. |
| FlashcardParser.MatchesUnfold | app/src/main/java/com/labactivity/crammode/FlashcardUtils.kt:16 | `findAll` is the next match followed by the matches found from its end, and is empty iff there is no next match. |
| FlashcardParser.MatchesAreMatches | app/src/main/java/com/labactivity/crammode/FlashcardUtils.kt:16 | Every match of `findAll` is the match found at a line-start `Q:`. |
| FlashcardParser.MatchesOrdered | app/src/main/java/com/labactivity/crammode/FlashcardUtils.kt:16 | The matches do not overlap and come in order. |
| FlashcardParser.MatchesAtMostMarkers | app/src/main/java/com/labactivity/crammode/FlashcardUtils.kt:11-16 | There are at most as many matches as line-start `Q:` markers. |
| FlashcardParser.AnswersRunToStop | app/src/main/java/com/labactivity/crammode/FlashcardUtils.kt:12 | Every answer group ends where the next `Q:` line starts or at the end of the text, and holds no earlier stop. |
| FlashcardParser.Cards | app/src/main/java/com/labactivity/crammode/FlashcardUtils.kt:16-22 | Each kept card has a non-empty, trimmed question and answer, and there are at most as many cards as matches. |
| FlashcardParser.KeptIndicesSelectCards | app/src/main/java/com/labactivity/crammode/FlashcardUtils.kt:16-22 | Card `k` is the trimmed groups of the `k`-th match whose trimmed groups are both non-empty. |
| FlashcardParser.KeptIndicesIncrease | app/src/main/java/com/labactivity/crammode/FlashcardUtils.kt:16-22 | The kept matches are taken in their order. |
| FlashcardParser.Parse | app/src/main/java/com/labactivity/crammode/FlashcardUtils.kt:7-25 | Every parsed card is non-empty and trimmed, and there are at most as many cards as line-start `Q:` markers. |
| FlashcardParser.CardsFollowQuestionMarkers | app/src/main/java/com/labactivity/crammode/FlashcardUtils.kt:7-25 | The cards are the trimmed groups of the matches at increasing line-start `Q:` markers, in text order. |
| FlashcardParser.NoAnswerAfterQuestionMeansNoCards | app/src/main/java/com/labactivity/crammode/FlashcardUtils.kt:11-16 | Text with no `\nA:` after any line-start `Q:` parses to no cards. |
| FlashcardParser.QuestionWithoutAnswerIsMerged | app/src/main/java/com/labactivity/crammode/FlashcardUtils.kt:11-14 | A `Q:` line with no `A:` line before the next `Q:` starts a match only if an `\nA:` follows that next `Q:`, and then that `Q:` is inside the first question. |
| FlashcardParser.MergedQuestionKeepsMarker | app/src/main/java/com/labactivity/crammode/FlashcardUtils.kt:16-18 | In that case the trimmed question still contains the second `Q:`. |
| FlashcardRender.CardTexts | app/src/main/java/com/labactivity/crammode/FlashcardsActivity.kt:301-302 | Definition of the `Q:`/`A:` layout; `FlashcardRender.ParseRender` proves it parses back to the cards. |
| FlashcardRender.LaidOutMatches | app/src/main/java/com/labactivity/crammode/FlashcardUtils.kt:16 | In text laid out card by card, `findAll` finds exactly one match per card, in order. |
| FlashcardRender.CardsOfCardMatches | app/src/main/java/com/labactivity/crammode/FlashcardUtils.kt:16-22 | The match found for each card is kept and gives back that card. |
| FlashcardRender.RenderableCardKept | app/src/main/java/com/labactivity/crammode/FlashcardUtils.kt:17-20 | A match whose groups are a non-empty, trimmed card's texts is kept as that card. |
| FlashcardRender.ParseRender | app/src/main/java/com/labactivity/crammode/FlashcardUtils.kt:7-25 | Parsing cards written in the requested `Q:`/`A:` format gives back exactly those cards, in order. |
| FlashcardViewer.Next | app/src/main/java/com/labactivity/crammode/FlashcardViewerActivity.kt:230-232 | `next` moves forward iff not on the last card, and then shows the front; otherwise nothing changes. |
| FlashcardViewer.Prev | app/src/main/java/com/labactivity/crammode/FlashcardViewerActivity.kt:234-236 | `prev` moves back iff not on the first card, and then shows the front; otherwise nothing changes. |
| FlashcardViewer.Flip | app/src/main/java/com/labactivity/crammode/FlashcardViewerActivity.kt:238-240 | `flip` turns the card over and changes nothing else. |
| FlashcardViewer.FlipTwice | app/src/main/java/com/labactivity/crammode/FlashcardViewerActivity.kt:238-240 | Flipping twice gives back the same state. |
| FlashcardViewer.PrevUndoesNext | app/src/main/java/com/labactivity/crammode/FlashcardViewerActivity.kt:230-236 | A `next` that moved is undone by `prev`, leaving the front shown. |
| FlashcardViewer.NextUndoesPrev | app/src/main/java/com/labactivity/crammode/FlashcardViewerActivity.kt:230-236 | A `prev` that moved is undone by `next`, leaving the front shown. |
| FlashcardViewer.StepKeepsInRange | app/src/main/java/com/labactivity/crammode/FlashcardViewerActivity.kt:230-240 | Any action keeps the index on a card. |
| FlashcardViewer.RunKeepsInRange | app/src/main/java/com/labactivity/crammode/FlashcardViewerActivity.kt:98 | After any sequence of actions on a non-empty list the progress line reads i / n with 1 <= i <= n. |
| FlashcardViewer.InitInRange | app/src/main/java/com/labactivity/crammode/FlashcardViewerActivity.kt:226-228 | A non-empty list opens on the first card's question. |
| FlashcardViewer.EmptyListStaysAtZero | app/src/main/java/com/labactivity/crammode/FlashcardViewerActivity.kt:103 | With no cards the index stays 0 whatever is pressed. |
| FlashcardViewer.Progress | app/src/main/java/com/labactivity/crammode/FlashcardViewerActivity.kt:98 | The progress line `index+1 / size` shows the number of cards, and its first number lies in 1..size exactly when the index is on a card. |
| FlashcardsScreen.ReplyText | app/src/main/java/com/labactivity/crammode/FlashcardsActivity.kt:334-340 | A 2xx reply with a body is its text blocks joined with newlines; a non-2xx status, a missing body and an exception all give "". |
| FlashcardsScreen.CardMaps | app/src/main/java/com/labactivity/crammode/FlashcardsActivity.kt:275-277 | Definition of the stored card maps; `FlashcardsScreen.CardMapsRoundTrip` proves they read back as the cards. |
| FlashcardsScreen.CardMapsRoundTrip | app/src/main/java/com/labactivity/crammode/FlashcardsActivity.kt:275-277 | Reading the stored maps back gives the cards. |
| FlashcardsScreen.SaveHistory | app/src/main/java/com/labactivity/crammode/FlashcardsActivity.kt:268-281 | Without a signed-in user nothing is written; with one, exactly one `flashcards` record with the input and the cards. |
| FlashcardsScreen.GenerateChecksInOrder | app/src/main/java/com/labactivity/crammode/FlashcardsActivity.kt:101-110 | Blank input is refused first, then a count outside 1..10, each with its own message and no other change. |
| FlashcardsScreen.GenerateSavesOnlyCards | app/src/main/java/com/labactivity/crammode/FlashcardsActivity.kt:113-124 | The shown cards are the parse of the reply; they are saved and the viewer opens iff there is at least one. |
| FlashcardsScreen.FailedReplyGeneratesNothing | app/src/main/java/com/labactivity/crammode/FlashcardsActivity.kt:336-340 | A failed call saves nothing and opens nothing. |
| FlashcardsScreen.Clear | app/src/main/java/com/labactivity/crammode/FlashcardsActivity.kt:176-177 | Clear empties the input and the cards and touches nothing else. |
| FlashcardsScreen.ImportAfterClear | app/src/main/java/com/labactivity/crammode/FlashcardsActivity.kt:223 | Importing after Clear makes the imported text the whole input. |
| GeneratorInput.EditCount | app/src/main/java/com/labactivity/crammode/FlashcardsActivity.kt:204 | An edit of the count field is kept iff it is all digits and at most two long; otherwise the field keeps its text. |
| GeneratorInput.EditKeepsFieldOk | app/src/main/java/com/labactivity/crammode/QuizActivity.kt:196 | No edit leaves the field holding anything but at most two digits. |
| GeneratorInput.RequestedCount | app/src/main/java/com/labactivity/crammode/QuizActivity.kt:106-110 | A count is requested iff the field reads as an integer in 1..10. |
| GeneratorInput.FieldValue | app/src/main/java/com/labactivity/crammode/QuizActivity.kt:106 | The filtered field reads as nothing iff it is empty, and otherwise as a number below 100. |
| GeneratorInput.TypedCountIsRequested | app/src/main/java/com/labactivity/crammode/QuizActivity.kt:106-110 | Every count in 1..10 can be typed and is then requested. |
| GeneratorInput.AppendImport | app/src/main/java/com/labactivity/crammode/QuizActivity.kt:216 | Imported text becomes the input of an empty field, and otherwise goes after the input and a newline. |
| QuizParser.NextSplit | app/src/main/java/com/labactivity/crammode/QuizUtils.kt:10 | The next split point is inside the text. |
| QuizParser.NextSplitIsFirst | app/src/main/java/com/labactivity/crammode/QuizUtils.kt:10 | The split found is a `Question:`/`Tanong:` position (any case), and there is none before it. |
| QuizParser.PiecesFrom | app/src/main/java/com/labactivity/crammode/QuizUtils.kt:10 | `split` gives at least one piece and loses nothing: the pieces concatenated give back the text. |
| QuizParser.BlockCount | app/src/main/java/com/labactivity/crammode/QuizUtils.kt:10 | There is one more block than there are markers. |
| QuizParser.MarkersDoNotOverlap | app/src/main/java/com/labactivity/crammode/QuizUtils.kt:10 | No marker position lies inside another marker. |
| QuizParser.PiecesOpenWithMarkers | app/src/main/java/com/labactivity/crammode/QuizUtils.kt:10 | Every piece after the first opens with a whole `Question:`/`Tanong:` marker. |
| QuizParser.GroupStart | app/src/main/java/com/labactivity/crammode/QuizUtils.kt:13 | `\s*` gives back characters until the lazy group can end; the first workable end is the one used. |
| QuizParser.QuestionMarkerLength | app/src/main/java/com/labactivity/crammode/QuizUtils.kt:13 | The question label matches at a position iff the text splits there. |
| QuizParser.QuestionAt | app/src/main/java/com/labactivity/crammode/QuizUtils.kt:13 | A question group is non-empty, holds no line break, and follows a label. |
| QuizParser.FindQuestion | app/src/main/java/com/labactivity/crammode/QuizUtils.kt:13 | `find` gives the match at the first position where the question pattern matches, and none when no position does. |
| QuizParser.OptionAt | app/src/main/java/com/labactivity/crammode/QuizUtils.kt:16 | An option match starts with a letter A-D (any case) and `.` or `)`, and its text is non-empty and on one line. |
| QuizParser.OptionTexts | app/src/main/java/com/labactivity/crammode/QuizUtils.kt:16 | Every option text found is non-empty. |
| QuizParser.OptionStarts | app/src/main/java/com/labactivity/crammode/QuizUtils.kt:16 | Each collected match starts inside the block at a position where the option pattern matches. |
| QuizParser.OptionStartsMatchTexts | app/src/main/java/com/labactivity/crammode/QuizUtils.kt:16 | The collected texts are, one for one, the texts of the matches at those starts. |
| QuizParser.OptionStartsDoNotOverlap | app/src/main/java/com/labactivity/crammode/QuizUtils.kt:16 | Each match starts at or after the end of the previous one. |
| QuizParser.OptionFoundOrCovered | app/src/main/java/com/labactivity/crammode/QuizUtils.kt:16 | Every position where the option pattern matches is collected, unless it lies inside an earlier collected match. |
| QuizParser.TrimAll | app/src/main/java/com/labactivity/crammode/QuizUtils.kt:22 | Definition (`map { trim() }`); `QuizRender.BlockOptions` proves the trimmed options of a rendered block are exactly its options. |
| QuizParser.AnswerAt | app/src/main/java/com/labactivity/crammode/QuizUtils.kt:18 | The answer group is a letter A-D in either case. |
| QuizParser.FindAnswer | app/src/main/java/com/labactivity/crammode/QuizUtils.kt:18 | `find` gives the letter at the first position where the answer pattern matches, and none when no position does. |
| QuizParser.LetterIndex | app/src/main/java/com/labactivity/crammode/QuizUtils.kt:23-24 | The index of the upper-cased answer letter in "ABCD". |
| QuizParser.BlockQuestion | app/src/main/java/com/labactivity/crammode/QuizUtils.kt:20-37 | A block's question is emitted only with a non-empty question, options and correct answer, and no user answer. |
| QuizParser.CorrectAnswerIsLetteredOption | app/src/main/java/com/labactivity/crammode/QuizUtils.kt:22-25 | An emitted question's correct answer is the option at the answer letter's position. |
| QuizParser.BlockQuestionExactly | app/src/main/java/com/labactivity/crammode/QuizUtils.kt:20-37 | A block yields a question iff both patterns match, the trimmed question is non-empty and the option at the letter exists and is non-empty; the question is then exactly (trimmed question, options, that option, no answer). |
| QuizParser.DroppedBlocks | app/src/main/java/com/labactivity/crammode/QuizUtils.kt:20-28 | A block without a question match, without an answer match, or whose letter is past the last option yields nothing. |
| QuizParser.Questions | app/src/main/java/com/labactivity/crammode/QuizUtils.kt:12-39 | Every question emitted is well formed, and there are at most as many as blocks. |
| QuizParser.ParseQuiz | app/src/main/java/com/labactivity/crammode/QuizUtils.kt:6-42 | Every parsed question is well formed, and there are at most as many as markers in the trimmed text. |
| QuizParser.FirstBlockYieldsNothing | app/src/main/java/com/labactivity/crammode/QuizUtils.kt:10-13 | The text before the first marker never yields a question. |
| QuizParser.QuestionsAppend | app/src/main/java/com/labactivity/crammode/QuizUtils.kt:12-39 | The questions of two runs of blocks are those of the first followed by those of the second. |
| QuizParser.QuestionsOfOneBlock | app/src/main/java/com/labactivity/crammode/QuizUtils.kt:12-39 | Each block contributes its own question, or nothing. |
| QuizScreen.ReplyText | app/src/main/java/com/labactivity/crammode/QuizActivity.kt:296-298 | The reply is the trimmed blocks joined with newlines, or "" when that is blank or the body is missing. |
| QuizScreen.BlankBlocksReadAsNothing | app/src/main/java/com/labactivity/crammode/QuizActivity.kt:296-298 | A reply made only of blank blocks reads as "". |
| QuizScreen.PromptLanguageOf | app/src/main/java/com/labactivity/crammode/QuizActivity.kt:248 | Definition of the case-sensitive language check; `QuizScreen.PromptLanguageMindsCase` proves other casings get the English prompt. |
| QuizRender.BlockOptions | app/src/main/java/com/labactivity/crammode/QuizUtils.kt:16 | The option pattern finds, in a rendered block, exactly its options in order. |
| QuizRender.BlockFindsQuestion | app/src/main/java/com/labactivity/crammode/QuizUtils.kt:13 | The question pattern finds, in a rendered block, exactly its question text. |
| QuizRender.BlockColons | app/src/main/java/com/labactivity/crammode/QuizUtils.kt:18 | A rendered block has a colon only right after its two labels. |
| QuizRender.BlockFindsAnswer | app/src/main/java/com/labactivity/crammode/QuizUtils.kt:18 | The answer pattern finds, in a rendered block, exactly its answer letter. |
| QuizRender.BlockRoundTrip | app/src/main/java/com/labactivity/crammode/QuizUtils.kt:12-37 | A rendered block, with or without its trailing line break, parses back to the question. |
| QuizRender.NoSplitInBlock | app/src/main/java/com/labactivity/crammode/QuizUtils.kt:10 | Inside a rendered block, and right at its end, no marker matches. |
| QuizRender.RenderPieces | app/src/main/java/com/labactivity/crammode/QuizUtils.kt:10 | `split` cuts rendered questions into exactly their blocks. |
| QuizRender.QuestionsOfPieces | app/src/main/java/com/labactivity/crammode/QuizUtils.kt:12-39 | The blocks of rendered questions give back those questions. |
| QuizRender.RenderIsTrimmed | app/src/main/java/com/labactivity/crammode/QuizUtils.kt:10 | A rendering has no margin for `trim` to remove. |
| QuizRender.ParseRender | app/src/main/java/com/labactivity/crammode/QuizUtils.kt:6-42 | Parsing questions rendered in the requested format gives back exactly those questions, in order. |
| QuizScreen.PromptLanguageMindsCase | app/src/main/java/com/labactivity/crammode/QuizActivity.kt:248 | "filipino" and "FILIPINO" get the English prompt. |
| QuizScreen.PromptLabelsAreMarkers | app/src/main/java/com/labactivity/crammode/QuizActivity.kt:252-269 | The labels both prompts ask for are the markers the quiz parser recognises. |
| QuizScreen.VmGenerate | app/src/main/java/com/labactivity/crammode/QuizActivity.kt:231-245 | Blank input or a failed call leaves the list as it was; a reply replaces it with its parse, whose questions are all well formed. |
| QuizScreen.GenerateChecksInOrder | app/src/main/java/com/labactivity/crammode/QuizActivity.kt:101-110 | Blank input is refused first, then a count outside 1..10, each with no other change. |
| QuizScreen.DeliveredReplyOpensParse | app/src/main/java/com/labactivity/crammode/QuizActivity.kt:112-123 | A reply replaces the list with its parse, and the viewer opens on it iff it is not empty. |
| QuizScreen.EmptyReplyOpensNothing | app/src/main/java/com/labactivity/crammode/QuizActivity.kt:296-298 | A missing body yields no questions and opens nothing. |
| QuizScreen.FailureReopensPreviousList | app/src/main/java/com/labactivity/crammode/QuizActivity.kt:240-241 | A failed call keeps the previous list, and the viewer opens on it again when it is not empty. |
| QuizScreen.Clear | app/src/main/java/com/labactivity/crammode/QuizActivity.kt:170 | Clear empties the input and the list. |
| QuizScreen.GenerateAfterClearRefused | app/src/main/java/com/labactivity/crammode/QuizActivity.kt:170 | After Clear, Generate is refused for blank input and opens nothing. |
| QuizScreen.ImportAfterClear | app/src/main/java/com/labactivity/crammode/QuizActivity.kt:216 | Importing after Clear makes the imported text the whole input. |
| QuizSession.TruncDiv | app/src/main/java/com/labactivity/crammode/QuizViewerActivity.kt:116 | `Long` division truncates toward zero. |
| QuizSession.WriteAnswerThroughShuffle | app/src/main/java/com/labactivity/crammode/QuizViewerActivity.kt:334 | Writing the answer through the shuffled list changes exactly the one original question at that position's index, and only its answer. |
| QuizSession.SelectOnlyChangesSelection | app/src/main/java/com/labactivity/crammode/QuizViewerActivity.kt:284-286 | An option can be selected only while unanswered and not read-only, and selecting changes nothing else. |
| QuizSession.SubmitRecordsSelection | app/src/main/java/com/labactivity/crammode/QuizViewerActivity.kt:332-334 | Submit marks the question answered and records the selection as its answer. |
| QuizSession.SubmitNeedsSelection | app/src/main/java/com/labactivity/crammode/QuizViewerActivity.kt:347 | With nothing selected the button does nothing. |
| QuizSession.NextAfterAnswer | app/src/main/java/com/labactivity/crammode/QuizViewerActivity.kt:336-340 | After an answer the button moves to the next question, clears the selection and restarts the timer. |
| QuizSession.FinishOnLastQuestion | app/src/main/java/com/labactivity/crammode/QuizViewerActivity.kt:341-344 | On the last question the button ends the quiz and saves the original list iff the quiz is not read-only and a user is signed in. |
| QuizSession.CountdownTicks | app/src/main/java/com/labactivity/crammode/QuizViewerActivity.kt:134-138 | The timer starts at the truncated seconds and each tick takes one off; under a second it is out at once. |
| QuizSession.ReadOnlyHasNoTimer | app/src/main/java/com/labactivity/crammode/QuizViewerActivity.kt:133 | A read-only quiz never counts down or times out. |
| QuizSession.TimeoutRecordsNoAnswer | app/src/main/java/com/labactivity/crammode/QuizViewerActivity.kt:139-151 | A timeout records no answer and keeps the selection, then moves to the next question unanswered, or on the last one finishes and saves the list iff a user is signed in. |
| QuizSession.ShownScoreIsSavedScore | app/src/main/java/com/labactivity/crammode/QuizViewerActivity.kt:156-159 | The score shown is the score of the saved list, at most its size, and perfect iff every answer is correct. |
| QuizSession.ClearAnswers | app/src/main/java/com/labactivity/crammode/QuizViewerActivity.kt:162 | Definition of Retry's answer clearing; `QuizSession.RetryResets` proves the restarted quiz has no answers and a zero score. |
| QuizSession.RetryResets | app/src/main/java/com/labactivity/crammode/QuizViewerActivity.kt:161-164 | Retry starts over on the same questions with no answers, a new shuffle, a full timer and a zero score. |
| QuizSession.ReadOnlyPrefills | app/src/main/java/com/labactivity/crammode/QuizViewerActivity.kt:122-129 | In read-only mode each new question shows its stored answer selected and counts as answered. |
| QuizSession.EventKeepsContents | app/src/main/java/com/labactivity/crammode/QuizViewerActivity.kt:98-167 | No event changes a question's text, options or correct answer, and each saves at most once. |
| QuizSession.RunKeepsContents | app/src/main/java/com/labactivity/crammode/QuizViewerActivity.kt:98-167 | Whatever happens, the questions keep their contents and every saved list has them. |
| QuizSession.SavedContents | app/src/main/java/com/labactivity/crammode/QuizViewerActivity.kt:149 | A save records the current original list. |
| QuizHistoryViewer.Open | app/src/main/java/com/labactivity/crammode/QuizHistoryViewerActivity.kt:31-50 | A non-empty quiz opens on its first question. |
| QuizHistoryViewer.Previous | app/src/main/java/com/labactivity/crammode/QuizHistoryViewerActivity.kt:163 | Previous moves back iff not on the first question. |
| QuizHistoryViewer.Next | app/src/main/java/com/labactivity/crammode/QuizHistoryViewerActivity.kt:173 | Next moves forward iff not on the last question. |
| QuizHistoryViewer.ShadeMeaning | app/src/main/java/com/labactivity/crammode/QuizHistoryViewerActivity.kt:121-125 | An option is green iff it is the correct answer, red iff it is the user's wrong answer, and plain otherwise. |
| QuizHistoryViewer.NoWrongShadeWhenRightOrBlank | app/src/main/java/com/labactivity/crammode/QuizHistoryViewerActivity.kt:121-125 | A correctly answered or unanswered question shows no red option. |
| QuizHistoryViewer.WrongAnswerShown | app/src/main/java/com/labactivity/crammode/QuizHistoryViewerActivity.kt:121-125 | A wrong answer is shown red on exactly the options equal to it. |
| QuizHistoryViewer.WalkStaysValid | app/src/main/java/com/labactivity/crammode/QuizHistoryViewerActivity.kt:52 | No sequence of presses moves the index off the quiz or changes the quiz, so the score line never changes and stays within the quiz size. |
| QuizHistoryViewer.PreviousUndoesNext | app/src/main/java/com/labactivity/crammode/QuizHistoryViewerActivity.kt:162-178 | Previous after a Next that moved returns to the same question. |
| Home.Filter | app/src/main/java/com/labactivity/crammode/HomeComposeActivity.kt:284 | `filter` keeps each element satisfying the predicate as often as it occurs, and no other. |
| Home.FilterKeepsAll | app/src/main/java/com/labactivity/crammode/HomeComposeActivity.kt:284-294 | A filter every element passes keeps the list unchanged. |
| Home.FilterIsSubsequence | app/src/main/java/com/labactivity/crammode/HomeComposeActivity.kt:284 | A filter keeps the order of what it keeps. |
| Home.Insert | app/src/main/java/com/labactivity/crammode/HomeComposeActivity.kt:276 | Inserting into a list sorted by descending key keeps it sorted and adds exactly the element. |
| Home.CountGreater | app/src/main/java/com/labactivity/crammode/HomeComposeActivity.kt:276 | The leading run of elements with a key greater than a bound: all before it exceed the bound, the next one does not. |
| Home.InsertPosition | app/src/main/java/com/labactivity/crammode/HomeComposeActivity.kt:276 | The element lands right after the leading elements with a greater key and ahead of every tie, the others keeping their order, which makes the sort stable. |
| Home.SortDescending | app/src/main/java/com/labactivity/crammode/HomeComposeActivity.kt:276 | `sortedByDescending` is a permutation sorted newest first. |
| Home.FirstMaximum | app/src/main/java/com/labactivity/crammode/HomeComposeActivity.kt:638-641 | The first position holding the greatest key. |
| Home.SortedHeadIsFirstMaximum | app/src/main/java/com/labactivity/crammode/HomeComposeActivity.kt:638-641 | Because the sort is stable, its head is the first element with the greatest key. |
| Home.Records | app/src/main/java/com/labactivity/crammode/HomeComposeActivity.kt:274-275 | `mapNotNull` loads at most one record per document. |
| Home.RecordsAreConverted | app/src/main/java/com/labactivity/crammode/HomeComposeActivity.kt:274-275 | Each loaded record is a converting document with that document's id, and every document that converts is loaded. |
| Home.RecordFromDocument | app/src/main/java/com/labactivity/crammode/HomeComposeActivity.kt:274-275 | The record at any position of the loaded list is what some converting document loads as. |
| Home.DocumentIsLoaded | app/src/main/java/com/labactivity/crammode/HomeComposeActivity.kt:274-275 | A document that converts has its record, with its id, in the loaded list. |
| Home.RecordsKeepOrder | app/src/main/java/com/labactivity/crammode/HomeComposeActivity.kt:274-275 | Loading keeps document order: the records of two runs of documents are the records of the first followed by those of the second. |
| Home.LoadHistory | app/src/main/java/com/labactivity/crammode/HomeComposeActivity.kt:274-276 | The history list is the converted records, sorted newest first. |
| Home.FilterHistory | app/src/main/java/com/labactivity/crammode/HomeComposeActivity.kt:284-294 | The shown list holds each record that matches both the type and the date filter, as often as it is loaded. |
| Home.FilterHistoryMeaning | app/src/main/java/com/labactivity/crammode/HomeComposeActivity.kt:284-294 | The shown list keeps the loaded order and holds exactly the records matching both filters. |
| Home.AllFiltersShowEverything | app/src/main/java/com/labactivity/crammode/HomeComposeActivity.kt:285-291 | With both filters on "All" the whole list is shown. |
| Home.TypeChipIgnoresCase | app/src/main/java/com/labactivity/crammode/HomeComposeActivity.kt:285 | A type chip matches a record iff their lower-cased types are equal. |
| Home.Delete | app/src/main/java/com/labactivity/crammode/HomeComposeActivity.kt:348 | Deleting removes every record with that id and keeps the others. |
| Home.DeleteMeaning | app/src/main/java/com/labactivity/crammode/HomeComposeActivity.kt:348 | After deleting, the list keeps its order and holds exactly the records with another id. |
| Home.Preview | app/src/main/java/com/labactivity/crammode/HomeComposeActivity.kt:378-383 | The preview is the first 30 characters of the type's source text, or all of it when shorter. |
| Home.ScoreText | app/src/main/java/com/labactivity/crammode/HomeComposeActivity.kt:649 | The score line starts with a digit. |
| Home.DigitPrefix | app/src/main/java/com/labactivity/crammode/HomeComposeActivity.kt:649 | Two digit runs each followed by a non-digit split a text the same way. |
| Home.ScoreTextDeterminesScore | app/src/main/java/com/labactivity/crammode/HomeComposeActivity.kt:649 | The "correct / total" line determines both numbers. |
| Home.QuizSubtitleDeterminesScore | app/src/main/java/com/labactivity/crammode/HomeComposeActivity.kt:462 | A quiz card's subtitle determines its score and its size. |
| Home.CountType | app/src/main/java/com/labactivity/crammode/HomeComposeActivity.kt:654-660 | The count of documents of one type is at most the number of documents. |
| Home.CountsBounded | app/src/main/java/com/labactivity/crammode/HomeComposeActivity.kt:654-660 | The three counters together never exceed the number of documents. |
| Home.QuizCountIsQuizDocuments | app/src/main/java/com/labactivity/crammode/HomeComposeActivity.kt:636-658 | The quiz counter counts exactly the documents the last score looks at. |
| Home.LastQuizScoreMeaning | app/src/main/java/com/labactivity/crammode/HomeComposeActivity.kt:633-651 | The last score is that of the first quiz document with the greatest timestamp, and a dash when there is none or its quiz is empty. |
| Summary.StyleIgnoresCase | app/src/main/java/com/labactivity/crammode/SummaryActivity.kt:441-468 | Format and language are read regardless of letter case. |
| Summary.LengthInstruction | app/src/main/java/com/labactivity/crammode/SummaryActivity.kt:431-436 | The length instruction per length and format; an unknown length is read as medium. |
| Summary.InstructionMatchesFormat | app/src/main/java/com/labactivity/crammode/SummaryActivity.kt:431-436 | The instruction counts points iff the format is bullet. |
| Summary.SystemPrompt | app/src/main/java/com/labactivity/crammode/SummaryActivity.kt:441-452 | The system prompt opens with the style's preamble, followed at once by the length instruction. |
| Summary.PromptsIgnoreCase | app/src/main/java/com/labactivity/crammode/SummaryActivity.kt:441-468 | Choices differing only in letter case give the same prompts. |
| Summary.UserPrompt | app/src/main/java/com/labactivity/crammode/SummaryActivity.kt:457-468 | The user prompt ends with a newline and then the input exactly as typed. |
| Summary.CleanBlock | app/src/main/java/com/labactivity/crammode/SummaryActivity.kt:494 | A cleaned block has no `**` and no surrounding whitespace. |
| Summary.CleanBlocks | app/src/main/java/com/labactivity/crammode/SummaryActivity.kt:492-494 | Definition (each block cleaned, in order); `Summary.SuccessHasNoDoubleStar` proves a cleaned reply never shows `**`. |
| Summary.SuccessHasNoDoubleStar | app/src/main/java/com/labactivity/crammode/SummaryActivity.kt:490-494 | A successful reply never shows `**`. |
| Summary.WhichFailuresAreSaved | app/src/main/java/com/labactivity/crammode/SummaryActivity.kt:495-500 | An exception's text is never saved; a failed status's text is saved. |
| Summary.PrefixDecidesSave | app/src/main/java/com/labactivity/crammode/SummaryActivity.kt:146 | A text opening with "Error" is not saved; one opening with another capital letter is. |
| Summary.Generate | app/src/main/java/com/labactivity/crammode/SummaryActivity.kt:131-142 | Nothing is sent iff the input is blank; otherwise the user prompt ends with the input. |
| Summary.Receive | app/src/main/java/com/labactivity/crammode/SummaryActivity.kt:143-148 | The reply is shown, the history is only ever extended, and one entry (user, input, result) is added iff a user is signed in and the result is not blank and does not start with "Error". |
| Summary.AppendImport | app/src/main/java/com/labactivity/crammode/SummaryActivity.kt:233-235 | Imported text always goes after the input and a newline. |
| Summary.ImportIntoEmptyStartsWithNewline | app/src/main/java/com/labactivity/crammode/SummaryActivity.kt:234 | Importing into an empty field leaves a leading blank line. |

## Left out

- Calls to the chat service, Firebase Auth, Firestore, Cloudinary and Google sign-in are not modelled. Their outcomes are parameters: `Reply` values, an optional user id, a timestamp, and `hasCurrentUser`.
- OCR of images and PDF text extraction are not modelled. Only how their text is added to the input is modelled, in `AppendImport`.
- `isSameDay`, `isSameWeek` and `isSameMonth` are the `Calendar` parameter of `Home.FilterHistory`, because they depend on the device's time zone and calendar.
- Floating-point values are not modelled: the score percentage and the confetti threshold, progress bars, timer colours, and the swipe threshold of the card viewer.
- Coroutine timing is not modelled. This includes the one-second delays, the countdown's extra tick when Submit falls inside a delay, and a timeout and Finish racing to save twice.
- QuizSession.Retry: modelled as a full reset. For a one-question quiz, Compose does not relaunch the timer or the prefill effect, because their key value does not change; that subtlety is left out.
- The prompt texts of the flashcard and quiz generators are not modelled, apart from the `Q:`/`A:` format and the quiz labels the parser depends on. They are free text sent to the model.
- Loading flags, toasts' wording, navigation intents and every screen's layout are not modelled.
- Characters are ASCII only. `lowercase`, `uppercase`, `equals(ignoreCase)`, `isDigit` and `trim` follow their ASCII behaviour. Unicode letters, digits and spaces beyond ASCII are not modelled. This includes the regexes: Kotlin's `RegexOption.IGNORE_CASE` also sets `UNICODE_CASE`, so a non-ASCII letter that folds to an ASCII one (the Kelvin sign folds to `k`, the long s to `s`) would match a marker in the source but not in the model.
- QuizSession.Tick: the countdown tick and the timeout are separate events. So the model can take a selection or a press while the countdown shows 0, before the timeout fires. The source cannot: after the last `timeLeft--` (`QuizViewerActivity.kt:137`) it reaches the timeout (`:139-141`) without suspending. The model's timeout, on the other hand, is one step: it records no answer and then moves on or finishes. So the model has no state inside the one-second delay at `:142`. A Next pressed during that delay has the same effect as Next after the model's timeout, because it bumps the timer key and cancels the coroutine. But a Finish pressed during the delay on the last question leaves the coroutine running, and the source then saves the list twice (the race named under coroutine timing above). The model cannot produce that run. What is proved over the model's runs therefore covers the source's runs except that double save.
- QuizSession.ShownScoreIsSavedScore: the model recomputes the score from the current shuffle. The source caches it with `remember(shuffledQuizList) { derivedStateOf { … } }` (`QuizViewerActivity.kt:104-108`). After Retry, when the new shuffle equals the old one (always for a one-question quiz, otherwise with probability 1/n!), Compose keeps the first attempt's cached count. That count never updates, because `userAnswer` is a plain field Compose does not track. The score screen (`:158`) then shows the first attempt's score while the new answers are saved. The lemma does not cover that case.
- Home.Records: a document whose `toObject` throws is modelled as skipped (`record == None`). In the source the exception escapes the success listener (`HomeComposeActivity.kt:273-276`), so no list is loaded at all. `toObject` gives null, and the document is really skipped, only for a missing document.
- QuizSession: the signed-in user is read once, when the quiz starts, and not again at each save. A sign-out during a quiz is not modelled.
- QuizRender.ParseRender: the round trip is proved for the English labels only, and only for questions whose texts are non-empty, trimmed, on one line, hold no colon and no option label such as `b.`, with one to four options. Other texts can be split or cut by the parser's patterns, which is the parser's behaviour and not a limit of the proof. The Filipino format (`Tanong:` / `Sagot:`) is parsed by the model but has no round-trip lemma.
- The `QuizQuestion` class is not part of this model's source files. Its fields are taken from how the code uses them.
- Settings, profile editing, the splash, about and privacy screens, the summary list and the summary viewer are not modelled. They hold no logic beyond display and remote calls.
