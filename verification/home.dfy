/**
 * The history and profile tabs of `HomeComposeActivity`: loading and
 * ordering the saved records, the type and date filters, deletion, the
 * card preview and score line, and the profile counters.
 *
 * The store's documents are values here; the calendar tests `isSameDay`,
 * `isSameWeek` and `isSameMonth` against the current time are a
 * parameter (`Calendar`).
 */
module Home {
  import opened KotlinStd
  import opened Model

  // ---------------------------------------------------------------------
  // Generic list operations: filter and stable descending sort
  // ---------------------------------------------------------------------

  /** `a` is `b` with some elements left out, in the same order. */
  predicate IsSubsequence<T(==)>(a: seq<T>, b: seq<T>)
    decreases |b|
  {
    if |a| == 0 then true
    else if |b| == 0 then false
    else if a[0] == b[0] then IsSubsequence(a[1..], b[1..])
    else IsSubsequence(a, b[1..])
  }

  /** `filter`: the elements satisfying `p`, each as often as in `s`. */
  function Filter<T(!new)>(s: seq<T>, p: T -> bool): (r: seq<T>)
    ensures |r| <= |s|
    ensures forall x :: multiset(r)[x] == if p(x) then multiset(s)[x] else 0
    decreases |s|
  {
    if |s| == 0 then []
    else
      var rest := Filter(s[1..], p);
      assert s == [s[0]] + s[1..];
      if p(s[0]) then [s[0]] + rest else rest
  }

  /** A filter every element passes keeps the list as it is. */
  lemma {:induction false} FilterKeepsAll<T(!new)>(s: seq<T>, p: T -> bool)
    requires forall i :: 0 <= i < |s| ==> p(s[i])
    ensures Filter(s, p) == s
    decreases |s|
  {
    if |s| > 0 {
      FilterKeepsAll(s[1..], p);
      assert s == [s[0]] + s[1..];
    }
  }

  /** Membership in a filtered list: kept exactly when in the list and `p` holds. */
  lemma FilterMembers<T(!new)>(s: seq<T>, p: T -> bool)
    ensures forall x :: x in Filter(s, p) <==> x in s && p(x)
  {
    var r := Filter(s, p);
    forall x
      ensures x in r <==> x in s && p(x)
    {
      assert x in r <==> multiset(r)[x] > 0;
      assert x in s <==> multiset(s)[x] > 0;
    }
  }

  /** A filter keeps the order of what it keeps. */
  lemma {:induction false} FilterIsSubsequence<T(!new)>(s: seq<T>, p: T -> bool)
    ensures IsSubsequence(Filter(s, p), s)
    decreases |s|
  {
    if |s| > 0 {
      FilterIsSubsequence(s[1..], p);
      var rest := Filter(s[1..], p);
      if p(s[0]) {
        assert Filter(s, p) == [s[0]] + rest;
        assert ([s[0]] + rest)[1..] == rest;
      } else {
        SubsequenceOfTail(rest, s);
      }
    }
  }

  lemma {:induction false} SubsequenceOfTail<T>(a: seq<T>, b: seq<T>)
    requires |b| > 0 && IsSubsequence(a, b[1..])
    ensures IsSubsequence(a, b)
    decreases |a| + |b|
  {
    if |a| > 0 && a[0] == b[0] {
      if |b| > 1 {
        SubsequenceDropHead(a, b[1..]);
      }
    }
  }

  /** Dropping the first element of a subsequence keeps it a subsequence. */
  lemma {:induction false} SubsequenceDropHead<T>(a: seq<T>, b: seq<T>)
    requires |a| > 0 && IsSubsequence(a, b)
    ensures IsSubsequence(a[1..], b)
    decreases |a| + |b|
  {
    if |b| > 0 {
      if a[0] == b[0] {
        SubsequenceOfTail(a[1..], b);
      } else {
        SubsequenceDropHead(a, b[1..]);
        SubsequenceOfTail(a[1..], b);
      }
    }
  }

  /** Keys never increase from left to right. */
  predicate SortedDescending<T>(s: seq<T>, key: T -> int) {
    forall i, j :: 0 <= i < j < |s| ==> key(s[i]) >= key(s[j])
  }

  /** Places `x`, which came before every element of `s`, ahead of the
      first element whose key is not greater: ties keep the original order. */
  function Insert<T>(x: T, s: seq<T>, key: T -> int): (r: seq<T>)
    requires SortedDescending(s, key)
    ensures |r| == |s| + 1
    ensures multiset(r) == multiset(s) + multiset{x}
    ensures r[0] == x || (|s| > 0 && r[0] == s[0])
    ensures SortedDescending(r, key)
    decreases |s|
  {
    if |s| == 0 || key(s[0]) <= key(x) then [x] + s
    else
      var rest := Insert(x, s[1..], key);
      HeadBoundsInsert(x, s, key, rest);
      ConsSorted(s[0], rest, key);
      ConsMultiset(s);
      [s[0]] + rest
  }

  /** How many leading elements of `s` have a key greater than `k`. */
  function CountGreater<T>(s: seq<T>, key: T -> int, k: int): (n: nat)
    ensures n <= |s|
    ensures forall j :: 0 <= j < n ==> key(s[j]) > k
    ensures n < |s| ==> key(s[n]) <= k
    decreases |s|
  {
    if |s| == 0 || key(s[0]) <= k then 0 else 1 + CountGreater(s[1..], key, k)
  }

  /** `x` lands right after the leading elements with a greater key and
      ahead of every element whose key ties with it; the rest of `s` keeps
      its order. */
  lemma {:induction false} InsertPosition<T>(x: T, s: seq<T>, key: T -> int)
    requires SortedDescending(s, key)
    ensures var n := CountGreater(s, key, key(x));
      Insert(x, s, key) == s[..n] + [x] + s[n..]
    decreases |s|
  {
    if |s| == 0 || key(s[0]) <= key(x) {
      assert s[..0] + [x] + s[0..] == [x] + s;
    } else {
      SortedTail(s, key);
      InsertPosition(x, s[1..], key);
      InsertPastHead(x, s, key);
      SpliceAfterHead(s, x, CountGreater(s[1..], key, key(x)));
    }
  }

  /** `x` with a smaller key than the head goes into the tail. */
  lemma InsertPastHead<T>(x: T, s: seq<T>, key: T -> int)
    requires SortedDescending(s, key) && |s| > 0 && key(x) < key(s[0])
    ensures SortedDescending(s[1..], key)
    ensures Insert(x, s, key) == [s[0]] + Insert(x, s[1..], key)
    ensures CountGreater(s, key, key(x)) == 1 + CountGreater(s[1..], key, key(x))
  {
    SortedTail(s, key);
  }

  /** Splicing `x` in at `m` in the tail is splicing it in at `m + 1`. */
  lemma SpliceAfterHead<T>(s: seq<T>, x: T, m: nat)
    requires m < |s|
    ensures [s[0]] + (s[1..][..m] + [x] + s[1..][m..]) == s[..m + 1] + [x] + s[m + 1..]
  {
    assert s[..m + 1] == [s[0]] + s[1..][..m];
    assert s[m + 1..] == s[1..][m..];
  }

  lemma SortedTail<T>(s: seq<T>, key: T -> int)
    requires |s| > 0 && SortedDescending(s, key)
    ensures SortedDescending(s[1..], key)
  {
    forall i, j | 0 <= i < j < |s| - 1
      ensures key(s[1..][i]) >= key(s[1..][j])
    {
      assert s[1..][i] == s[i + 1] && s[1..][j] == s[j + 1];
    }
  }

  /** In a list sorted newest first, the head bounds `x` inserted into the tail. */
  lemma HeadBoundsInsert<T>(x: T, s: seq<T>, key: T -> int, rest: seq<T>)
    requires SortedDescending(s, key) && |s| > 0 && key(x) < key(s[0])
    requires multiset(rest) == multiset(s[1..]) + multiset{x}
    ensures forall j :: 0 <= j < |rest| ==> key(rest[j]) <= key(s[0])
  {
    forall j | 0 <= j < |rest|
      ensures key(rest[j]) <= key(s[0])
    {
      assert rest[j] in multiset(rest);
      if rest[j] != x {
        assert rest[j] in multiset(s[1..]);
        var k :| 0 <= k < |s[1..]| && s[1..][k] == rest[j];
        assert s[k + 1] == rest[j];
      }
    }
  }

  lemma ConsMultiset<T>(s: seq<T>)
    requires |s| > 0
    ensures multiset(s) == multiset{s[0]} + multiset(s[1..])
  {
    assert s == [s[0]] + s[1..];
  }

  /** A head no older than a sorted tail keeps the list sorted. */
  lemma ConsSorted<T>(h: T, rest: seq<T>, key: T -> int)
    requires SortedDescending(rest, key)
    requires forall j :: 0 <= j < |rest| ==> key(rest[j]) <= key(h)
    ensures SortedDescending([h] + rest, key)
    ensures multiset([h] + rest) == multiset{h} + multiset(rest)
  {
    var r := [h] + rest;
    forall i, j | 0 <= i < j < |r|
      ensures key(r[i]) >= key(r[j])
    {
      assert r[j] == rest[j - 1];
      if i > 0 {
        assert r[i] == rest[i - 1];
      }
    }
  }


  /** `sortedByDescending(key)`: a stable sort, largest key first. */
  function SortDescending<T>(s: seq<T>, key: T -> int): (r: seq<T>)
    ensures |r| == |s|
    ensures multiset(r) == multiset(s)
    ensures SortedDescending(r, key)
    decreases |s|
  {
    if |s| == 0 then []
    else
      assert s == [s[0]] + s[1..];
      Insert(s[0], SortDescending(s[1..], key), key)
  }

  /** The position of the first element with the greatest key. */
  function FirstMaximum<T>(s: seq<T>, key: T -> int): (k: nat)
    requires |s| > 0
    ensures k < |s|
    ensures forall j :: 0 <= j < |s| ==> key(s[j]) <= key(s[k])
    ensures forall j :: 0 <= j < k ==> key(s[j]) < key(s[k])
    decreases |s|
  {
    if |s| == 1 then 0
    else
      var k := FirstMaximum(s[1..], key) + 1;
      assert forall j :: 1 <= j < |s| ==> s[j] == s[1..][j - 1];
      if key(s[0]) >= key(s[k]) then 0 else k
  }

  /** Because the sort is stable, its first element is the first element
      with the greatest key. */
  lemma {:induction false} SortedHeadIsFirstMaximum<T>(s: seq<T>, key: T -> int)
    requires |s| > 0
    ensures SortDescending(s, key)[0] == s[FirstMaximum(s, key)]
    decreases |s|
  {
    if |s| > 1 {
      var tail := s[1..];
      SortedHeadIsFirstMaximum(tail, key);
      var st := SortDescending(tail, key);
      assert st[0] == tail[FirstMaximum(tail, key)];
      assert tail[FirstMaximum(tail, key)] == s[FirstMaximum(tail, key) + 1];
    }
  }

  // ---------------------------------------------------------------------
  // Loading the history list
  // ---------------------------------------------------------------------

  /** A stored document: its id, its raw `type` and `timestamp` fields, and
      its conversion to a record. `None` stands for `toObject` giving null,
      and also for a conversion that throws, which is treated as a skip. */
  datatype Document = Document(
    id: string,
    typeField: Option<string>,
    timestampField: Option<int>,
    record: Option<StudyHistory>)

  /** The record a converting document loads as: the converted object with
      the document's id. */
  function Loaded(d: Document): StudyHistory
    requires d.record.Some?
  {
    d.record.value.(id := d.id)
  }

  /** `mapNotNull { toObject()?.apply { id = doc.id } }`. */
  function Records(docs: seq<Document>): (r: seq<StudyHistory>)
    ensures |r| <= |docs|
    decreases |docs|
  {
    if |docs| == 0 then []
    else
      var rest := Records(docs[1..]);
      if docs[0].record.Some? then [Loaded(docs[0])] + rest else rest
  }

  /** `h` is what some converting document of `docs` loads as. */
  predicate LoadedFrom(docs: seq<Document>, h: StudyHistory) {
    exists j :: 0 <= j < |docs| && docs[j].record.Some? && h == Loaded(docs[j])
  }

  /** Every loaded record is a converted document with that document's id,
      and every document that converts is loaded. */
  lemma {:induction false} RecordsAreConverted(docs: seq<Document>)
    ensures forall i :: 0 <= i < |Records(docs)| ==> LoadedFrom(docs, Records(docs)[i])
    ensures forall j :: 0 <= j < |docs| && docs[j].record.Some? ==> Loaded(docs[j]) in Records(docs)
  {
    forall i | 0 <= i < |Records(docs)|
      ensures LoadedFrom(docs, Records(docs)[i])
    {
      RecordFromDocument(docs, i);
    }
    forall j | 0 <= j < |docs| && docs[j].record.Some?
      ensures Loaded(docs[j]) in Records(docs)
    {
      DocumentIsLoaded(docs, j);
    }
  }

  /** The record at position `i` comes from a converting document. */
  lemma {:induction false} RecordFromDocument(docs: seq<Document>, i: nat)
    requires i < |Records(docs)|
    ensures LoadedFrom(docs, Records(docs)[i])
    decreases |docs|
  {
    var tl := docs[1..];
    var rest := Records(tl);
    var head := if docs[0].record.Some? then [Loaded(docs[0])] else [];
    assert Records(docs) == head + rest;
    if i < |head| {
      assert Records(docs)[i] == Loaded(docs[0]);
    } else {
      var k := i - |head|;
      assert Records(docs)[i] == rest[k];
      RecordFromDocument(tl, k);
      var j :| 0 <= j < |tl| && tl[j].record.Some? && rest[k] == Loaded(tl[j]);
      assert tl[j] == docs[j + 1];
    }
  }

  /** A converting document's record is loaded. */
  lemma {:induction false} DocumentIsLoaded(docs: seq<Document>, j: nat)
    requires j < |docs| && docs[j].record.Some?
    ensures Loaded(docs[j]) in Records(docs)
    decreases j
  {
    var tl := docs[1..];
    var head := if docs[0].record.Some? then [Loaded(docs[0])] else [];
    assert Records(docs) == head + Records(tl);
    if j > 0 {
      assert tl[j - 1] == docs[j];
      DocumentIsLoaded(tl, j - 1);
    }
  }

  /** Loading keeps the documents' order: the records of two runs of
      documents are the records of the first followed by those of the second. */
  lemma {:induction false} RecordsKeepOrder(a: seq<Document>, b: seq<Document>)
    ensures Records(a + b) == Records(a) + Records(b)
    decreases |a|
  {
    if |a| == 0 {
      assert a + b == b;
    } else {
      var ab := a + b;
      assert ab[0] == a[0] && ab[1..] == a[1..] + b;
      RecordsKeepOrder(a[1..], b);
      var head := if a[0].record.Some? then [Loaded(a[0])] else [];
      assert Records(ab) == head + Records(ab[1..]);
      assert Records(a) == head + Records(a[1..]);
    }
  }

  function Timestamp(h: StudyHistory): int {
    h.timestamp
  }

  /** The history tab's list: converted records, newest first. */
  function LoadHistory(docs: seq<Document>): (r: seq<StudyHistory>)
    ensures SortedDescending(r, Timestamp)
    ensures multiset(r) == multiset(Records(docs))
  {
    SortDescending(Records(docs), Timestamp)
  }

  // ---------------------------------------------------------------------
  // Filters and deletion
  // ---------------------------------------------------------------------

  /** `isSameDay`, `isSameWeek` and `isSameMonth` of a timestamp against now. */
  datatype Calendar = Calendar(sameDay: int -> bool, sameWeek: int -> bool, sameMonth: int -> bool)

  predicate TypeMatches(selectedType: string, h: StudyHistory) {
    selectedType == "All" || EqualsIgnoreCase(h.kind, selectedType)
  }

  predicate DateMatches(selectedDate: string, h: StudyHistory, cal: Calendar) {
    if selectedDate == "Today" then cal.sameDay(h.timestamp)
    else if selectedDate == "This Week" then cal.sameWeek(h.timestamp)
    else if selectedDate == "This Month" then cal.sameMonth(h.timestamp)
    else true
  }

  /** The list shown under the two filters. */
  function FilterHistory(hs: seq<StudyHistory>, selectedType: string, selectedDate: string, cal: Calendar): (r: seq<StudyHistory>)
    ensures forall h :: multiset(r)[h] == if TypeMatches(selectedType, h) && DateMatches(selectedDate, h, cal) then multiset(hs)[h] else 0
  {
    Filter(hs, h => TypeMatches(selectedType, h) && DateMatches(selectedDate, h, cal))
  }

  /** The filtered list keeps the loaded order, and holds exactly the
      records matching both filters. */
  lemma FilterHistoryMeaning(hs: seq<StudyHistory>, selectedType: string, selectedDate: string, cal: Calendar)
    ensures IsSubsequence(FilterHistory(hs, selectedType, selectedDate, cal), hs)
    ensures forall h :: h in FilterHistory(hs, selectedType, selectedDate, cal) <==>
      h in hs && TypeMatches(selectedType, h) && DateMatches(selectedDate, h, cal)
  {
    var p := h => TypeMatches(selectedType, h) && DateMatches(selectedDate, h, cal);
    FilterIsSubsequence(hs, p);
    FilterMembers(hs, p);
  }

  /** With both filters on "All" the whole list is shown. */
  lemma AllFiltersShowEverything(hs: seq<StudyHistory>, cal: Calendar)
    ensures FilterHistory(hs, "All", "All", cal) == hs
  {
    var p := h => TypeMatches("All", h) && DateMatches("All", h, cal);
    assert forall h :: p(h);
    FilterKeepsAll(hs, p);
  }

  /** The type chips ("Quiz", "Flashcards", "Summary") match the stored
      lower-case types regardless of letter case. */
  lemma TypeChipIgnoresCase(h: StudyHistory, chip: string)
    requires chip != "All"
    ensures TypeMatches(chip, h) <==> Lowercase(h.kind) == Lowercase(chip)
  {
    EqualsIgnoreCaseIsLowercaseEquality(h.kind, chip);
  }

  /** Deleting a card: every record with that id leaves the list. */
  function Delete(hs: seq<StudyHistory>, id: string): (r: seq<StudyHistory>)
    ensures forall h :: multiset(r)[h] == if h.id != id then multiset(hs)[h] else 0
  {
    Filter(hs, (h: StudyHistory) => h.id != id)
  }

  lemma DeleteMeaning(hs: seq<StudyHistory>, id: string)
    ensures IsSubsequence(Delete(hs, id), hs)
    ensures forall h :: h in Delete(hs, id) <==> h in hs && h.id != id
  {
    FilterIsSubsequence(hs, (h: StudyHistory) => h.id != id);
    FilterMembers(hs, (h: StudyHistory) => h.id != id);
  }

  // ---------------------------------------------------------------------
  // History card text
  // ---------------------------------------------------------------------

  const PreviewLength: nat := 30

  /** The text the card's title previews for each kind of record. */
  function PreviewSource(h: StudyHistory): string {
    if h.kind == "flashcards" then (if |h.resultFlashcards| > 0 then h.resultFlashcards[0].question else "")
    else if h.kind == "quiz" then (if |h.quiz| > 0 then h.quiz[0].question else "")
    else if h.kind == "summary" then h.resultText
    else h.inputText
  }

  /** The preview: at most 30 characters from the start of the source text. */
  function Preview(h: StudyHistory): (r: string)
    ensures |r| <= PreviewLength && |r| <= |PreviewSource(h)|
    ensures r == PreviewSource(h)[..|r|]
    ensures |PreviewSource(h)| >= PreviewLength ==> |r| == PreviewLength
    ensures |PreviewSource(h)| <= PreviewLength ==> r == PreviewSource(h)
  {
    Take(PreviewSource(h), PreviewLength)
  }

  /** "correct / total". */
  function ScoreText(correct: nat, total: nat): (r: string)
    ensures |r| > 0 && IsDigit(r[0])
  {
    NatToString(correct) + " / " + NatToString(total)
  }

  /** The card's subtitle line. */
  function Subtitle(h: StudyHistory): string {
    if h.kind == "quiz" then "Score: " + ScoreText(Score(h.quiz), |h.quiz|)
    else if h.kind == "flashcards" then "Flashcards: " + NatToString(|h.resultFlashcards|) + " cards"
    else Take(h.resultText, 50)
  }

  /** The first run of digits ends at the first non-digit. */
  lemma DigitPrefix(a: string, b: string, x: string, y: string)
    requires AllDigits(a) && AllDigits(b) && |x| > 0 && |y| > 0 && !IsDigit(x[0]) && !IsDigit(y[0])
    requires a + x == b + y
    ensures a == b && x == y
  {
    var c := a + x;
    assert forall i :: 0 <= i < |a| ==> IsDigit(c[i]);
    assert !IsDigit(c[|a|]);
    assert forall i :: 0 <= i < |b| ==> IsDigit((b + y)[i]);
    assert !IsDigit((b + y)[|b|]);
    assert |a| == |b|;
    assert a == c[..|a|] && x == c[|a|..];
    assert b == (b + y)[..|b|] && y == (b + y)[|b|..];
  }

  /** The score line determines the score and the question count. */
  lemma ScoreTextDeterminesScore(c1: nat, t1: nat, c2: nat, t2: nat)
    requires ScoreText(c1, t1) == ScoreText(c2, t2)
    ensures c1 == c2 && t1 == t2
  {
    var a, b := NatToString(c1), NatToString(c2);
    assert ScoreText(c1, t1) == a + (" / " + NatToString(t1));
    assert ScoreText(c2, t2) == b + (" / " + NatToString(t2));
    DigitPrefix(a, b, " / " + NatToString(t1), " / " + NatToString(t2));
    NatToStringInjective(c1, c2);
    assert NatToString(t1) == (" / " + NatToString(t1))[3..];
    assert NatToString(t2) == (" / " + NatToString(t2))[3..];
    NatToStringInjective(t1, t2);
  }

  /** A quiz card's subtitle reads back as its score and size. */
  lemma QuizSubtitleDeterminesScore(h1: StudyHistory, h2: StudyHistory)
    requires h1.kind == "quiz" && h2.kind == "quiz" && Subtitle(h1) == Subtitle(h2)
    ensures Score(h1.quiz) == Score(h2.quiz) && |h1.quiz| == |h2.quiz|
  {
    var p := "Score: ";
    assert ScoreText(Score(h1.quiz), |h1.quiz|) == Subtitle(h1)[|p|..];
    assert ScoreText(Score(h2.quiz), |h2.quiz|) == Subtitle(h2)[|p|..];
    ScoreTextDeterminesScore(Score(h1.quiz), |h1.quiz|, Score(h2.quiz), |h2.quiz|);
  }

  // ---------------------------------------------------------------------
  // Profile statistics
  // ---------------------------------------------------------------------

  const NoScore: string := "\U{2014}"

  datatype ProfileStats = ProfileStats(summaries: nat, flashcards: nat, quizzes: nat, lastQuizScore: string)

  /** The number of documents whose `type` field is exactly `kind`. */
  function CountType(docs: seq<Document>, kind: string): (n: nat)
    ensures n <= |docs|
    decreases |docs|
  {
    if |docs| == 0 then 0
    else Indicator(docs[0].typeField == Some(kind)) + CountType(docs[1..], kind)
  }

  /** Documents without a timestamp sort as 0. */
  function TimestampOrZero(d: Document): int {
    match d.timestampField
    case None => 0
    case Some(t) => t
  }

  predicate IsQuizDocument(d: Document) {
    d.typeField == Some("quiz")
  }

  /** The quiz of a document, empty when it does not convert. */
  function QuizOf(d: Document): seq<QuizQuestion> {
    match d.record
    case None => []
    case Some(h) => h.quiz
  }

  /** The score of the newest quiz document, or a dash. */
  function LastQuizScore(docs: seq<Document>): string {
    var quizDocs := Filter(docs, IsQuizDocument);
    if |quizDocs| == 0 then NoScore
    else
      var latest := QuizOf(SortDescending(quizDocs, TimestampOrZero)[0]);
      if |latest| > 0 then ScoreText(Score(latest), |latest|) else NoScore
  }

  function Stats(docs: seq<Document>): ProfileStats {
    ProfileStats(CountType(docs, "summary"), CountType(docs, "flashcards"), CountType(docs, "quiz"), LastQuizScore(docs))
  }

  /** The three counters together never exceed the number of documents:
      each document counts under at most one type. */
  lemma {:induction false} CountsBounded(docs: seq<Document>)
    ensures var s := Stats(docs); s.summaries + s.flashcards + s.quizzes <= |docs|
    decreases |docs|
  {
    if |docs| > 0 {
      CountsBounded(docs[1..]);
    }
  }

  /** The quiz counter counts exactly the documents the last score looks at. */
  lemma {:induction false} QuizCountIsQuizDocuments(docs: seq<Document>)
    ensures Stats(docs).quizzes == |Filter(docs, IsQuizDocument)|
    decreases |docs|
  {
    if |docs| > 0 {
      QuizCountIsQuizDocuments(docs[1..]);
    }
  }

  /** The last quiz score is the score of the first quiz document with the
      greatest timestamp (missing timestamps as 0), and a dash when there is
      none or its quiz is empty. */
  lemma LastQuizScoreMeaning(docs: seq<Document>)
    ensures var quizDocs := Filter(docs, IsQuizDocument);
      if |quizDocs| == 0 then LastQuizScore(docs) == NoScore
      else
        var q := QuizOf(quizDocs[FirstMaximum(quizDocs, TimestampOrZero)]);
        LastQuizScore(docs) == (if |q| > 0 then ScoreText(Score(q), |q|) else NoScore)
    ensures LastQuizScore(docs) != NoScore ==> Stats(docs).quizzes > 0
  {
    var quizDocs := Filter(docs, IsQuizDocument);
    if |quizDocs| > 0 {
      SortedHeadIsFirstMaximum(quizDocs, TimestampOrZero);
    }
    QuizCountIsQuizDocuments(docs);
  }
}
