/**
 * `SummaryActivity`: the prompt built from the length, format and language
 * choices, the text made of the model's reply, the rule deciding whether
 * a result goes to the history, and the import rule for the input field.
 *
 * The chat call itself is a parameter: its outcome is a `Reply`.
 */
module Summary {
  import opened KotlinStd

  // ---------------------------------------------------------------------
  // Prompts
  // ---------------------------------------------------------------------

  /** The two choices the prompts depend on: bullet points or a paragraph,
      Filipino or English. */
  datatype Style = Style(bullet: bool, filipino: bool)

  /** Format and language as the prompt builder reads them: lower-cased and
      compared with "bullet" and "filipino". */
  function StyleOf(format: string, language: string): Style {
    Style(Lowercase(format) == "bullet", Lowercase(language) == "filipino")
  }

  /** The choices are read without regard to letter case. */
  lemma StyleIgnoresCase(f1: string, f2: string, l1: string, l2: string)
    requires EqualsIgnoreCase(f1, f2) && EqualsIgnoreCase(l1, l2)
    ensures StyleOf(f1, l1) == StyleOf(f2, l2)
  {
    EqualsIgnoreCaseIsLowercaseEquality(f1, f2);
    EqualsIgnoreCaseIsLowercaseEquality(l1, l2);
  }

  /** How long the summary should be, per length and format; an unknown
      length is treated as "medium". */
  function LengthInstruction(length: string, bullet: bool): (r: string)
    ensures Lowercase(length) == "short" ==> r == (if bullet then "3-4 points" else "2-3 sentences")
    ensures Lowercase(length) == "long" ==> r == (if bullet then "8-10 points" else "8-12 sentences")
    ensures Lowercase(length) != "short" && Lowercase(length) != "long" ==>
      r == (if bullet then "5-7 points" else "5-7 sentences")
  {
    var l := Lowercase(length);
    if l == "short" then (if bullet then "3-4 points" else "2-3 sentences")
    else if l == "medium" then (if bullet then "5-7 points" else "5-7 sentences")
    else if l == "long" then (if bullet then "8-10 points" else "8-12 sentences")
    else (if bullet then "5-7 points" else "5-7 sentences")
  }

  /** The instruction counts points exactly for bullet summaries. */
  lemma InstructionMatchesFormat(length: string, bullet: bool)
    ensures var r := LengthInstruction(length, bullet);
      bullet <==> r[|r| - 6..] == "points"
  {
  }

  /** The opening of the system prompt. */
  function Preamble(st: Style): string {
    if st.bullet then
      if st.filipino then "Ikaw ay isang AI study assistant. Buodin ang ibinigay na teksto bilang **bullet points lamang**, "
      else "You are an AI study assistant. Summarize the given text as **bullet points only**, "
    else
      if st.filipino then "Ikaw ay isang AI study assistant. Buodin ang ibinigay na teksto sa malinaw at maikling paraan bilang **isang talata**, "
      else "You are an AI study assistant. Summarize the given text clearly and concisely as **a paragraph**, "
  }

  /** The closing of the system prompt: bullet prompts forbid any preamble. */
  function Closing(st: Style): string {
    if st.bullet then
      if st.filipino then ". Huwag maglagay ng anumang panimulang teksto o markdown."
      else ". Do NOT include any introductory text or markdown."
    else "."
  }

  /** The system prompt always carries the length instruction, right after
      the opening. */
  function SystemPrompt(length: string, format: string, language: string): (r: string)
    ensures PromptHas(r, Preamble(StyleOf(format, language)), LengthInstruction(length, StyleOf(format, language).bullet))
  {
    var st := StyleOf(format, language);
    Assemble(Preamble(st), LengthInstruction(length, st.bullet), Closing(st))
  }

  /** `r` opens with `pre`, followed at once by `li`. */
  predicate PromptHas(r: string, pre: string, li: string) {
    |pre| + |li| <= |r| && r[..|pre|] == pre && r[|pre|..|pre| + |li|] == li
  }

  function Assemble(pre: string, li: string, post: string): (r: string)
    ensures PromptHas(r, pre, li)
  {
    ConcatenationSlices(pre, li, post);
    pre + li + post
  }

  lemma ConcatenationSlices(a: string, b: string, c: string)
    ensures (a + b + c)[..|a|] == a && (a + b + c)[|a|..|a| + |b|] == b
  {
    assert (a + b + c)[..|a|] == a;
    assert (a + b + c)[|a|..|a| + |b|] == b;
  }

  /** The first line of the user prompt. */
  function UserPromptPrefix(st: Style): string {
    if st.bullet then
      if st.filipino then "Buodin ang tekstong ito sa bullet points lamang:\n"
      else "Summarize this text in bullet points only:\n"
    else
      if st.filipino then "Buodin ang tekstong ito sa isang talata:\n"
      else "Summarize this text in a paragraph:\n"
  }

  /** Prompts differing only in the letter case of format and language are
      the same prompts. */
  lemma PromptsIgnoreCase(length: string, f1: string, f2: string, l1: string, l2: string, input: string)
    requires EqualsIgnoreCase(f1, f2) && EqualsIgnoreCase(l1, l2)
    ensures SystemPrompt(length, f1, l1) == SystemPrompt(length, f2, l2)
    ensures UserPrompt(f1, l1, input) == UserPrompt(f2, l2, input)
  {
    StyleIgnoresCase(f1, f2, l1, l2);
  }

  /** The user prompt: a fixed line, then the input exactly as typed. */
  function UserPrompt(format: string, language: string, input: string): (r: string)
    ensures |r| > |input|
    ensures r[|r| - |input|..] == input
    ensures r[|r| - |input| - 1] == '\n'
  {
    UserPromptPrefix(StyleOf(format, language)) + input
  }

  // ---------------------------------------------------------------------
  // Reply to text
  // ---------------------------------------------------------------------

  /** The outcome of the chat call: a 2xx response with its text blocks
      (`None` when the body or message is missing), another status, or an
      exception with its message. */
  datatype Reply =
    | Success(blocks: Option<seq<string>>)
    | Failure(code: int, message: string)
    | Thrown(error: Option<string>)

  /** `it.text.replace("**", "").trim()`. */
  function CleanBlock(b: string): (r: string)
    ensures !HasDoubleStar(r) && IsTrimmed(r)
  {
    var r := Trim(RemoveDoubleStars(b));
    TrimKeepsNoDoubleStar(RemoveDoubleStars(b));
    r
  }

  function CleanBlocks(bs: seq<string>): (r: seq<string>)
    ensures |r| == |bs|
    ensures forall i :: 0 <= i < |bs| ==> r[i] == CleanBlock(bs[i])
  {
    seq(|bs|, i requires 0 <= i < |bs| => CleanBlock(bs[i]))
  }

  const FailurePrefix: string := "Failed to generate summary: "
  const ErrorPrefix: string := "Error generating summary: "

  /** The text `sendSummaryRequestAsync` returns. */
  function ReplyText(reply: Reply): string {
    match reply
    case Success(blocks) =>
      var bs := if blocks.Some? then blocks.value else [];
      Join(CleanBlocks(bs), "\n")
    case Failure(code, message) => FailurePrefix + IntToString(code) + " " + message
    case Thrown(error) => ErrorPrefix + (if error.Some? then error.value else "null")
  }

  /** A successful reply never shows "**". */
  lemma SuccessHasNoDoubleStar(blocks: Option<seq<string>>)
    ensures !HasDoubleStar(ReplyText(Success(blocks)))
  {
    var bs := if blocks.Some? then blocks.value else [];
    JoinKeepsNoDoubleStar(CleanBlocks(bs), "\n");
  }

  /** A result is saved when it is not blank and does not start with "Error". */
  predicate ShouldSave(result: string) {
    !IsBlank(result) && !StartsWith(result, "Error")
  }

  /** An exception is never saved; a failed status is saved, message and all. */
  lemma WhichFailuresAreSaved(code: int, message: string, thrown: Option<string>)
    ensures !ShouldSave(ReplyText(Thrown(thrown)))
    ensures ShouldSave(ReplyText(Failure(code, message)))
  {
    var e := if thrown.Some? then thrown.value else "null";
    assert ReplyText(Thrown(thrown)) == ErrorPrefix + e;
    PrefixDecidesSave(ErrorPrefix, e);
    var m := IntToString(code) + " " + message;
    assert ReplyText(Failure(code, message)) == FailurePrefix + m;
    PrefixDecidesSave(FailurePrefix, m);
  }

  /** Whether a text is saved is decided by its opening: a text opening with
      "Error" is never saved, one opening with another letter always is. */
  lemma PrefixDecidesSave(prefix: string, rest: string)
    requires |prefix| >= 5
    ensures prefix[..5] == "Error" ==> !ShouldSave(prefix + rest)
    ensures prefix[0] != 'E' && 'A' <= prefix[0] <= 'Z' ==> ShouldSave(prefix + rest)
  {
    var t := prefix + rest;
    assert t[..5] == prefix[..5];
    assert t[0] == prefix[0];
  }

  // ---------------------------------------------------------------------
  // The screen
  // ---------------------------------------------------------------------

  /** What a press of "Generate Summary" sends. */
  datatype Request = Request(system: string, user: string)

  /** Blank input sends nothing; otherwise both prompts are built from the
      input and the choices (length and format lower-cased first). */
  function Generate(input: string, language: string, length: string, format: string): (r: Option<Request>)
    ensures r.None? <==> IsBlank(input)
    ensures r.Some? ==> |r.value.user| > |input| && r.value.user[|r.value.user| - |input|..] == input
  {
    if IsBlank(input) then None
    else
      var l, f := Lowercase(length), Lowercase(format);
      Some(Request(SystemPrompt(l, f, language), UserPrompt(f, language, input)))
  }

  /** The screen after the reply: the result shown, and a history entry
      (user, input, result) when the save rule allows it and a user is
      signed in; without one the save returns at once. */
  datatype ScreenState = ScreenState(input: string, summary: string, history: seq<(string, string, string)>)

  function Receive(s: ScreenState, reply: Reply, user: Option<string>): (r: ScreenState)
    ensures r.input == s.input && r.summary == ReplyText(reply)
    ensures |r.history| == |s.history| + (if ShouldSave(ReplyText(reply)) && user.Some? then 1 else 0)
    ensures r.history[..|s.history|] == s.history
    ensures ShouldSave(ReplyText(reply)) && user.Some? ==>
      r.history[|s.history|] == (user.value, s.input, ReplyText(reply))
  {
    var text := ReplyText(reply);
    match user
    case None => s.(summary := text)
    case Some(uid) =>
      s.(summary := text, history := if ShouldSave(text) then s.history + [(uid, s.input, text)] else s.history)
  }

  /** Imported or scanned text: always after a newline, even into an empty field. */
  function AppendImport(input: string, text: string): (r: string)
    ensures |r| == |input| + 1 + |text|
    ensures r[..|input|] == input && r[|input|] == '\n' && r[|input| + 1..] == text
  {
    input + "\n" + text
  }

  /** Importing into an empty field leaves a leading blank line. */
  lemma ImportIntoEmptyStartsWithNewline(text: string)
    ensures AppendImport("", text) == "\n" + text
  {
  }
}
