/**
 * The commit classifier of generate_results_gemini.py: the prompt sent to
 * the language model, the mapping of its reply to one of five maintenance
 * categories or to a sentinel, and the dictionary built for a list of
 * commit messages. The model is a parameter: `None` stands for a call that
 * raised.
 */
module Classifier {
  import opened Wrappers
  import opened Text

  /** The classification categories, in prompt order. */
  const Categories: seq<string> := ["Corrective", "Adaptive", "Perfective", "Preventive", "Development"]

  const Unknown: string := "Unknown"
  const NoResponse: string := "No response"
  const ErrorLabel: string := "Error"

  /** A value `classify_commit` may return: a category or one of the three sentinels. */
  predicate IsLabel(answer: string) {
    answer in Categories || answer == Unknown || answer == NoResponse || answer == ErrorLabel
  }

  /** The text of the prompt before the list of categories. */
  const Intro: string :=
    "You are an expert at classifying software development commits based on a survey result and the commit message.\n"
    + "    Classify the following commit message into one of these categories: "

  /** The text after the category list, up to the survey result. */
  const SurveyHeading: string :=
    ".\n    Provide your answer as a single word representing the category.\n\n    Survey Result:\n    "

  /** The text between the survey result and the commit message. */
  const MessageHeading: string := "\n\n    Commit Message:\n    "

  /** The text after the commit message. */
  const Closing: string := "\n\n    Classification:\n    "

  /** The prompt: instructions, the categories joined by ", ", the survey result and the commit message. */
  function Prompt(survey: string, message: string): string {
    Intro + Join(Categories, ", ") + SurveyHeading + survey + MessageHeading + message + Closing
  }

  /** The category list of the prompt names the five categories in order, separated by ", ". */
  lemma CategoryList()
    ensures Join(Categories, ", ") ==
      "Corrective" + ", " + "Adaptive" + ", " + "Perfective" + ", " + "Preventive" + ", " + "Development"
  {
    var c := Categories;
    assert c[1..] == ["Adaptive", "Perfective", "Preventive", "Development"];
    assert c[1..][1..] == ["Perfective", "Preventive", "Development"];
    assert c[1..][1..][1..] == ["Preventive", "Development"];
    assert c[1..][1..][1..][1..] == ["Development"];
  }

  /** The prompt contains the category list, the survey result and the commit message. */
  lemma PromptEmbeds(survey: string, message: string)
    ensures Contains(Prompt(survey, message), Join(Categories, ", "))
    ensures Contains(Prompt(survey, message), survey)
    ensures Contains(Prompt(survey, message), message)
  {
    var cats := Join(Categories, ", ");
    var a, b, c, d := Intro, SurveyHeading, MessageHeading, Closing;
    ContainsSelf(cats);
    ContainsSelf(survey);
    ContainsSelf(message);
    ContainsInConcat(a, cats, cats);
    ContainsInConcat(a + cats, b, cats);
    ContainsInConcat(a + cats + b, survey, cats);
    ContainsInConcat(a + cats + b, survey, survey);
    ContainsInConcat(a + cats + b + survey, c, cats);
    ContainsInConcat(a + cats + b + survey, c, survey);
    ContainsInConcat(a + cats + b + survey + c, message, cats);
    ContainsInConcat(a + cats + b + survey + c, message, survey);
    ContainsInConcat(a + cats + b + survey + c, message, message);
    ContainsInConcat(a + cats + b + survey + c + message, d, cats);
    ContainsInConcat(a + cats + b + survey + c + message, d, survey);
    ContainsInConcat(a + cats + b + survey + c + message, d, message);
  }

  /**
   * The body of `classify_commit` after the model call: a failed call gives
   * "Error", an empty text "No response", a text without any token "Error"
   * (indexing the empty `split()` raises), and otherwise the first token if
   * it is a category and "Unknown" if not.
   */
  function ClassifyReply(reply: Option<string>): (answer: string)
    ensures IsLabel(answer)
  {
    match reply
    case None => ErrorLabel
    case Some(text) =>
      if text == "" then NoResponse
      else
        var tokens := Runs(NonSpaceChars, Strip(text));
        if tokens == [] then ErrorLabel
        else if tokens[0] in Categories then tokens[0]
        else Unknown
  }

  /** `classify_commit`: asks the model `generate` with the prompt and classifies the reply. */
  function ClassifyCommit(survey: string, message: string, generate: string -> Option<string>): (answer: string)
    ensures IsLabel(answer)
  {
    ClassifyReply(generate(Prompt(survey, message)))
  }

  /**
   * A reply made of leading whitespace, a token and then whitespace or the
   * end is classified as that token when it is a category, and as "Unknown"
   * otherwise.
   */
  lemma ReplyFirstToken(ws: string, tok: string, rest: string)
    requires AllSpace(ws)
    requires tok != [] && AllInside(NonSpaceChars, tok)
    requires rest == [] || IsSpace(rest[0])
    ensures ClassifyReply(Some(ws + tok + rest)) == if tok in Categories then tok else Unknown
  {
    var text := ws + tok + rest;
    assert text == ws + (tok + rest);
    StripKeepsRuns(NonSpaceChars, text);
    SpaceOutside(NonSpaceChars, ws);
    RunsSkipOutside(NonSpaceChars, ws, tok + rest);
    LeadingRun(NonSpaceChars, tok, rest);
    assert |text| >= |tok| > 0;
  }

  /** The reply names a category exactly when its first token is that category. */
  lemma CategoryIffFirstToken(text: string)
    ensures ClassifyReply(Some(text)) in Categories <==>
      (Runs(NonSpaceChars, text) != [] && Runs(NonSpaceChars, text)[0] in Categories)
    ensures ClassifyReply(Some(text)) in Categories ==> ClassifyReply(Some(text)) == Runs(NonSpaceChars, text)[0]
  {
    StripKeepsRuns(NonSpaceChars, text);
    if text == "" {
      assert Runs(NonSpaceChars, text) == [];
    }
  }

  /** A reply of whitespace only is classified "Error": `split()` finds no token to take. */
  lemma BlankReplyIsError(text: string)
    requires text != [] && AllSpace(text)
    ensures ClassifyReply(Some(text)) == ErrorLabel
  {
    StripKeepsRuns(NonSpaceChars, text);
    SpaceOutside(NonSpaceChars, text);
    RunsSkipOutside(NonSpaceChars, text, []);
    assert text + [] == text;
  }

  /** A reply that is exactly a category, possibly surrounded by whitespace, is classified as that category. */
  lemma CategoryReply(ws: string, category: string, trail: string)
    requires category in Categories
    requires AllSpace(ws) && AllSpace(trail)
    ensures ClassifyReply(Some(ws + category + trail)) == category
  {
    assert AllInside(NonSpaceChars, category);
    ReplyFirstToken(ws, category, trail);
  }

  /**
   * A reply whose first token starts with a character that no category
   * starts with, such as a lower-case letter, is classified "Unknown".
   */
  lemma OtherWordIsUnknown(ws: string, tok: string, rest: string)
    requires AllSpace(ws)
    requires tok != [] && AllInside(NonSpaceChars, tok) && tok[0] !in {'C', 'A', 'P', 'D'}
    requires rest == [] || IsSpace(rest[0])
    ensures ClassifyReply(Some(ws + tok + rest)) == Unknown
  {
    assert tok !in Categories;
    ReplyFirstToken(ws, tok, rest);
  }

  /** Worked replies: a category followed by an explanation, and the empty and failed replies. */
  lemma ReplyExamples()
    ensures ClassifyReply(Some(" " + "Adaptive" + "\nfixes a port")) == "Adaptive"
    ensures ClassifyReply(Some("")) == NoResponse
    ensures ClassifyReply(None) == ErrorLabel
  {
    ReplyFirstToken(" ", "Adaptive", "\nfixes a port");
  }

  /** Worked replies whose first token is no category: a misspelt category and another word. */
  lemma UnknownExamples()
    ensures ClassifyReply(Some(" " + "corrective" + "\n")) == Unknown
    ensures ClassifyReply(Some(" " + "Banana" + " extra text")) == Unknown
  {
    OtherWordIsUnknown(" ", "corrective", "\n");
    OtherWordIsUnknown(" ", "Banana", " extra text");
  }

  /** The index of the last occurrence of `x` in `xs`. */
  function LastIndex<T(==)>(xs: seq<T>, x: T): (i: nat)
    requires x in xs
    ensures i < |xs| && xs[i] == x
    ensures forall j :: i < j < |xs| ==> xs[j] != x
  {
    if xs[|xs| - 1] == x then |xs| - 1 else LastIndex(xs[..|xs| - 1], x)
  }

  lemma LastIndexStep<T>(xs: seq<T>, i: nat, x: T)
    requires i < |xs| && x in xs[..i + 1]
    ensures LastIndex(xs[..i + 1], x) == if xs[i] == x then i else LastIndex(xs[..i], x)
  {
    assert xs[..i + 1][..i] == xs[..i];
  }

  /**
   * The dictionary built by storing `answer(k, xs[k])` under `xs[k]` for
   * `k` from the first position to the last: a later store under the same
   * key replaces the earlier one.
   */
  function LastWins<T(==)>(xs: seq<T>, answer: (nat, T) -> string): map<T, string>
  {
    if xs == [] then map[]
    else LastWins(xs[..|xs| - 1], answer)[xs[|xs| - 1] := answer(|xs| - 1, xs[|xs| - 1])]
  }

  /** Every element is a key, and its value is the answer given at its last position. */
  lemma {:induction false} LastWinsSpec<T>(xs: seq<T>, answer: (nat, T) -> string)
    ensures LastWins(xs, answer).Keys == set x | x in xs
    ensures forall x :: x in xs ==> LastWins(xs, answer)[x] == answer(LastIndex(xs, x), x)
    decreases |xs|
  {
    if xs != [] {
      var n := |xs| - 1;
      var init := xs[..n];
      LastWinsSpec(init, answer);
      assert xs == init + [xs[n]];
      forall x | x in xs
        ensures LastWins(xs, answer)[x] == answer(LastIndex(xs, x), x)
      {
        if x != xs[n] {
          assert x in init;
          LastIndexStep(xs, n, x);
          assert xs[..n + 1] == xs;
        }
      }
    }
  }

  /** The classification of a message at call number `k`: the reply of `service` to its prompt, classified. */
  function Answer(survey: string, service: (nat, string) -> Option<string>): (nat, string) -> string {
    (k: nat, m: string) => ClassifyReply(service(k, Prompt(survey, m)))
  }

  /**
   * `classify_multiple_commits`: classifies each message in turn and stores
   * the answer under the message. The model `service` may answer each call
   * differently (the first argument numbers the calls), so a repeated message
   * keeps the answer of its last call.
   */
  method ClassifyMultipleCommits(commitsData: seq<string>, survey: string, service: (nat, string) -> Option<string>)
    returns (results: map<string, string>)
    ensures results == LastWins(commitsData, Answer(survey, service))
  {
    results := map[];
    for i := 0 to |commitsData|
      invariant results == LastWins(commitsData[..i], Answer(survey, service))
    {
      var commitMessage := commitsData[i];
      var classification := ClassifyCommit(survey, commitMessage, p => service(i, p));
      assert commitsData[..i + 1][..i] == commitsData[..i];
      results := results[commitMessage := classification];
    }
    assert commitsData[..|commitsData|] == commitsData;
  }

  /**
   * The dictionary has one key per distinct message, and each message is
   * classified by the call made for its last occurrence; with a service
   * that answers every call alike, that is `classify_commit` of the message.
   */
  lemma MultipleCommitsSpec(commitsData: seq<string>, survey: string, service: (nat, string) -> Option<string>)
    ensures LastWins(commitsData, Answer(survey, service)).Keys == set m | m in commitsData
    ensures forall m :: m in commitsData ==>
      LastWins(commitsData, Answer(survey, service))[m] == ClassifyReply(service(LastIndex(commitsData, m), Prompt(survey, m)))
    ensures (forall i: nat, p :: service(i, p) == service(0, p)) ==>
      forall m :: m in commitsData ==>
        LastWins(commitsData, Answer(survey, service))[m] == ClassifyCommit(survey, m, p => service(0, p))
  {
    LastWinsSpec(commitsData, Answer(survey, service));
  }
}
