/**
 * POST /api/suggest-messages: answers with one of four fixed suggestion
 * strings, chosen by a random index. Each string holds three questions
 * separated by "||", the reply format the endpoint documents.
 */
module SuggestMessages {
  import opened Http
  import opened Strings

  const Separator := "||"

  /**
   * The three questions of each of the four `predefinedSuggestions`, in
   * order. Long questions are written as a concatenation of two pieces (so
   * that the verifier can inspect their characters); the values are the
   * source's text.
   */
  const Questions: seq<seq<string>> := [
    [ "What's a hobby you've recently started?",
      "If you could have dinner with any " + "historical figure, who would it be?",
      "What's a simple thing that makes you " + "happy?" ],
    [ "What's the best advice you've ever " + "received?",
      "If you could learn any skill instantly, " + "what would it be?",
      "What's your favorite way to spend a " + "weekend?" ],
    [ "What's a book that changed your " + "perspective?",
      "If you could live in any time period, " + "when would it be?",
      "What's something you're grateful for " + "today?" ],
    [ "What's your dream travel destination?",
      "If you could have any superpower, what " + "would it be?",
      "What's the most interesting fact you " + "know?" ]
  ]

  /** The four strings of `predefinedSuggestions`: each row of questions joined by the separator. */
  const PredefinedSuggestions: seq<string> :=
    [ Join(Questions[0], Separator), Join(Questions[1], Separator),
      Join(Questions[2], Separator), Join(Questions[3], Separator) ]

  /** `Math.floor(draw * predefinedSuggestions.length)` for a draw of `Math.random()`. */
  function RandomIndex(draw: real): (i: nat)
    requires 0.0 <= draw < 1.0
    ensures i < |PredefinedSuggestions|
  {
    (draw * (|PredefinedSuggestions| as real)).Floor
  }

  /** The handler: a 200 plain-text reply whose body is the chosen suggestion string. */
  function Post(draw: real): (r: Response)
    requires 0.0 <= draw < 1.0
    ensures r.status == 200 && r.contentType == TextType
    ensures r.body.Text? && r.body.text in PredefinedSuggestions
  {
    Response(200, TextType, Text(PredefinedSuggestions[RandomIndex(draw)]))
  }

  /** A suggested question: non-empty, ends in '?', and free of the separator's character. */
  ghost predicate Question(q: string)
  {
    |q| > 0 && q[|q| - 1] == '?' && '|' !in q
  }

  /** `s` splits on the separator into exactly three questions. */
  ghost predicate ThreeQuestionsShape(s: string)
  {
    var parts := Split(s, Separator);
    |parts| == 3 && Question(parts[0]) && Question(parts[1]) && Question(parts[2])
  }

  /** Three questions joined by the separator split back into exactly those questions. */
  lemma ThreeQuestions(qs: seq<string>)
    requires |qs| == 3 && Question(qs[0]) && Question(qs[1]) && Question(qs[2])
    ensures Split(Join(qs, Separator), Separator) == qs
    ensures ThreeQuestionsShape(Join(qs, Separator))
  {
    forall i | 0 <= i < |qs| ensures AvoidsChars(qs[i], Separator) {
      assert Question(qs[i]);
    }
    SplitJoin(qs, Separator);
  }

  // The questions of each row, one lemma per row so that each proof
  // inspects only three literals.

  lemma Row0Questions()
    ensures Question(Questions[0][0]) && Question(Questions[0][1]) && Question(Questions[0][2])
  {
  }

  lemma Row1Questions()
    ensures Question(Questions[1][0]) && Question(Questions[1][1]) && Question(Questions[1][2])
  {
  }

  lemma Row2Questions()
    ensures Question(Questions[2][0]) && Question(Questions[2][1]) && Question(Questions[2][2])
  {
  }

  lemma Row3Questions()
    ensures Question(Questions[3][0]) && Question(Questions[3][1]) && Question(Questions[3][2])
  {
  }

  /** Every one of the twelve predefined questions ends in '?' and holds no '|'. */
  lemma PredefinedQuestions(i: nat, j: nat)
    requires i < |Questions| && j < |Questions[i]|
    ensures Question(Questions[i][j])
  {
    if i == 0 { Row0Questions(); }
    else if i == 1 { Row1Questions(); }
    else if i == 2 { Row2Questions(); }
    else { Row3Questions(); }
  }

  /** Every predefined string splits on "||" into exactly three questions, each non-empty and ending in '?'. */
  lemma SuggestionShape(i: nat)
    requires i < |PredefinedSuggestions|
    ensures Split(PredefinedSuggestions[i], Separator) == Questions[i]
    ensures ThreeQuestionsShape(PredefinedSuggestions[i])
  {
    var qs := Questions[i];
    PredefinedQuestions(i, 0);
    PredefinedQuestions(i, 1);
    PredefinedQuestions(i, 2);
    ThreeQuestions(qs);
  }

  /** Whatever the draw, the reply splits into three questions, each ending in '?'. */
  lemma PostGivesThreeQuestions(draw: real)
    requires 0.0 <= draw < 1.0
    ensures ThreeQuestionsShape(Post(draw).body.text)
  {
    SuggestionShape(RandomIndex(draw));
  }
}
