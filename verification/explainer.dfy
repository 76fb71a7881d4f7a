/** `ExplainerService.explain_code`: the two-stage review-then-explain
    pipeline, its fallbacks and its catch-all error reply. The chat library
    is not modelled; each stage is the function from the request it is sent
    to what the service then reads back for that agent. */
module Explainer {
  import opened Wrappers
  import opened PyStr
  import opened Agents
  import opened Prompts

  /** What one stage hands back: `Failure(str(e))` when the chat raised an
      `Exception`, otherwise `last_message(agent)` (which may be `None`). */
  type StageResult = Result<Option<Message>, string>

  /** One chat stage, from the request sent to its result. The model
      assumes an agent's reply depends only on the request it is sent; a
      sampling model need not answer the same request the same way twice. */
  type Stage = string -> StageResult

  const DefaultClarification: string := "Code appears straightforward."
  /** The opening both apology replies share. */
  const ApologyOpening: string := "I apologize, but I couldn't generate "
  const NoExplanationReply: string := ApologyOpening + "an explanation. Please try again."
  const EmptyExplanationReply: string := ApologyOpening + "a meaningful explanation. Please try again."
  const ErrorPrefix: string := "An error occurred while analyzing the code: "
  const ErrorSuffix: string := ". Please try again or check if the code is properly formatted."

  /** `str(e)` of the AttributeError raised by `None.strip()`. */
  const NoneStripError: string := "'NoneType' object has no attribute 'strip'"

  /** How an f-string renders a content value. */
  function Formatted(c: Content): string {
    match c
    case Text(s) => s
    case Null => "None"
  }

  /** Stage 1 fallback: the review notes that go into the explanation
      request. A falsy reply, or a reply without `"content"`, gives the
      default; a present content is used as it is, with no strip. */
  function Clarification(last: Option<Message>): (notes: string)
    ensures Falsy(last) || ContentKey !in last.value ==> notes == DefaultClarification
    ensures !Falsy(last) && ContentKey in last.value ==> notes == Formatted(last.value[ContentKey])
  {
    if Falsy(last) then DefaultClarification
    else Formatted(GetContent(last.value, Text(DefaultClarification)))
  }

  /** How a call of `explain_code` ends. */
  datatype Outcome =
    | Explained(text: string)     // the stripped explanation
    | NoExplanation               // the explainer's reply was falsy
    | EmptyExplanation            // the reply's content stripped to ""
    | Crashed(error: string)      // an exception with this `str(e)`

  /** Stage 2 selection: the explainer's reply, defaulting its content to
      "" and stripping it before the emptiness test. */
  function SelectExplanation(last: Option<Message>): (o: Outcome)
    ensures o.Explained? ==> o.text != [] && NoOuterSpace(o.text)
    ensures o.Crashed? ==> o.error == NoneStripError
    ensures o.NoExplanation? <==> Falsy(last)
  {
    if Falsy(last) then NoExplanation
    else
      match GetContent(last.value, Text(""))
      case Null => Crashed(NoneStripError)
      case Text(s) =>
        var t := Strip(s);
        if t == [] then EmptyExplanation else Explained(t)
  }

  /** Stage 2 as a whole: an exception from the explainer's chat is caught
      like the one from `.strip()`; otherwise its reply is selected. */
  function Conclude(reply: StageResult): (o: Outcome)
    ensures reply.Failure? ==> o == Crashed(reply.error)
    ensures o.Crashed? <==>
      reply.Failure? || (!Falsy(reply.value) && ContentKey in reply.value.value && reply.value.value[ContentKey].Null?)
    ensures o.NoExplanation? <==> reply.Success? && Falsy(reply.value)
  {
    match reply
    case Failure(e) => Crashed(e)
    case Success(last) => SelectExplanation(last)
  }

  /** The catch-all reply for an exception whose `str(e)` is `error`. */
  function ErrorReply(error: string): (r: string)
    ensures IsErrorReply(r)
    ensures r[|ErrorPrefix|..|r| - |ErrorSuffix|] == error
  {
    var r := ErrorPrefix + error + ErrorSuffix;
    assert r[..|ErrorPrefix|] == ErrorPrefix;
    assert r[|r| - |ErrorSuffix|..] == ErrorSuffix;
    assert r[|ErrorPrefix|..|r| - |ErrorSuffix|] == error;
    r
  }

  /** The string `explain_code` returns for an outcome. */
  function Render(o: Outcome): (answer: string)
    ensures answer == [] <==> o == Explained([])
  {
    match o
    case Explained(t) => t
    case NoExplanation => NoExplanationReply
    case EmptyExplanation => EmptyExplanationReply
    case Crashed(e) => ErrorReply(e)
  }

  /** `answer` has the shape of a catch-all error reply. */
  predicate IsErrorReply(answer: string) {
    && |answer| >= |ErrorPrefix| + |ErrorSuffix|
    && answer[..|ErrorPrefix|] == ErrorPrefix
    && answer[|answer| - |ErrorSuffix|..] == ErrorSuffix
  }

  /** Reads an answer back as the outcome that produced it. */
  function Classify(answer: string): Outcome {
    if answer == NoExplanationReply then NoExplanation
    else if answer == EmptyExplanationReply then EmptyExplanation
    else if IsErrorReply(answer) then Crashed(answer[|ErrorPrefix|..|answer| - |ErrorSuffix|])
    else Explained(answer)
  }

  /** An outcome whose answer cannot be mistaken for another outcome's: only
      an explanation that happens to read like a failure reply is excluded. */
  predicate Unmistakable(o: Outcome) {
    o.Explained? ==>
      o.text != NoExplanationReply && o.text != EmptyExplanationReply && !IsErrorReply(o.text)
  }

  /** An error reply is longer than either apology, so never equals one. */
  lemma ErrorReplyNotApology(e: string)
    ensures ErrorReply(e) != NoExplanationReply && ErrorReply(e) != EmptyExplanationReply
  {
    assert |ErrorReply(e)| > |EmptyExplanationReply| > |NoExplanationReply|;
  }

  /** `Classify` undoes `Render`: every failure outcome, and every
      explanation that does not read like a failure reply, is recovered
      from the returned string. */
  lemma ClassifyRender(o: Outcome)
    requires Unmistakable(o)
    ensures Classify(Render(o)) == o
  {
    if o.Crashed? {
      ErrorReplyNotApology(o.error);
    }
  }

  /** The three failure replies are pairwise distinct, and the error reply
      tells apart the exceptions behind it. */
  lemma FailureRepliesDistinct(e1: string, e2: string)
    ensures NoExplanationReply != EmptyExplanationReply
    ensures ErrorReply(e1) != NoExplanationReply && ErrorReply(e1) != EmptyExplanationReply
    ensures ErrorReply(e1) == ErrorReply(e2) ==> e1 == e2
  {
    ClassifyRender(Crashed(e1));
    ClassifyRender(Crashed(e2));
    ClassifyRender(NoExplanation);
    ClassifyRender(EmptyExplanation);
  }

  /** The record of one call: the requests sent, in order, and the outcome. */
  datatype Run = Run(requests: seq<string>, outcome: Outcome)

  /** The review request for a snippet: built from the stripped snippet. */
  function ReviewRequest(snippet: string): string {
    ReviewPrompt(Strip(snippet))
  }

  /** The explanation request, given what the reviewer's stage returned. */
  function ExplainRequest(snippet: string, review: Option<Message>): string {
    ExplainPrompt(Strip(snippet), Clarification(review))
  }

  /** `explain_code`: strip, review, fall back, explain, select; any
      exception becomes `Crashed`. The explainer is asked only once the
      reviewer has answered, and only with a request built from that answer. */
  function ExplainRun(snippet: string, reviewer: Stage, explainer: Stage): (run: Run)
    ensures 1 <= |run.requests| <= 2
    ensures run.requests[0] == ReviewRequest(snippet)
    ensures |run.requests| == 2 <==> reviewer(run.requests[0]).Success?
    ensures |run.requests| == 2 ==> run.requests[1] == ExplainRequest(snippet, reviewer(run.requests[0]).value)
    ensures run.outcome.Explained? ==> run.outcome.text != [] && NoOuterSpace(run.outcome.text)
  {
    var review := ReviewRequest(snippet);
    match reviewer(review)
    case Failure(e) => Run([review], Crashed(e))
    case Success(notes) =>
      var explain := ExplainRequest(snippet, notes);
      Run([review, explain], Conclude(explainer(explain)))
  }

  /** The string the service returns: never empty, and it names the outcome
      exactly unless the explanation itself reads like a failure reply. */
  function ExplainCode(snippet: string, reviewer: Stage, explainer: Stage): (answer: string)
    ensures answer != []
    ensures Unmistakable(ExplainRun(snippet, reviewer, explainer).outcome) ==>
      Classify(answer) == ExplainRun(snippet, reviewer, explainer).outcome
  {
    var o := ExplainRun(snippet, reviewer, explainer).outcome;
    assert Unmistakable(o) ==> Classify(Render(o)) == o by {
      if Unmistakable(o) {
        ClassifyRender(o);
      }
    }
    Render(o)
  }

  // ----- Stage 1: the review and its fallback -----

  /** The review request holds the stripped snippet verbatim in its fence. */
  lemma ReviewRequestEmbedsSnippet(snippet: string, reviewer: Stage, explainer: Stage)
    ensures OccursAt(ExplainRun(snippet, reviewer, explainer).requests[0], FenceOpen + Strip(snippet) + FenceClose, |ReviewHead|)
    ensures CodeOfReviewPrompt(ExplainRun(snippet, reviewer, explainer).requests[0]) == Strip(snippet)
  {
    ReviewPromptRoundTrip(Strip(snippet));
  }

  /** A reviewer failure is reported at once: the explainer is never asked. */
  lemma ReviewerFailureReported(snippet: string, reviewer: Stage, explainer: Stage, e: string)
    requires reviewer(ReviewRequest(snippet)) == Failure(e)
    ensures ExplainRun(snippet, reviewer, explainer).requests == [ReviewRequest(snippet)]
    ensures ExplainCode(snippet, reviewer, explainer) == ErrorReply(e)
  {
    assert ExplainRun(snippet, reviewer, explainer).outcome == Crashed(e);
  }

  /** After a reviewer failure the answer does not depend on the explainer. */
  lemma ExplainerIgnoredAfterReviewerFailure(snippet: string, reviewer: Stage, x1: Stage, x2: Stage)
    requires reviewer(ReviewRequest(snippet)).Failure?
    ensures ExplainCode(snippet, reviewer, x1) == ExplainCode(snippet, reviewer, x2)
  {
  }

  /** A falsy review (`None` or an empty message) falls back to the default
      notes. */
  lemma SilentReviewerFallsBack(snippet: string, reviewer: Stage, explainer: Stage)
    requires reviewer(ReviewRequest(snippet)).Success?
    requires Falsy(reviewer(ReviewRequest(snippet)).value)
    ensures ExplainRun(snippet, reviewer, explainer).requests
         == [ReviewRequest(snippet), ExplainPrompt(Strip(snippet), DefaultClarification)]
  {
  }

  /** A review without a `"content"` key also falls back to the default. */
  lemma ContentlessReviewFallsBack(snippet: string, reviewer: Stage, explainer: Stage, m: Message)
    requires reviewer(ReviewRequest(snippet)) == Success(Some(m))
    requires m != map[] && ContentKey !in m
    ensures ExplainRun(snippet, reviewer, explainer).requests
         == [ReviewRequest(snippet), ExplainPrompt(Strip(snippet), DefaultClarification)]
  {
  }

  /** A review's content is passed on verbatim, even when it is empty or
      only whitespace: stage 1 neither strips nor falls back. */
  lemma ReviewContentVerbatim(snippet: string, reviewer: Stage, explainer: Stage, m: Message, notes: string)
    requires reviewer(ReviewRequest(snippet)) == Success(Some(m))
    requires ContentKey in m && m[ContentKey] == Text(notes)
    ensures ExplainRun(snippet, reviewer, explainer).requests
         == [ReviewRequest(snippet), ExplainPrompt(Strip(snippet), notes)]
  {
  }

  /** A `None` review content is rendered by the f-string as "None". */
  lemma NullReviewRendersNone(snippet: string, reviewer: Stage, explainer: Stage, m: Message)
    requires reviewer(ReviewRequest(snippet)) == Success(Some(m))
    requires ContentKey in m && m[ContentKey] == Null
    ensures ExplainRun(snippet, reviewer, explainer).requests
         == [ReviewRequest(snippet), ExplainPrompt(Strip(snippet), "None")]
  {
  }

  /** The notes are the default exactly when the review is falsy, lacks
      `"content"`, or itself says the default text: a `None` content renders
      as "None", never as the default. */
  lemma ClarificationDefaultIff(last: Option<Message>)
    ensures Clarification(last) == DefaultClarification
        <==> Falsy(last) || ContentKey !in last.value || last.value[ContentKey] == Text(DefaultClarification)
  {
    assert |"None"| < |DefaultClarification|;
  }

  /** The explanation request cannot tell a `None` review content from the
      text "None": both render the same. */
  lemma NullReviewLooksLikeNoneText(snippet: string, m: Message)
    ensures ExplainRequest(snippet, Some(m[ContentKey := Null]))
         == ExplainRequest(snippet, Some(m[ContentKey := Text("None")]))
  {
    var withNull, withText := m[ContentKey := Null], m[ContentKey := Text("None")];
    assert ContentKey in withNull && ContentKey in withText;
    assert !Falsy(Some(withNull)) && !Falsy(Some(withText));
    assert Clarification(Some(withNull)) == "None" == Clarification(Some(withText));
  }

  /** The explanation request holds the stripped snippet, then the review
      notes, in that order and each verbatim. */
  lemma ExplainRequestOrder(snippet: string, reviewer: Stage, explainer: Stage)
    requires reviewer(ReviewRequest(snippet)).Success?
    ensures var p := ExplainRun(snippet, reviewer, explainer).requests[1];
      && OccursAt(p, FenceOpen + Strip(snippet) + FenceClose, |ExplainHead|)
      && OccursAt(p, Clarification(reviewer(ReviewRequest(snippet)).value), NotesOffset(Strip(snippet)))
      && |ExplainHead| + |FenceOpen + Strip(snippet) + FenceClose| < NotesOffset(Strip(snippet))
  {
  }

  // ----- Stage 2: selecting the answer -----

  /** Once the reviewer has answered, the explainer is asked with the
      request built from that answer, and its reply alone decides the
      outcome and the answer. */
  lemma ExplainerDecides(snippet: string, reviewer: Stage, explainer: Stage)
    requires reviewer(ReviewRequest(snippet)).Success?
    ensures var reply := explainer(ExplainRequest(snippet, reviewer(ReviewRequest(snippet)).value));
      && ExplainRun(snippet, reviewer, explainer).outcome == Conclude(reply)
      && ExplainCode(snippet, reviewer, explainer) == Render(Conclude(reply))
  {
  }

  /** An explainer failure becomes the catch-all error reply. */
  lemma ExplainerFailureReported(reply: StageResult)
    requires reply.Failure?
    ensures Render(Conclude(reply)) == ErrorReply(reply.error)
    ensures Classify(Render(Conclude(reply))) == Crashed(reply.error)
  {
    ClassifyRender(Crashed(reply.error));
  }

  /** A falsy explanation gives the "couldn't generate an explanation" reply. */
  lemma SilentExplainerApologises(last: Option<Message>)
    requires Falsy(last)
    ensures Render(Conclude(Success(last))) == NoExplanationReply
  {
  }

  /** A present explanation with no content, or only whitespace, gives the
      distinct "couldn't generate a meaningful explanation" reply. */
  lemma BlankExplanationApologises(m: Message)
    requires m != map[]
    requires ContentKey !in m || (m[ContentKey].Text? && AllSpace(m[ContentKey].text))
    ensures Render(Conclude(Success(Some(m)))) == EmptyExplanationReply
  {
  }

  /** A `None` explanation content makes `.strip()` raise, which the
      catch-all turns into the error reply. */
  lemma NullExplanationReported(m: Message)
    requires ContentKey in m && m[ContentKey] == Null
    ensures Render(Conclude(Success(Some(m)))) == ErrorReply(NoneStripError)
  {
  }

  /** Otherwise the answer is the explanation with its outer whitespace
      removed and nothing else changed. */
  lemma ExplanationIsStripped(m: Message, s: string)
    requires ContentKey in m && m[ContentKey] == Text(s) && !AllSpace(s)
    ensures Render(Conclude(Success(Some(m)))) == Strip(s)
    ensures Strip(s) != [] && NoOuterSpace(Strip(s))
    ensures exists i, j :: 0 <= i <= j <= |s| && Strip(s) == s[i..j] && AllSpace(s[..i]) && AllSpace(s[j..])
  {
  }

  /** Padding the explanation with whitespace never changes the answer. */
  lemma ExplanationPaddingIrrelevant(last: Message, a: string, s: string, b: string)
    requires ContentKey in last && last[ContentKey] == Text(s)
    requires AllSpace(a) && AllSpace(b)
    ensures SelectExplanation(Some(last[ContentKey := Text(a + s + b)])) == SelectExplanation(Some(last))
  {
    StripIgnoresPadding(a, s, b);
  }

  /** Whitespace around the snippet never changes anything the service does. */
  lemma SnippetPaddingIrrelevant(a: string, snippet: string, b: string, reviewer: Stage, explainer: Stage)
    requires AllSpace(a) && AllSpace(b)
    ensures ExplainRun(a + snippet + b, reviewer, explainer) == ExplainRun(snippet, reviewer, explainer)
  {
    StripIgnoresPadding(a, snippet, b);
  }

  /** An explanation that already has no outer whitespace is returned
      exactly as the explainer wrote it. */
  lemma TrimmedExplanationVerbatim(m: Message, s: string)
    requires ContentKey in m && m[ContentKey] == Text(s) && s != [] && NoOuterSpace(s)
    ensures Conclude(Success(Some(m))) == Explained(s)
    ensures Render(Conclude(Success(Some(m)))) == s
  {
    assert s == [] + s + [];
    StripUnique([], s, []);
  }

  /** The answer cannot always tell success from failure: the apology text
      is itself a trimmed, non-empty explanation, so an explainer that
      echoes it (`TrimmedExplanationVerbatim`) yields the apology string. */
  lemma ApologyReadsAsExplanation()
    ensures NoExplanationReply != [] && NoOuterSpace(NoExplanationReply)
    ensures !Unmistakable(Explained(NoExplanationReply))
  {
    var t := NoExplanationReply;
    assert t[0] == ApologyOpening[0] == 'I';
    assert t[|t| - 1] == '.';
  }
}
