# Code explainer pipeline — Dafny model

This project models the decision logic of `ExplainerService.explain_code` in
the autogen code explainer: a snippet is stripped and sent to a *reviewer*
(clarifier) agent; the reviewer's reply, or a fixed fallback, is threaded
into a second request for an *explainer* agent; the explainer's reply is
stripped and returned, or replaced by one of two apology strings; any
exception becomes a formatted error string. It also models the user proxy's
termination test (`"thank you"` in the lower-cased content) and its default
auto-reply.

The autogen chat is not modelled. Each stage is a total function
`Stage = string -> Result<Option<Message>, string>` from the request sent
to what the service then reads back: `Failure(str(e))` for an `Exception`,
`Success(None)` for a `None` `last_message`, `Success(Some(m))` for a message
dictionary (an empty dictionary is falsy, exactly as in Python). A message's
`"content"` is `Text(s)` or `Null` (Python `None`). Because a stage is a
function, the model assumes an agent's reply depends only on the request it
is sent; a live model sampling at temperature 0.3 need not answer the same
request the same way twice, so `SnippetPaddingIrrelevant`'s claim about the
outcome rests on that assumption.

Files, one module each:

- `wrappers.dfy` — `Option` and `Result`.
- `pystr.dfy` — Python's `str.strip()` over the explicit `str.isspace()`
  code-point set, `str.lower()`, and substring `in`.
- `agents.dfy` — the message shape and `is_termination_msg`.
- `prompts.dfy` — the review and explanation request templates.
- `explainer.dfy` — the pipeline: fallback, selection, error reply, and
  the end-to-end properties.

Two points of the code that are easy to misread:

- Stage 1 uses a present `"content"` as it is, even when it is empty or
  only whitespace (line 110); it does not strip it. Only a falsy message or
  a missing key gives the fallback notes.
- An `Exception` raised by the chat itself reaches the outer `except`
  (line 153) and becomes the error reply; it does not surface as a missing
  reply.

## Model

| member | source | states |
|---|---|---|
| PyStr.Strip | app/services/explainer_service.py:80 | `strip()` returns a window of its input with only whitespace cut from each end; the result has no outer whitespace; it is empty exactly when the input is all whitespace |
| PyStr.StripUnique | app/services/explainer_service.py:145 | independent characterisation: for whitespace `a`, `b` and a string `m` without outer whitespace, `strip(a + m + b) == m` |
| PyStr.StripIdempotent | app/services/explainer_service.py:145 | stripping twice equals stripping once |
| PyStr.StripIgnoresPadding | app/services/explainer_service.py:80 | whitespace added around a string never changes its strip |
| PyStr.LowerChar | app/services/explainer_service.py:68 | one character of `lower()`: it yields no ASCII capital, two characters exactly for U+0130, and leaves every character with nothing to lower-case unchanged; which characters fold to each ASCII letter is stated by `PyStr.FoldsToLetter` |
| PyStr.FoldsToLetter | app/services/explainer_service.py:68 | a character lower-cases to the single ASCII letter `d` exactly when it is `d`, the capital of `d`, or (for k) U+212A |
| PyStr.Lower | app/services/explainer_service.py:68 | `lower()` never shortens a string, and keeps its length exactly when it holds no U+0130 (both directions) |
| PyStr.LowerHasNoUpper | app/services/explainer_service.py:68 | `lower()` leaves no ASCII capital letter |
| PyStr.LowerIdempotent | app/services/explainer_service.py:68 | lower-casing twice equals lower-casing once |
| PyStr.ContainsLowerIff | app/services/explainer_service.py:68 | for a needle without 'i' or U+0307, such as "thank you", `needle in hay.lower()` holds exactly when some window of `hay` folds character by character to `needle`, in both directions |
| PyStr.Contains | app/services/explainer_service.py:68 | `needle in hay`: only a needle no longer than `hay` can be found |
| PyStr.EmptyContained | app/services/explainer_service.py:68 | the empty string is in every string |
| PyStr.Find | app/services/explainer_service.py:68 | the reference search that line 68's `in` is checked against through `ContainsIffFind` (the service never calls `find`): a left-to-right search returns the first index where the needle occurs, or -1 when it occurs nowhere from the start index on |
| PyStr.ContainsIffFind | app/services/explainer_service.py:68 | `in` agrees with the search: the needle is contained exactly when the search from index 0 finds it |
| Agents.IsTerminationMsg | app/services/explainer_service.py:68 | the proxy's termination test raises exactly for a `None` content; otherwise it is true iff some window of the content, with a missing key read as "", lower-cases character by character to "thank you" (A–Z in either case, or U+212A for k, by `PyStr.FoldsToLetter`) |
| Agents.OpeningPhraseTerminates | app/services/explainer_service.py:68 | a message that starts with the phrase, each letter in either case (or U+212A for k), ends the chat |
| Agents.DefaultAutoReplyTerminates | app/services/explainer_service.py:67-68 | the default auto-reply "Thank you for the explanation." starts with the phrase, so the proxy's own predicate accepts it |
| Agents.MissingContentNeverTerminates | app/services/explainer_service.py:68 | a message without `"content"` never ends the chat |
| Agents.TerminationIgnoresCase | app/services/explainer_service.py:68 | replacing the content by its lower-cased form never changes the verdict |
| Prompts.ReviewPrompt | app/services/explainer_service.py:84-96 | the review request holds the fenced code verbatim at a fixed offset |
| Prompts.ReviewPromptRoundTrip | app/services/explainer_service.py:84-96 | the code is cut back out of its review request exactly |
| Prompts.ReviewPromptInjective | app/services/explainer_service.py:84-96 | distinct snippets give distinct review requests |
| Prompts.ExplainPrompt | app/services/explainer_service.py:115-131 | the explanation request holds the fenced code and then the notes, both verbatim, the code strictly first |
| Prompts.ExplainPromptNotesInjective | app/services/explainer_service.py:115-131 | for a fixed snippet the request determines the notes |
| Prompts.ExplainPromptCodeInjective | app/services/explainer_service.py:115-131 | for fixed notes the request determines the snippet |
| Prompts.FencedInjective | app/services/explainer_service.py:117-119 | the fenced block gives its code back: distinct codes give distinct fences |
| Prompts.ExplainPromptUnescaped | app/services/explainer_service.py:117-122 | the snippet is not escaped: a snippet that closes the fence and opens the notes section gives the same request as a different (snippet, notes) pair |
| Explainer.Clarification | app/services/explainer_service.py:105-110 | the notes are the default for a falsy review or one without `"content"`, and otherwise the rendered content |
| Explainer.ClarificationDefaultIff | app/services/explainer_service.py:105-110 | the notes equal the default exactly when the review is falsy, lacks `"content"`, or holds the default text itself; a `None` content never gives the default |
| Explainer.NullReviewLooksLikeNoneText | app/services/explainer_service.py:110-122 | a `None` review content and the text "None" give the same explanation request |
| Explainer.Conclude | app/services/explainer_service.py:133-155 | stage 2 ends in a crash exactly when the explainer's chat raised or a non-empty reply has a `None` content, carrying the chat's message in the first case; it says "no explanation" exactly for a falsy reply |
| Explainer.ErrorReply | app/services/explainer_service.py:155 | the error reply has the fixed prefix and suffix, and the exception text is cut back out of it exactly |
| Explainer.SelectExplanation | app/services/explainer_service.py:140-151 | stage 2 says "no explanation" exactly for a falsy reply; an explanation is non-empty with no outer whitespace; the only crash is `None.strip()` |
| Explainer.Render | app/services/explainer_service.py:140-155 | the returned string is empty only for an empty explanation, which selection never produces |
| Explainer.ClassifyRender | app/services/explainer_service.py:140-155 | every failure outcome, and every explanation not reading like a failure reply, is recovered from the returned string |
| Explainer.FailureRepliesDistinct | app/services/explainer_service.py:140-155 | the two apologies and the error reply are pairwise distinct, and the error reply determines the exception text |
| Explainer.ExplainRun | app/services/explainer_service.py:76-155 | one or two requests are sent; the first is the review request for the stripped snippet; the second is sent exactly when the reviewer did not raise and is built from its reply; an explanation is trimmed and non-empty |
| Explainer.ExplainCode | app/services/explainer_service.py:71-155 | the answer is never empty and names the outcome exactly unless the explanation itself reads like a failure reply |
| Explainer.ReviewRequestEmbedsSnippet | app/services/explainer_service.py:80-96 | the review request holds the stripped snippet between "```python\n" and "\n```" and gives it back unchanged |
| Explainer.ReviewerFailureReported | app/services/explainer_service.py:153-155 | a reviewer exception yields the error reply with its message, and the explainer is never asked |
| Explainer.ExplainerIgnoredAfterReviewerFailure | app/services/explainer_service.py:99-138 | after a reviewer exception the answer does not depend on the explainer |
| Explainer.SilentReviewerFallsBack | app/services/explainer_service.py:105-108 | a falsy review (`None` or an empty dictionary) makes the notes "Code appears straightforward." |
| Explainer.ContentlessReviewFallsBack | app/services/explainer_service.py:109-110 | a non-empty review without `"content"` also gives the default notes |
| Explainer.ReviewContentVerbatim | app/services/explainer_service.py:110 | a present review content, even empty or whitespace, is used unchanged |
| Explainer.NullReviewRendersNone | app/services/explainer_service.py:110-122 | a `None` review content appears as "None" in the explanation request |
| Explainer.ExplainRequestOrder | app/services/explainer_service.py:115-131 | the explanation request holds the stripped snippet, then the notes, verbatim and in that order |
| Explainer.ExplainerDecides | app/services/explainer_service.py:133-151 | once the reviewer has answered, the explainer is asked with the request built from that answer, and its reply alone fixes the outcome and the answer |
| Explainer.ExplainerFailureReported | app/services/explainer_service.py:153-155 | an explainer exception yields the error reply with its message, and that message is read back from it |
| Explainer.SilentExplainerApologises | app/services/explainer_service.py:140-143 | a falsy explanation gives exactly "I apologize, but I couldn't generate an explanation. Please try again." |
| Explainer.BlankExplanationApologises | app/services/explainer_service.py:145-148 | a present explanation with no content or only whitespace gives exactly the distinct "…a meaningful explanation…" reply |
| Explainer.NullExplanationReported | app/services/explainer_service.py:145-155 | a `None` explanation content makes `.strip()` raise, so the answer is the error reply for that AttributeError |
| Explainer.ExplanationIsStripped | app/services/explainer_service.py:145-151 | otherwise the answer is the stripped content: non-empty, no outer whitespace, a window of the content |
| Explainer.ExplanationPaddingIrrelevant | app/services/explainer_service.py:145 | whitespace around the explainer's content never changes the selection |
| Explainer.SnippetPaddingIrrelevant | app/services/explainer_service.py:80 | whitespace around the snippet never changes the requests or the outcome |
| Explainer.TrimmedExplanationVerbatim | app/services/explainer_service.py:145-151 | a non-empty explanation without outer whitespace is returned exactly as written |
| Explainer.ApologyReadsAsExplanation | app/services/explainer_service.py:143 | the apology text is itself a valid trimmed explanation, so an explainer echoing it cannot be told from a silent one |

## Left out

- The autogen chat itself: `a_initiate_chat`, turn counting,
  `max_consecutive_auto_reply=2`, `max_turns=1` and when the termination
  test is consulted. That logic lives in the library. Only each stage's
  result is modelled, as a parameter. Turn-limit properties are therefore
  not stated.
- Agent construction and LLM configuration: model name, base URL, API key,
  temperature, `max_tokens`, `cache_seed`. This is configuration data with
  no behaviour.
- Logging and async scheduling. Logging has no effect on results. The
  model is sequential, as the awaited calls are.
- app/main.py: HTTP endpoints, environment loading, static files and the
  health check. This is transport plumbing.
- app/models.py: the request and response shapes, which the validation
  library checks.
- app/agents/prompts.py: the agents' system messages. They are constants
  handed to the library and do not reach this logic.
- Message content that is neither a string nor `None`, such as a list of
  parts. The model covers only `Text` and `Null`, so the `str()` rendering
  and the AttributeError such values would cause are not modelled.
- PyStr.LowerChar: only the characters whose lower-case form contains ASCII
  are mapped (A–Z, U+212A, U+0130). Every other character is kept as it is.
  Their real lower-case forms contain no ASCII, so the "thank you" test is
  unaffected, but `Lower` is not the full Unicode mapping.
- Exceptions that are not `Exception` subclasses: `Failure` stands only
  for an `Exception`, the only kind the `except Exception` at line 153
  catches. `asyncio.CancelledError`, `KeyboardInterrupt`, `SystemExit` and
  other `BaseException`s escape `explain_code`, so the model's "always
  returns a non-empty string" holds only for calls they do not end.
- Explainer.ExplainCode: names the outcome only for outcomes that cannot be
  mistaken for another. An explanation whose text equals an apology, or
  has the error reply's shape, is indistinguishable from that failure; see
  `ApologyReadsAsExplanation`.
