/** The two instruction-formatted requests `explain_code` sends: the review
    request (stage 1) and the explanation request (stage 2). Both embed the
    code verbatim in a fenced block; nothing is escaped. */
module Prompts {
  import opened PyStr

  const FenceOpen: string := "```python\n"
  const FenceClose: string := "\n```"

  /** The code inside its fenced block, as both templates write it. */
  function Fenced(code: string): string {
    FenceOpen + code + FenceClose
  }

  const ReviewHead: string :=
    "[INST] You are a Python code reviewer. Review this code and list any parts that need clarification:\n\n"
  const ReviewTail: string :=
    "\n\nFocus on:\n1. Algorithm logic\n2. Variable usage\n3. Edge cases\n4. Performance considerations\n\n"
    + "List your findings as bullet points. If the code is clear, state that it's straightforward. [/INST]"

  /** The stage-1 request: the fenced code between the reviewer's head and
      tail text. */
  function ReviewPrompt(code: string): (p: string)
    ensures OccursAt(p, Fenced(code), |ReviewHead|)
    ensures |p| == |ReviewHead| + |Fenced(code)| + |ReviewTail|
  {
    var p := ReviewHead + Fenced(code) + ReviewTail;
    assert p[|ReviewHead|..|ReviewHead| + |Fenced(code)|] == Fenced(code);
    p
  }

  /** Cuts the code back out of a review request. */
  function CodeOfReviewPrompt(p: string): string
    requires |p| >= |ReviewHead + FenceOpen| + |FenceClose + ReviewTail|
  {
    p[|ReviewHead + FenceOpen|..|p| - |FenceClose + ReviewTail|]
  }

  /** The review request loses nothing: the code is recovered exactly. */
  lemma ReviewPromptRoundTrip(code: string)
    ensures |ReviewPrompt(code)| >= |ReviewHead + FenceOpen| + |FenceClose + ReviewTail|
    ensures CodeOfReviewPrompt(ReviewPrompt(code)) == code
  {
    var p := ReviewPrompt(code);
    assert p == (ReviewHead + FenceOpen) + code + (FenceClose + ReviewTail);
  }

  /** Distinct snippets give distinct review requests. */
  lemma ReviewPromptInjective(c1: string, c2: string)
    requires ReviewPrompt(c1) == ReviewPrompt(c2)
    ensures c1 == c2
  {
    ReviewPromptRoundTrip(c1);
    ReviewPromptRoundTrip(c2);
  }

  const ExplainHead: string :=
    "[INST] You are a Python code explainer. Explain this code clearly and comprehensively:\n\n"
  const ExplainMid: string :=
    "\n\nConsider these points from the code review:\n"
  const ExplainTail: string :=
    "\n\nProvide your explanation in this structure:\n1. Purpose and Overview\n2. Algorithm Explanation\n"
    + "3. Key Components\n4. Time and Space Complexity\n5. Example Execution Flow\n\nMake it clear and detailed. [/INST]"

  /** Where the review notes start inside an explanation request. */
  function NotesOffset(code: string): nat {
    |ExplainHead| + |Fenced(code)| + |ExplainMid|
  }

  /** The stage-2 request: the fenced code, then the review notes, each
      verbatim, the code strictly before the notes. */
  function ExplainPrompt(code: string, notes: string): (p: string)
    ensures OccursAt(p, Fenced(code), |ExplainHead|)
    ensures OccursAt(p, notes, NotesOffset(code))
    ensures |ExplainHead| + |Fenced(code)| < NotesOffset(code)
    ensures |p| == NotesOffset(code) + |notes| + |ExplainTail|
  {
    var p := ExplainHead + Fenced(code) + ExplainMid + notes + ExplainTail;
    assert p[|ExplainHead|..|ExplainHead| + |Fenced(code)|] == Fenced(code);
    assert p[NotesOffset(code)..NotesOffset(code) + |notes|] == notes;
    p
  }

  /** For a known snippet, the explanation request determines the notes. */
  lemma ExplainPromptNotesInjective(code: string, n1: string, n2: string)
    requires ExplainPrompt(code, n1) == ExplainPrompt(code, n2)
    ensures n1 == n2
  {
    var p := ExplainPrompt(code, n1);
    assert p[NotesOffset(code)..NotesOffset(code) + |n1|] == n1;
    assert p[NotesOffset(code)..NotesOffset(code) + |n2|] == n2;
  }

  /** For known notes, the explanation request determines the snippet. */
  lemma ExplainPromptCodeInjective(c1: string, c2: string, notes: string)
    requires ExplainPrompt(c1, notes) == ExplainPrompt(c2, notes)
    ensures c1 == c2
  {
    var p := ExplainPrompt(c1, notes);
    var k := |ExplainHead|;
    assert |Fenced(c1)| == |Fenced(c2)|;
    assert Fenced(c1) == p[k..k + |Fenced(c1)|] == Fenced(c2);
    FencedInjective(c1, c2);
  }

  /** The fence gives its code back. */
  lemma FencedInjective(c1: string, c2: string)
    requires Fenced(c1) == Fenced(c2)
    ensures c1 == c2
  {
    assert Fenced(c1)[|FenceOpen|..|FenceOpen| + |c1|] == c1;
    assert Fenced(c2)[|FenceOpen|..|FenceOpen| + |c2|] == c2;
  }

  /** The explanation request as one flat concatenation: the text before
      the code, the code, the text joining code and notes, the notes, the
      closing text. */
  lemma ExplainPromptShape(code: string, notes: string)
    ensures ExplainPrompt(code, notes)
         == (ExplainHead + FenceOpen) + code + (FenceClose + ExplainMid) + notes + ExplainTail
  {
    Flatten(ExplainHead, FenceOpen, code, FenceClose, ExplainMid, notes, ExplainTail);
  }

  lemma Flatten(h: string, o: string, c: string, f: string, m: string, n: string, t: string)
    ensures h + (o + c + f) + m + n + t == (h + o) + c + (f + m) + n + t
  {
  }

  lemma Reassociate(k: string, c: string, j: string, x: string, y: string, t: string)
    ensures k + (c + j + x) + j + y + t == k + c + j + (x + j + y) + t
  {
  }

  /** The snippet is not escaped: a snippet that closes the fence itself and
      starts the notes section yields the same request as a shorter snippet
      with longer notes, so the request alone does not determine the pair. */
  lemma ExplainPromptUnescaped(code: string, x: string, y: string)
    ensures ExplainPrompt(code + FenceClose + ExplainMid + x, y)
         == ExplainPrompt(code, x + FenceClose + ExplainMid + y)
    ensures code + FenceClose + ExplainMid + x != code
  {
    var j := FenceClose + ExplainMid;
    assert code + FenceClose + ExplainMid + x == code + j + x;
    assert x + FenceClose + ExplainMid + y == x + j + y;
    ExplainPromptShape(code + j + x, y);
    ExplainPromptShape(code, x + j + y);
    Reassociate(ExplainHead + FenceOpen, code, j, x, y, ExplainTail);
  }
}
