/** The message shape exchanged by the chat agents and the user proxy's
    termination test, as configured in `ExplainerService._setup_agents`. */
module Agents {
  import opened Wrappers
  import opened PyStr

  /** The value stored under a message's `"content"` key: a string, or
      Python `None` (a message that carries no text). */
  datatype Content = Text(text: string) | Null

  /** A chat message: a dictionary from field names to values. */
  type Message = map<string, Content>

  const ContentKey: string := "content"

  /** `message.get("content", default)`. */
  function GetContent(m: Message, default: Content): Content {
    if ContentKey in m then m[ContentKey] else default
  }

  /** Python truthiness failing for `last_message(...)`: `None`, or a
      dictionary with no entries (a dictionary is false when its length is
      zero). */
  predicate Falsy(last: Option<Message>) {
    last.None? || last.value == map[]
  }

  /** The phrase the proxy looks for in a received message. */
  const TerminationPhrase: string := "thank you"

  /** The reply the proxy sends on its own when it has nothing else to say. */
  const DefaultAutoReply: string := "Thank you for the explanation."

  /** `str(e)` of the AttributeError raised by `None.lower()`. */
  const NoneLowerError: string := "'NoneType' object has no attribute 'lower'"

  /** The proxy's `is_termination_msg`:
      `"thank you" in x.get("content", "").lower()`. A missing content counts
      as the empty string; a `None` content makes `.lower()` raise. */
  function IsTerminationMsg(m: Message): (r: Result<bool, string>)
    ensures r.Failure? <==> (ContentKey in m && m[ContentKey].Null?)
    ensures r.Failure? ==> r.error == NoneLowerError
    ensures r.Success? ==>
      (r.value <==> exists i :: 0 <= i <= |GetContent(m, Text("")).text| && FoldedAt(GetContent(m, Text("")).text, TerminationPhrase, i))
  {
    match GetContent(m, Text(""))
    case Null => Failure(NoneLowerError)
    case Text(s) =>
      ContainsLowerIff(s, TerminationPhrase);
      Success(Contains(Lower(s), TerminationPhrase))
  }

  /** A message whose text opens with the phrase, each letter in either
      case (or U+212A for k), ends the chat. */
  lemma OpeningPhraseTerminates(m: Message)
    requires ContentKey in m && m[ContentKey].Text?
    requires FoldedAt(m[ContentKey].text, TerminationPhrase, 0)
    ensures IsTerminationMsg(m) == Success(true)
  {
  }

  /** The proxy's own default reply opens with the phrase, so the proxy's
      own termination test accepts a message carrying it. */
  lemma DefaultAutoReplyTerminates()
    ensures FoldedAt(DefaultAutoReply, TerminationPhrase, 0)
    ensures IsTerminationMsg(map[ContentKey := Text(DefaultAutoReply)]) == Success(true)
  {
    assert FoldedAt(DefaultAutoReply, TerminationPhrase, 0);
    OpeningPhraseTerminates(map[ContentKey := Text(DefaultAutoReply)]);
  }

  /** A message without a `"content"` key never ends the chat. */
  lemma MissingContentNeverTerminates(m: Message)
    requires ContentKey !in m
    ensures IsTerminationMsg(m) == Success(false)
  {
  }

  /** Case does not matter: lower-casing the content first never changes
      the verdict. */
  lemma TerminationIgnoresCase(m: Message, s: string)
    requires ContentKey in m && m[ContentKey] == Text(s)
    ensures IsTerminationMsg(m) == IsTerminationMsg(m[ContentKey := Text(Lower(s))])
  {
    LowerIdempotent(s);
  }
}
