/**
  `ask_groq`: choose between the maintenance text (no model client), the
  apology text (the model call failed) and the post-processed model answer.
  The system instruction carries the rendered inventory verbatim.
 */
module Assistant {
  import opened Wrappers
  import opened PyStr
  import opened Inventory
  import opened ReplyParser

  const Maintenance: string := "السيرفر في حالة صيانة، دقيقة ونرجعو."
  const Apology: string := "اسمحلنا خويا، كاين ضغط، عاود ابعثلي."

  /** The persona and rules that precede the inventory; their wording is not modelled. */
  const PersonaHead: string := "<persona, vocabulary and rules>\nInventory:\n"
  /** The layout that follows the inventory. */
  const PersonaTail: string := "\n"

  /**
    What the chat-completion call gave: it raised, or it returned a first
    choice whose `message.content` may be null.
   */
  datatype ModelOutcome = CallFailed | Completed(content: Option<string>)

  /**
    Everything `ask_groq` consults outside itself: whether a client was
    constructed, the configured sheet link, what fetching the sheet gives,
    and the model as a function of (system instruction, user text).
   */
  datatype Backend = Backend(
    hasClient: bool,
    sheetUrl: Option<string>,
    sheet: SheetFetch,
    model: (string, string) -> ModelOutcome)

  /** The system instruction: persona text with the inventory embedded as is. */
  function SystemInstruction(inventory: string): (prompt: string)
    ensures |prompt| == |PersonaHead| + |inventory| + |PersonaTail|
    ensures StartsWith(prompt, PersonaHead)
    ensures OccursAt(prompt, inventory, |PersonaHead|)
  {
    var prompt := PersonaHead + inventory + PersonaTail;
    assert prompt[..|PersonaHead|] == PersonaHead;
    assert prompt[|PersonaHead|..|PersonaHead| + |inventory|] == inventory;
    prompt
  }

  /** The prompt `ask_groq` sends when a client exists. */
  function Prompt(b: Backend): string {
    SystemInstruction(InventoryText(b.sheetUrl, b.sheet))
  }

  /**
    `ask_groq(user_text)`. A null `content` makes the `in` test raise, which
    the handler turns into the apology like any other failure.
   */
  function AskGroq(b: Backend, userText: string): (r: Reply)
    ensures !b.hasClient ==> r == Reply(Maintenance, None)
  {
    if !b.hasClient then Reply(Maintenance, None)
    else
      match b.model(Prompt(b), userText)
      case CallFailed => Reply(Apology, None)
      case Completed(None) => Reply(Apology, None)
      case Completed(Some(raw)) => ExtractImage(raw)
  }

  // ---------------------------------------------------------------------
  // Lemmas
  // ---------------------------------------------------------------------

  /**
    Without a client the answer is the maintenance text whatever the sheet
    and the model would have given: neither is consulted.
   */
  lemma NoClientConsultsNothing(b1: Backend, b2: Backend, userText: string)
    requires !b1.hasClient && !b2.hasClient
    ensures AskGroq(b1, userText) == AskGroq(b2, userText) == Reply(Maintenance, None)
  {
  }

  /** A failed call, or one without content, yields the apology and no image. */
  lemma FailureApologises(b: Backend, userText: string)
    requires b.hasClient
    requires b.model(Prompt(b), userText) in {CallFailed, Completed(None)}
    ensures AskGroq(b, userText) == Reply(Apology, None)
  {
  }

  /**
    A successful call is post-processed: an answer without a marker is sent
    as is, one with a marker is cut at it, and an image link comes back
    exactly when the stripped segment after the marker starts with `http`,
    as the first word of that segment.
   */
  lemma SuccessPostProcesses(b: Backend, userText: string, raw: string)
    requires b.hasClient && b.model(Prompt(b), userText) == Completed(Some(raw))
    ensures AskGroq(b, userText) == ExtractImage(raw)
    ensures !Contains(raw, Marker) ==> AskGroq(b, userText) == Reply(raw, None)
    ensures Contains(raw, Marker) ==>
      AskGroq(b, userText).text == Strip(raw[..FirstMarker(raw)])
      && !Contains(AskGroq(b, userText).text, Marker)
    ensures AskGroq(b, userText).image.Some?
      <==> Contains(raw, Marker) && StartsWith(Strip(Segment(raw)), UrlScheme)
    ensures AskGroq(b, userText).image.Some? ==>
      |Words(Strip(Segment(raw)))| >= 1
      && AskGroq(b, userText).image.value == Words(Strip(Segment(raw)))[0]
  {
    ImageIffHttpSegment(raw);
    if Contains(raw, Marker) {
      TextPrecedesMarker(raw);
    }
    if ExtractImage(raw).image.Some? {
      ImageIsFirstWord(raw);
    }
  }

  /**
    An image link only comes out of a successful call whose answer holds the
    marker, and it is a well-formed `http` token taken from that answer.
   */
  lemma ImageOnlyFromAnswer(b: Backend, userText: string)
    requires AskGroq(b, userText).image.Some?
    ensures b.hasClient
    ensures exists raw ::
      && b.model(Prompt(b), userText) == Completed(Some(raw))
      && Contains(raw, Marker)
      && exists lo :: OccursAt(raw, AskGroq(b, userText).image.value, lo)
    ensures var url := AskGroq(b, userText).image.value;
      url != [] && NoSpace(url) && StartsWith(url, UrlScheme)
  {
    AnswerWithImage(b, userText);
    var raw := b.model(Prompt(b), userText).content.value;
    ImageUrlShape(raw);
  }

  /** A reply with an image is the post-processed content of a completed call. */
  lemma AnswerWithImage(b: Backend, userText: string)
    requires AskGroq(b, userText).image.Some?
    ensures b.hasClient
    ensures b.model(Prompt(b), userText).Completed? && b.model(Prompt(b), userText).content.Some?
    ensures AskGroq(b, userText) == ExtractImage(b.model(Prompt(b), userText).content.value)
  {
  }

  /** An image link `ask_groq` returns is a non-empty, whitespace-free `http` token. */
  lemma ImageLinkShape(b: Backend, userText: string)
    requires AskGroq(b, userText).image.Some?
    ensures var url := AskGroq(b, userText).image.value;
      url != [] && NoSpace(url) && StartsWith(url, UrlScheme)
  {
    ImageOnlyFromAnswer(b, userText);
  }

  /** The model sees the inventory text verbatim, right after the persona. */
  lemma PromptEmbedsInventory(b: Backend)
    ensures OccursAt(Prompt(b), InventoryText(b.sheetUrl, b.sheet), |PersonaHead|)
  {
  }
}
