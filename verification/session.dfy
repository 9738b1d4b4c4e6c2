/** The page state `processAssistantMessage` and `handleSubmit` update:
    the code shown (`message`), the code previewed (`generatedCode`), the
    conversation log and the loading flag. */
module Session {
  import opened Json
  import opened Normalizer

  /** The speaker of a logged turn. */
  datatype Role = User | Assistant

  /** One turn of the conversation log. A user's turn holds the text typed;
      an assistant's turn holds whatever value the reply's `conversation`
      member had, so it is any JSON value and not only a string. */
  datatype Turn = Turn(role: Role, content: Json)

  datatype Page = Page(message: string, generatedCode: string, conversation: seq<Turn>, generating: bool)

  /** The turn logged when a submission fails. */
  const Apology: string := "Oops! Something went wrong with vibe coding..."

  /** The state of a freshly opened page. */
  const Initial: Page := Page("", "", [], false)

  /** `prefix` is an initial part of `log`. */
  predicate IsPrefix(prefix: seq<Turn>, log: seq<Turn>)
  {
    |prefix| <= |log| && log[..|prefix|] == prefix
  }

  /** `log` is `prefix` followed by assistant turns only. */
  predicate ExtendsWithAssistant(prefix: seq<Turn>, log: seq<Turn>)
  {
    && IsPrefix(prefix, log)
    && forall i :: |prefix| <= i < |log| ==> log[i].role == Assistant
  }

  /** What one reply does to the page: a structured or fallback reply sets
      both display values to the same text and logs one assistant turn; an
      unchanged reply leaves the page as it was. */
  function Apply(page: Page, reply: Reply): (r: Page)
    ensures ExtendsWithAssistant(page.conversation, r.conversation)
    ensures |r.conversation| <= |page.conversation| + 1
    ensures r.generating == page.generating
    ensures r == page || (r.message == r.generatedCode && |r.conversation| == |page.conversation| + 1)
    ensures reply.Unchanged? <==> r == page
  {
    match reply
    case Structured(conversation, code) =>
      page.(message := code, generatedCode := code,
            conversation := page.conversation + [Turn(Assistant, conversation)])
    case Fallback(text) =>
      page.(message := text, generatedCode := text,
            conversation := page.conversation + [Turn(Assistant, JString(text))])
    case Unchanged => page
  }

  /** `processAssistantMessage(content)` applied to the page. */
  function Process(page: Page, content: string, parse: Parser): (r: Page)
    ensures ExtendsWithAssistant(page.conversation, r.conversation)
    ensures |r.conversation| <= |page.conversation| + 1
    ensures r.generating == page.generating
    ensures r == page || r.message == r.generatedCode
  {
    Apply(page, Normalize(content, parse))
  }

  /** The state updates of `handleSubmit` up to its `await`: both display
      values cleared, the loading flag raised and the input logged as a
      user turn. */
  function Submit(page: Page, input: string): (r: Page)
    ensures r.message == "" && r.generatedCode == "" && r.generating
    ensures r.conversation == page.conversation + [Turn(User, JString(input))]
  {
    Page("", "", page.conversation + [Turn(User, JString(input))], true)
  }

  /** The `catch` of `handleSubmit`, run when the awaited submission
      throws: the apology is logged as an assistant turn, and nothing else
      changes. */
  function SubmitFailed(page: Page): (r: Page)
    ensures r.conversation == page.conversation + [Turn(Assistant, JString(Apology))]
    ensures r.(conversation := page.conversation) == page
  {
    page.(conversation := page.conversation + [Turn(Assistant, JString(Apology))])
  }

  /** The delayed `setIsGenerating(false)` of `handleSubmit`'s `finally`. */
  function Settle(page: Page): (r: Page)
    ensures !r.generating
    ensures r.(generating := page.generating) == page
  {
    page.(generating := false)
  }

  // ---------------------------------------------------------------------
  // What a reply shows
  // ---------------------------------------------------------------------

  /** A structured reply shows its unescaped code and logs its
      `conversation` value. */
  lemma ProcessStructured(page: Page, content: string, parse: Parser)
    requires Normalize(content, parse).Structured?
    ensures var reply := Normalize(content, parse);
            var r := Process(page, content, parse);
            && r.message == reply.code && r.generatedCode == reply.code
            && r.conversation == page.conversation + [Turn(Assistant, reply.conversation)]
  {
  }

  /** A fallback shows its text and logs it as the assistant's turn. */
  lemma ProcessFallback(page: Page, content: string, parse: Parser)
    requires Normalize(content, parse).Fallback?
    ensures var text := Normalize(content, parse).text;
            var r := Process(page, content, parse);
            && r.message == text && r.generatedCode == text
            && r.conversation == page.conversation + [Turn(Assistant, JString(text))]
  {
  }
}
