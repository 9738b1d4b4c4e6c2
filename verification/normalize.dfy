/** `processAssistantMessage`: what the page makes of one assistant reply.
    The reply is reduced to one of three effects: a structured reply (its
    own `conversation` value and unescaped `code`), a fallback to some text
    shown as it is, or no change at all. */
module Normalizer {
  import opened Wrappers
  import opened Text
  import opened Json
  import opened Extract

  const ConversationMember: string := "conversation"
  const CodeMember: string := "code"

  /** The effect of one assistant reply on the page. */
  datatype Reply =
    | Structured(conversation: Json, code: string)
    | Fallback(text: string)
    | Unchanged

  /** Evaluating `parsed.conversation && parsed.code` and, when both are
      truthy, `parsed.code.replace(/\\n/g, '\n')`. */
  datatype Reading =
    | Accepted(conversation: Json, code: string)
    | Rejected
    | Thrown

  /** Both members the page reads are present and truthy. */
  predicate BothTruthy(v: Json)
  {
    && v.JObject?
    && ConversationMember in v.fields && Truthy(v.fields[ConversationMember])
    && CodeMember in v.fields && Truthy(v.fields[CodeMember])
  }

  /** A usable reply object: a truthy `conversation` and a non-empty string
      `code`. */
  predicate Usable(v: Json)
  {
    BothTruthy(v) && v.fields[CodeMember].JString?
  }

  /** Reading a parsed value throws a TypeError: `null` has no members, and
      a truthy `code` that is not a string has no `replace` method. */
  predicate Throws(v: Json)
  {
    v.JNull? || (BothTruthy(v) && !v.fields[CodeMember].JString?)
  }

  /** The member reads of src/app/page.tsx, in their order: `conversation`
      first, whose falsity short-circuits the test, then `code`. */
  function Read(v: Json): (r: Reading)
    ensures r.Accepted? <==> Usable(v)
    ensures r.Thrown? <==> Throws(v)
    ensures r.Rejected? <==> !v.JNull? && !BothTruthy(v)
    ensures r.Accepted? ==>
              && r.conversation == v.fields[ConversationMember]
              && r.code == Unescape(v.fields[CodeMember].str)
  {
    if v.JNull? then Thrown
    else
      var conversation := Member(v, ConversationMember);
      if !TruthyMember(conversation) then Rejected
      else
        var code := Member(v, CodeMember);
        if !TruthyMember(code) then Rejected
        else if code.value.JString? then Accepted(conversation.value, Unescape(code.value.str))
        else Thrown
  }

  /** The fenced branch is taken: a fenced block is found and its capture
      is non-empty (an empty capture is falsy). */
  predicate FencedTaken(cleaned: string)
  {
    FindFenced(cleaned).Some? && FindFenced(cleaned).value != ""
  }

  /** The fenced branch. Any exception reaches the outer `catch`, which
      shows the raw `content`; falsy members leave everything as it was. */
  function FencedReply(content: string, block: string, parse: Parser): Reply
  {
    match parse(block)
    case None => Fallback(content)
    case Some(v) =>
      match Read(v)
      case Accepted(conversation, code) => Structured(conversation, code)
      case Rejected => Unchanged
      case Thrown => Fallback(content)
  }

  /** The bare-object branch. Every failure, thrown or not, ends in showing
      `cleaned`, since the inner `catch` swallows exceptions. */
  function BareReply(cleaned: string, parse: Parser): Reply
  {
    match FindBare(cleaned)
    case None => Fallback(cleaned)
    case Some(text) =>
      match parse(text)
      case None => Fallback(cleaned)
      case Some(v) =>
        match Read(v)
        case Accepted(conversation, code) => Structured(conversation, code)
        case _ => Fallback(cleaned)
  }

  /** `processAssistantMessage(content)`, as the effect it has. */
  function Normalize(content: string, parse: Parser): (r: Reply)
    ensures r.Fallback? ==> r.text == content || r.text == StripThink(content)
  {
    var cleaned := StripThink(content);
    if FencedTaken(cleaned) then FencedReply(content, FindFenced(cleaned).value, parse)
    else BareReply(cleaned, parse)
  }

  // ---------------------------------------------------------------------
  // The outcomes, case by case
  // ---------------------------------------------------------------------

  /** A fenced block holding a usable object is the reply: its
      `conversation` as it is and its `code` unescaped. */
  lemma FencedSuccess(content: string, parse: Parser, v: Json)
    requires FencedTaken(StripThink(content))
    requires parse(FindFenced(StripThink(content)).value) == Some(v)
    requires Usable(v)
    ensures Normalize(content, parse) ==
              Structured(v.fields[ConversationMember], Unescape(v.fields[CodeMember].str))
  {
  }

  /** On the fenced branch, a parse error, a `null` or a non-string `code`
      shows the raw content, reasoning segment and all. */
  lemma FencedErrorShowsRawContent(content: string, parse: Parser)
    requires FencedTaken(StripThink(content))
    requires var p := parse(FindFenced(StripThink(content)).value); p.None? || Throws(p.value)
    ensures Normalize(content, parse) == Fallback(content)
  {
  }

  /** On the fenced branch, an object with a falsy or missing
      `conversation` or `code` changes nothing. */
  lemma FencedFalsyMemberChangesNothing(content: string, parse: Parser, v: Json)
    requires FencedTaken(StripThink(content))
    requires parse(FindFenced(StripThink(content)).value) == Some(v)
    requires !v.JNull? && !BothTruthy(v)
    ensures Normalize(content, parse) == Unchanged
  {
  }

  /** Off the fenced branch, a bare object holding a usable object is the
      reply. */
  lemma BareSuccess(content: string, parse: Parser, v: Json)
    requires !FencedTaken(StripThink(content))
    requires FindBare(StripThink(content)).Some?
    requires parse(FindBare(StripThink(content)).value) == Some(v)
    requires Usable(v)
    ensures Normalize(content, parse) ==
              Structured(v.fields[ConversationMember], Unescape(v.fields[CodeMember].str))
  {
  }

  /** Off the fenced branch, anything but a usable bare object shows the
      content with its reasoning segment stripped. */
  lemma BareFailureShowsCleanedContent(content: string, parse: Parser)
    requires !FencedTaken(StripThink(content))
    requires var b := FindBare(StripThink(content));
             b.None? || parse(b.value).None? || !Usable(parse(b.value).value)
    ensures Normalize(content, parse) == Fallback(StripThink(content))
  {
  }

  /** A reply changes nothing exactly when the fenced branch parses a value
      and finds a falsy member in it; every other reply changes the page. */
  lemma UnchangedIff(content: string, parse: Parser)
    ensures Normalize(content, parse) == Unchanged <==>
              && FencedTaken(StripThink(content))
              && parse(FindFenced(StripThink(content)).value).Some?
              && var v := parse(FindFenced(StripThink(content)).value).value;
                 !v.JNull? && !BothTruthy(v)
  {
  }

  /** A structured reply comes from the candidate text of the content: the
      fenced block's capture when the fenced branch is taken, the bare
      object's matched text otherwise. That text parses to a usable object
      whose members the reply carries, and the reply's code holds no
      backslash-`n` pair. */
  lemma StructuredComesFromCandidate(content: string, parse: Parser)
    requires Normalize(content, parse).Structured?
    ensures !FencedTaken(StripThink(content)) ==> FindBare(StripThink(content)).Some?
    ensures var cleaned := StripThink(content);
            var text := if FencedTaken(cleaned) then FindFenced(cleaned).value else FindBare(cleaned).value;
            && parse(text).Some? && Usable(parse(text).value)
            && Normalize(content, parse).conversation == parse(text).value.fields[ConversationMember]
            && Normalize(content, parse).code == Unescape(parse(text).value.fields[CodeMember].str)
    ensures forall i :: !EscapedNewlineAt(Normalize(content, parse).code, i)
  {
  }

  /** A reply with no reasoning segment, no fenced block and no bare object
      is shown verbatim. */
  lemma PlainTextShownVerbatim(content: string, parse: Parser)
    requires forall i, j :: !Delimited(content, ThinkOpen, ThinkClose, i, j)
    requires forall i, j :: !Delimited(content, FenceOpen, FenceClose, i, j)
    requires forall a, p, q, e :: !BareChain(content, a, p, q, e)
    ensures Normalize(content, parse) == Fallback(content)
  {
    StripThinkNoSegment(content);
    FindFencedSpec(content);
    FindBareMatches(content);
  }
}
