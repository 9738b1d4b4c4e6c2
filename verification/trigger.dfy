/** The message effect of the page: when the chat hook's message list
    changes, decide whether to (re)schedule processing of its last message.
    The 500 ms timer itself is not modelled; a scheduled timer is the
    message it will hand over, and scheduling a new one replaces it, as
    `clearTimeout` does. */
module Trigger {
  import opened Wrappers

  /** Roles of the messages the chat hook keeps. */
  datatype Role = System | User | Assistant | Data

  datatype Message = Message(role: Role, content: string)

  /** The effect's refs: the list length last acted on, the assistant
      content last acted on, and the message a pending timer will process. */
  datatype Watch = Watch(seen: nat, lastContent: string, pending: Option<Message>)

  const Idle: Watch := Watch(0, "", None)

  /** The effect's condition: a non-empty list that grew, or whose last
      message is an assistant message with new content. */
  predicate Fires(w: Watch, messages: seq<Message>)
  {
    && |messages| > 0
    && var last := messages[|messages| - 1];
       |messages| > w.seen || (last.role == Assistant && last.content != w.lastContent)
  }

  /** The effect run on a new message list. */
  function Observe(w: Watch, messages: seq<Message>): (r: Watch)
    ensures !Fires(w, messages) ==> r == w
    ensures Fires(w, messages) ==> r.seen == |messages| && r.pending == Some(messages[|messages| - 1])
  {
    if Fires(w, messages) then
      var last := messages[|messages| - 1];
      Watch(|messages|, if last.role == Assistant then last.content else w.lastContent, Some(last))
    else w
  }

  /** The pending timer going off: it hands over its message's content when
      that message is an assistant message, and nothing otherwise. */
  function Elapse(w: Watch): (r: (Watch, Option<string>))
    ensures r.0.pending == None && r.0.seen == w.seen && r.0.lastContent == w.lastContent
    ensures r.1.Some? <==> w.pending.Some? && w.pending.value.role == Assistant
    ensures r.1.Some? ==> r.1.value == w.pending.value.content
  {
    var handed := match w.pending
      case Some(m) => if m.role == Assistant then Some(m.content) else None
      case None => None;
    (w.(pending := None), handed)
  }

  /** After the effect, an assistant message at the end of the list is the
      content it remembers. */
  lemma ObserveRemembersAssistant(w: Watch, messages: seq<Message>)
    requires |messages| > 0 && messages[|messages| - 1].role == Assistant
    ensures Observe(w, messages).lastContent == messages[|messages| - 1].content
  {
  }

  /** The remembered content changes only to the content of an assistant
      message ending the list. */
  lemma ObserveChangesOnlyForAssistant(w: Watch, messages: seq<Message>)
    requires Observe(w, messages).lastContent != w.lastContent
    ensures |messages| > 0
    ensures messages[|messages| - 1].role == Assistant
    ensures Observe(w, messages).lastContent == messages[|messages| - 1].content
  {
  }

  /** Running the effect again on the same list does nothing: whatever made
      it fire has been recorded. */
  lemma ObserveStable(w: Watch, messages: seq<Message>)
    ensures !Fires(Observe(w, messages), messages)
    ensures Observe(Observe(w, messages), messages) == Observe(w, messages)
  {
  }

  /** An assistant reply streaming into the last message: every update
      that changes its content reschedules the timer with the latest
      content, even though the list does not grow. */
  lemma StreamingReschedules(w: Watch, messages: seq<Message>, content: string)
    requires |messages| > 0 && messages[|messages| - 1].role == Assistant
    requires content != messages[|messages| - 1].content
    ensures var w1 := Observe(w, messages);
            var updated := messages[|messages| - 1 := Message(Assistant, content)];
            Observe(w1, updated).pending == Some(Message(Assistant, content))
  {
    ObserveRemembersAssistant(w, messages);
  }

  /** A new user message (the chat hook appends one on submit) schedules a
      timer that will hand over nothing. */
  lemma UserMessageHandsOverNothing(w: Watch, messages: seq<Message>, m: Message)
    requires |messages| >= w.seen && m.role == User
    ensures Elapse(Observe(w, messages + [m])).1 == None
  {
  }
}
