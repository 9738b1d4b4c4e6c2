/** The page as a whole: its session state and the message effect's refs,
    driven by the events that reach it. */
module App {
  import opened Wrappers
  import opened Json
  import opened Session
  import Trigger

  datatype Event =
    | Submitted(input: string)                        // `handleSubmit` up to its `await`
    | SubmissionFailed                                // its `catch`, after the `await`
    | Settled                                         // its delayed `setIsGenerating(false)`
    | MessagesChanged(messages: seq<Trigger.Message>) // the chat hook's list changes
    | TimerElapsed                                    // the effect's pending timer goes off

  datatype App = App(page: Page, watch: Trigger.Watch)

  /** A freshly opened page with no timer pending. */
  const Start: App := App(Initial, Trigger.Idle)

  /** The number of turns in `log` spoken by `role`. */
  function CountRole(role: Role, log: seq<Turn>): nat
  {
    if |log| == 0 then 0
    else CountRole(role, log[..|log| - 1]) + (if log[|log| - 1].role == role then 1 else 0)
  }

  /** The number of submissions among `events`. */
  function Submissions(events: seq<Event>): nat
  {
    if |events| == 0 then 0
    else (if events[0].Submitted? then 1 else 0) + Submissions(events[1..])
  }

  /** One event. Only a timer going off on an assistant message runs
      `processAssistantMessage`. */
  function Step(app: App, e: Event, parse: Parser): (r: App)
    ensures IsPrefix(app.page.conversation, r.page.conversation)
    ensures app.page.message == app.page.generatedCode ==> r.page.message == r.page.generatedCode
    ensures |r.page.conversation| <= |app.page.conversation| + 1
    ensures !e.Submitted? ==> ExtendsWithAssistant(app.page.conversation, r.page.conversation)
  {
    match e
    case Submitted(input) => app.(page := Submit(app.page, input))
    case SubmissionFailed => app.(page := SubmitFailed(app.page))
    case Settled => app.(page := Settle(app.page))
    case MessagesChanged(messages) => app.(watch := Trigger.Observe(app.watch, messages))
    case TimerElapsed =>
      var (watch, handed) := Trigger.Elapse(app.watch);
      match handed
      case Some(content) => App(Process(app.page, content, parse), watch)
      case None => App(app.page, watch)
  }

  /** The events in order. */
  function Run(app: App, events: seq<Event>, parse: Parser): App
    decreases |events|
  {
    if |events| == 0 then app else Run(Step(app, events[0], parse), events[1..], parse)
  }

  /** Turns are only ever appended: no run alters or drops a logged turn. */
  lemma {:induction false} RunAppendOnly(app: App, events: seq<Event>, parse: Parser)
    ensures IsPrefix(app.page.conversation, Run(app, events, parse).page.conversation)
    decreases |events|
  {
    if |events| > 0 {
      var next := Step(app, events[0], parse);
      RunAppendOnly(next, events[1..], parse);
      var log0, log1, log2 := app.page.conversation, next.page.conversation,
                              Run(next, events[1..], parse).page.conversation;
      assert log2[..|log0|] == log2[..|log1|][..|log0|];
    }
  }

  /** The code shown and the code previewed always agree, from any state
      in which they agree. */
  lemma {:induction false} RunDisplayAgrees(app: App, events: seq<Event>, parse: Parser)
    requires app.page.message == app.page.generatedCode
    ensures Run(app, events, parse).page.message == Run(app, events, parse).page.generatedCode
    decreases |events|
  {
    if |events| > 0 {
      RunDisplayAgrees(Step(app, events[0], parse), events[1..], parse);
    }
  }

  /** From a freshly opened page, the code shown and the code previewed
      agree after any run, and the log holds exactly one user turn per
      submission. */
  lemma RunFromStart(events: seq<Event>, parse: Parser)
    ensures Run(Start, events, parse).page.message == Run(Start, events, parse).page.generatedCode
    ensures CountRole(User, Run(Start, events, parse).page.conversation) == Submissions(events)
  {
    RunDisplayAgrees(Start, events, parse);
    RunUserTurns(Start, events, parse);
  }

  /** Counting is additive over concatenation. */
  lemma {:induction false} CountRoleAppend(role: Role, log: seq<Turn>, more: seq<Turn>)
    ensures CountRole(role, log + more) == CountRole(role, log) + CountRole(role, more)
    decreases |more|
  {
    if |more| > 0 {
      var front := more[..|more| - 1];
      assert (log + more)[..|log + more| - 1] == log + front;
      assert (log + more)[|log + more| - 1] == more[|more| - 1];
      CountRoleAppend(role, log, front);
    } else {
      assert log + more == log;
    }
  }

  /** Every user turn in the log comes from a submission, one per
      submission: processing replies logs assistant turns only. */
  lemma {:induction false} RunUserTurns(app: App, events: seq<Event>, parse: Parser)
    ensures CountRole(User, Run(app, events, parse).page.conversation) ==
              CountRole(User, app.page.conversation) + Submissions(events)
    decreases |events|
  {
    if |events| > 0 {
      var next := Step(app, events[0], parse);
      RunUserTurns(next, events[1..], parse);
      StepUserTurns(app, events[0], parse);
    }
  }

  /** One event adds a user turn exactly when it is a submission. */
  lemma StepUserTurns(app: App, e: Event, parse: Parser)
    ensures CountRole(User, Step(app, e, parse).page.conversation) ==
              CountRole(User, app.page.conversation) + (if e.Submitted? then 1 else 0)
  {
    var log := app.page.conversation;
    var after := Step(app, e, parse).page.conversation;
    assert after == log + after[|log|..];
    CountRoleAppend(User, log, after[|log|..]);
    var added := after[|log|..];
    match e
    case Submitted(input) =>
      assert added == [Turn(User, JString(input))];
    case SubmissionFailed =>
      assert added == [Turn(Assistant, JString(Apology))];
    case Settled =>
    case MessagesChanged(_) =>
    case TimerElapsed =>
      if |added| > 0 {
        assert added == [added[0]];
        assert added[0].role == Assistant;
      }
  }
}
