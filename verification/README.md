# Assistant-reply normaliser of vibe-code

vibe-code is a one-page web app. The user describes a small web page, a language model answers, and the page shows the generated HTML as code and as a live preview. The model is asked to answer with a JSON object holding a `conversation` remark and the `code`. It does not always comply. It may wrap its reasoning in `<think>…</think>`, fence the object in a Markdown `json` block, embed it in prose, or ignore the format entirely.

`processAssistantMessage` (src/app/page.tsx) turns whatever the model sends into three state updates: the code shown (`message`), the code previewed (`generatedCode`) and a turn in the conversation log.

This project models that normaliser, the state it updates, the state updates of `handleSubmit`, and the message effect that decides when a reply gets processed. It then proves what each of them promises.

Modules, in dependency order:

- `Wrappers` — `Option`.
- `Text` — substring search and its specification (`IndexOf`, `LastIndexOf`), first-occurrence replace, and JavaScript's `String.prototype.trim` over the ECMAScript whitespace and line-terminator set.
- `Extract` — the three regular expressions of the normaliser as plain string functions, each proved equal to the match the JavaScript regular expression returns:
  - the reasoning strip;
  - the fenced block;
  - the bare object.

  It also holds the `\n` unescaping.
- `Json` — parsed JSON values with JavaScript truthiness. `JSON.parse` is a parameter of type `Parser`: a function from text to `Option<Json>`, where `None` stands for a `SyntaxError`.
- `Normalizer` — the branch structure of `processAssistantMessage`, reduced to a `Reply`, which is one of:
  - `Structured(conversation, code)`;
  - `Fallback(text)`, where the text is the raw content or the cleaned content;
  - `Unchanged`.
- `Session` — the page state (`message`, `generatedCode`, the conversation log, the loading flag), and what a reply, a submission and the end of the loading delay do to it.
- `Trigger` — the message effect: when a change of the chat hook's message list schedules processing of its last message.
- `App` — all of the above driven by a sequence of events, with invariants proved over every run.

Behaviours of the code kept as written:

- On the fenced branch, an object with a missing or falsy `conversation` or `code` leaves the page untouched. The test at src/app/page.tsx:105 fails, control falls past it and out of the `try` block, and nothing is set. There is no fallback.
- The bare-object pattern needs some `"conversation"` to appear before some later `"code"`. Text in which every `"code"` comes before every `"conversation"` is not found. An object with its keys the other way round can still be found when a later value is the string `"code"`.
- On the fenced branch, a parse error falls back to the raw content, reasoning segment included. On the bare branch every failure falls back to the cleaned content.
- The member test is JavaScript truthiness, not non-emptiness. A `conversation` of `true`, `1`, `[]` or `{}` is accepted and logged as it is. A truthy `code` that is not a string, next to a truthy `conversation`, throws, because it has no `replace` method. When `conversation` is falsy the `&&` never reads `code`, and a falsy `code` is never unescaped, so neither throws.
- The user's turn and the apology of a failed submission are two separate updates, with the `await` at src/app/page.tsx:181 between them. A reply can be processed and logged in between.

## Model

| member | source | states |
|---|---|---|
| Text.IndexOfSpec | src/app/page.tsx:97 | the search returns the first occurrence at or after the start position, and none exactly when there is no such occurrence |
| Text.ReplaceFirstSpec | src/app/page.tsx:99 | a string `replace` with a string pattern replaces only its first occurrence and keeps the text on both sides |
| Text.TrimSpec | src/app/page.tsx:99 | `trim` removes exactly the maximal runs of whitespace at both ends: the result is a contiguous slice, does not start or end with whitespace, and everything removed is whitespace |
| Text.TrimUnique | src/app/page.tsx:99 | any slice of the text that is bounded by whitespace only and neither starts nor ends with whitespace is the trimmed text |
| Text.TrimIdempotent | src/app/page.tsx:99 | trimming twice is trimming once |
| Text.LastIndexOfSpec | src/app/page.tsx:117 | the backward search finds the last occurrence of a character, and none exactly when it does not occur |
| Extract.FindDelimitedSpec | src/app/page.tsx:97 | the lazy pattern `<think>[\s\S]*?</think>` matches iff some `<think>` is followed, at or after its end, by `</think>`; the match is the leftmost, shortest one |
| Extract.StripThinkNoSegment | src/app/page.tsx:96-100 | without a reasoning segment the cleaned content is the content itself, untrimmed |
| Extract.StripThinkDeletesSegment | src/app/page.tsx:96-100 | with a reasoning segment, the cleaned content is the content with the span from the first `<think>` through the next `</think>` deleted, then trimmed |
| Extract.ReplacedAtMatch | src/app/page.tsx:97-99 | replacing the first occurrence of the matched text deletes the match itself, since no earlier occurrence exists |
| Extract.FindFencedSpec | src/app/page.tsx:102 | the fenced pattern matches iff a "```json" line opener is followed by a closing "\n```", and its capture is the text strictly between the first opener and the first closer after it |
| Extract.FindBareSpanFinds | src/app/page.tsx:117-118 | the bare-object pattern matches iff some `{` is followed in order by `"conversation"`, `"code"` and `}` |
| Extract.FindBareSpanChain | src/app/page.tsx:117-118 | the span found is itself spanned by a match: `{` at its start, `}` at its end, the two keys in order between them |
| Extract.FindBareSpanCovers | src/app/page.tsx:117-118 | every possible match lies within the span found: it starts no later and ends no earlier |
| Extract.FindBareSpanLeftmost | src/app/page.tsx:117-118 | no match starts before the span found, as the leftmost-match rule of regular expressions demands |
| Extract.FindBareSpanFirstBrace | src/app/page.tsx:117-118 | the span found starts at the first `{` of the whole text |
| Extract.FindBareSpanLastBrace | src/app/page.tsx:117-118 | the span found ends at the last `}` of the whole text, as the greedy `[\s\S]*` demands |
| Extract.FindBareMatches | src/app/page.tsx:118 | `directMatch` is null iff no `{` is followed in order by the two keys and a `}` |
| Extract.FindBareText | src/app/page.tsx:118 | given a match whose `{` is the first of the text and whose `}` is the last, `directMatch[0]` is exactly the text from that `{` through that `}` |
| Extract.CodeBeforeConversationNotFound | src/app/page.tsx:117 | text in which every `"code"` precedes every `"conversation"` is never matched by the bare pattern |
| Extract.Unescape | src/app/page.tsx:106 | after replacing every backslash-`n` with a newline no backslash-`n` pair is left, and the text is shorter by exactly the number of pairs replaced |
| Extract.UnescapeIdempotent | src/app/page.tsx:123 | unescaping twice is unescaping once |
| Extract.UnescapeAcrossNewline | src/app/page.tsx:106 | a real newline is never part of a backslash-`n` pair: unescaping text around a newline unescapes each side separately |
| Extract.EscapeUnescape | src/app/page.tsx:106 | on text without real newlines unescaping loses nothing: writing each newline back as backslash-`n` restores the text |
| Extract.UnescapeIdentity | src/app/page.tsx:106 | text without a backslash-`n` pair is returned unchanged |
| Extract.UnescapeEscape | src/app/page.tsx:106 | unescaping inverts writing each newline as backslash-`n`, for text holding no such pair of its own |
| Json.FalsyValues | src/app/page.tsx:105 | the falsy JSON values are exactly `null`, `false`, `0` and `""`; every array and object is truthy |
| Json.TruthyMemberIff | src/app/page.tsx:105 | a member read on a non-null value is truthy iff the value is an object whose own member of that name is truthy |
| Normalizer.Read | src/app/page.tsx:105-106 | reading the two members accepts exactly an object with a truthy `conversation` and a non-empty string `code`, yielding them with the code unescaped; throws exactly on `null` or on a truthy non-string `code` next to a truthy `conversation`; otherwise rejects |
| Normalizer.Normalize | src/app/page.tsx:94-152 | a fallback always shows either the raw content or the cleaned content |
| Normalizer.FencedSuccess | src/app/page.tsx:102-113 | a fenced block parsing to a usable object yields its `conversation` and its unescaped `code` |
| Normalizer.FencedErrorShowsRawContent | src/app/page.tsx:103-106 | on the fenced branch a parse error, `null`, or a truthy non-string `code` next to a truthy `conversation` falls back to the raw content |
| Normalizer.FencedFalsyMemberChangesNothing | src/app/page.tsx:103-115 | on the fenced branch a parsed object with a falsy or missing member changes nothing |
| Normalizer.BareSuccess | src/app/page.tsx:115-130 | without a usable fenced block, a bare object parsing to a usable object yields its `conversation` and its unescaped `code` |
| Normalizer.BareFailureShowsCleanedContent | src/app/page.tsx:116-141 | on the bare branch no match, a parse error or an unusable value falls back to the cleaned content |
| Normalizer.UnchangedIff | src/app/page.tsx:94-152 | a reply changes nothing iff the fenced branch is taken and its block parses to a non-null value with a falsy member |
| Normalizer.StructuredComesFromCandidate | src/app/page.tsx:102-130 | a structured reply comes from the content's own candidate (the fenced capture when the fenced branch is taken, the bare match otherwise): that text parses to a usable object whose `conversation` and unescaped `code` the reply carries, and the code holds no backslash-`n` pair |
| Normalizer.PlainTextShownVerbatim | src/app/page.tsx:94-141 | a reply with no reasoning segment, no fenced block and no bare object is shown exactly as received |
| Session.Apply | src/app/page.tsx:107-112 | a reply appends at most one turn, an assistant's, keeps every earlier turn, sets both display values to the same text, and changes nothing iff it is `Unchanged` |
| Session.Process | src/app/page.tsx:94-152 | processing a reply leaves the loading flag alone, only appends assistant turns, at most one, and either changes nothing or leaves both display values equal |
| Session.ProcessStructured | src/app/page.tsx:107-112 | a structured reply shows its code in both places and logs its `conversation` value as an assistant turn |
| Session.ProcessFallback | src/app/page.tsx:136-141 | a fallback shows its text in both places and logs it as an assistant turn |
| Session.Submit | src/app/page.tsx:167-179 | a submission clears both display values, raises the loading flag, and appends the input as a user turn to the unchanged log |
| Session.SubmitFailed | src/app/page.tsx:182-187 | a failed submission appends the fixed apology as an assistant turn and changes nothing else |
| Session.Settle | src/app/page.tsx:188-191 | the delayed reset lowers the loading flag and changes nothing else |
| Trigger.Observe | src/app/page.tsx:71-92 | the effect leaves its refs alone unless the list is non-empty and grew or ends in an assistant message with new content; then it records the length and schedules the last message |
| Trigger.Elapse | src/app/page.tsx:85-89 | the timer going off clears the pending timer and hands over content iff the scheduled message is an assistant's, and then hands over that message's content |
| Trigger.ObserveRemembersAssistant | src/app/page.tsx:79 | after the effect, an assistant message ending the list is the remembered content |
| Trigger.ObserveChangesOnlyForAssistant | src/app/page.tsx:79 | the remembered content changes only to the content of an assistant message ending the list |
| Trigger.ObserveStable | src/app/page.tsx:72-76 | running the effect again on the same list does not fire and changes nothing |
| Trigger.StreamingReschedules | src/app/page.tsx:75-87 | a streamed update that changes the last assistant message's content reschedules the timer with the new content, although the list did not grow |
| Trigger.UserMessageHandsOverNothing | src/app/page.tsx:85-88 | a new user message schedules a timer that processes nothing |
| App.Step | src/app/page.tsx:71-192 | every event keeps the log as a prefix, appends at most one turn, appends only assistant turns unless it is a submission, and keeps the two display values equal when they were |
| App.RunAppendOnly | src/app/page.tsx:109-187 | over any run of events, no logged turn is altered or dropped |
| App.RunDisplayAgrees | src/app/page.tsx:107-172 | over any run of events, the code shown and the code previewed stay equal |
| App.RunFromStart | src/app/page.tsx:50-67 | from a freshly opened page, every run keeps the code shown and the code previewed equal and logs exactly one user turn per submission |
| App.RunUserTurns | src/app/page.tsx:175-179 | over any run of events, the log gains exactly one user turn per submission and no other |

## Left out

- `JSON.parse` is a parameter, not a definition: any function from text to an optional JSON value. The internals of parsing are not modelled, and neither is a number beyond whether it is zero.
- Timers are not modelled as time. The 500 ms processing delay is a pending message that a `TimerElapsed` event hands over. The 500 ms reset of the loading flag is a `Settled` event. A run may order these events in any way, including orders the page cannot produce, such as a failure without a submission; every property of a run is proved for all orders.
- The chat hook (`useChat`), the request to the model and the streaming route (src/app/api/chat/route.ts) are network I/O. A submission's failure arrives as a `SubmissionFailed` event, and the hook's message list as `MessagesChanged` events.
- The loading flag does not gate submission. The Enter key calls `handleSubmit` directly, whatever the flag, so `Submit` has no precondition on it.
- Speech synthesis (`handleReadCode`), the preview iframe, code highlighting, the clipboard, the scroll effect and all markup are rendering or browser APIs.
- Strings are sequences of characters. JavaScript strings are sequences of UTF-16 code units, and the difference is not modelled; none of the patterns or whitespace characters lies outside the Basic Multilingual Plane.
- `console.error` logging is left out.
