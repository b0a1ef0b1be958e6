# LegalBot Slack relay, modelled in Dafny

LegalBot is a small Node.js service that relays questions asked in Slack to
an LLM completion API and posts the answer back in the thread, prefixed with
a "not legal advice" disclaimer. This project models its two core pieces,
both in `index.js`:

- `extractResponseText(data)` recovers the reply text from a completion
  payload of no fixed shape. A non-blank `output_text` wins. Otherwise it
  walks the `output[*].content[*]` items and reads only their `text`,
  `value` and `content` fields. Each of those holding a non-blank string is
  collected, trimmed, in encounter order, and `text` is collected a second
  time on an item of type `"output_text"`. The fragments are joined with a
  blank line, and the result is `null` when nothing is found. A `null` or
  `undefined` entry in `output` makes the function throw a TypeError,
  because its `content` is read without optional chaining.
- The `POST /slack/events` handler echoes Slack's URL-verification
  challenge. Any other delivery gets a 200 acknowledgement first. Events from
  bots, events that are not messages, messages with a subtype and blank
  messages are then dropped. An accepted message goes to the completion API,
  and the reply (or a fixed fallback text) is posted in the thread. An
  internal-error notice is posted in place of the reply when the completion
  call or the extraction throws. It follows the reply, as a second post,
  when that first post throws or returns a `null` payload.

## How it is modelled

The project has four modules, one per file:

- `Js` (`js.dfy`) covers JSON-shaped values and the JavaScript semantics the
  code relies on:
  - truthiness;
  - `v?.key`, which never throws (`Get`);
  - `v.key`, which throws on `null`/`undefined` (`Member`);
  - `Array.isArray(v) ? v : []`;
  - a completion that either returns or throws (`Outcome`).
- `Strings` (`strings.dfy`) gives `String.prototype.trim`, over the
  ECMAScript WhiteSpace and LineTerminator characters, and
  `Array.prototype.join`.
- `Extraction` (`extraction.dfy`) has two halves:
  - a specification (`ResponseText`, built from `ItemFragments`,
    `ContentFragments` and `OutputFragments`);
  - the imperative code proved equal to it (`ExtractResponseText` with its
    two loops, `CollectFragments` and `PushContentFragments`).
- `SlackEvents` (`slack_events.dfy`) models the handler as the trace of
  effects one delivery causes:
  - the response to Slack;
  - the completion request;
  - each `chat.postMessage` call.

  It also records a flag for a rejected handler promise. The outcomes of the
  completion call and of the first post are inputs, so `Handle` is a
  function of the request body and those outcomes. `HandleSlackEvents` and
  `SendReply` are the statement-by-statement handler, proved equal to it.

Two behaviours of `extractResponseText` are kept as written:

- Every content item pushes its `text`, `value` and `content` strings
  independently of one another, so an item can contribute up to three
  fragments.
- An item of type `"output_text"` pushes its `text` a second time (lines
  33 and 38-40).

Both behaviours are proved about the model (`EveryNonBlankFieldIsCollected`,
`OutputTextItemCountsTwice`, `OutputTextItemDuplicated`).

## Model

| member | source | states |
|---|---|---|
| Js.Get | index.js:33-38 | `v?.key` is something other than `undefined` exactly when `v` is an object with a defined own field `key` |
| Strings.LeadingSpace | index.js:33-35 | the counted prefix is all whitespace, and the character after it is not |
| Strings.TrailingSpace | index.js:33-35 | the counted suffix is all whitespace, and the character before it is not |
| Strings.Trim | index.js:66 | `trim` returns a string with no whitespace at either end; it is empty exactly when the input is blank; it is the input minus its leading whitespace, and all that is cut after it is whitespace |
| Strings.TrimFixesExactlyTrimmed | index.js:44 | `trim` leaves a string unchanged if and only if neither end is whitespace |
| Strings.TrimStripsPadding | index.js:22 | whitespace padding around a core that starts and ends with non-whitespace is removed, leaving exactly that core |
| Strings.TrimIdempotent | index.js:22 | trimming twice is trimming once |
| Strings.TrimExample | index.js:66 | `"  hello  ".trim()` is `"hello"` |
| Strings.JoinEnds | index.js:44 | the joined string of non-empty parts starts with the first part's first character and ends with the last part's last character, whatever the separator |
| Strings.JoinOfTrimmedIsTrimmed | index.js:44 | non-blank trimmed parts join into a string that `trim` leaves unchanged, and that string is empty only when there are no parts |
| Extraction.ItemFragmentsAreFragments | index.js:33-40 | every fragment a content item pushes is non-empty and trimmed |
| Extraction.ContentFragments | index.js:31-41 | the fragments of a content list are all non-empty and trimmed |
| Extraction.OutputFragments | index.js:29-42 | the fragments of an output list are all non-empty and trimmed |
| Extraction.ResponseTextIsTrimmed | index.js:44-45 | a returned text is never empty and has no whitespace at either end |
| Extraction.PushIfNonBlank | index.js:33 | a push adds the trimmed string only when the value is a string whose trim is non-blank |
| Extraction.PushContentFragments | index.js:31-41 | the inner loop appends exactly the fragments of the content list, in order |
| Extraction.CollectFragments | index.js:29-42 | the outer loop throws exactly when some output item is `null` or `undefined`; otherwise it collects exactly the fragments of all outputs in order |
| Extraction.ExtractResponseText | index.js:17-46 | the function's completion (`null`, a text or a TypeError) is the one `ResponseText` specifies |
| Extraction.ContentFragmentsAppend | index.js:31-41 | the fragments of two consecutive content lists are those of the first followed by those of the second |
| Extraction.OutputFragmentsAppend | index.js:29-42 | the same for consecutive output lists: encounter order is kept |
| Extraction.FallbackJoinsFragments | index.js:44-45 | on the fallback path the result is `null` exactly when nothing was collected; otherwise it is the fragments joined with `"\n\n"`, unchanged by the final `trim` |
| Extraction.EveryNonBlankFieldIsCollected | index.js:33-35 | each of `text`, `value` and `content` holding a non-blank string is collected, whatever the other fields hold |
| Extraction.OutputTextItemCountsTwice | index.js:38-40 | an `"output_text"` item's trimmed `text` is pushed first and again last, so it occurs at least twice |
| Extraction.OutputTextItemFragments | index.js:38-40 | an item `{ type: "output_text", text }` pushes its trimmed text exactly twice and nothing else |
| Extraction.NoOutputListGivesNull | index.js:26 | a falsy payload, or one with no usable `output_text` and a non-array `output`, gives `null` |
| Extraction.OneOutputFallback | index.js:26-30 | a payload with one output item whose `content` is a list goes down the fallback path and collects exactly that list's fragments |
| Extraction.SingleFieldItem | index.js:33-35 | an item with only a non-blank `text`, `value` or `content` string contributes that string, trimmed, once |
| Extraction.FragmentsJoinedInOrder | index.js:29-45 | two items carrying texts `a` and `b` give `trim(a) + "\n\n" + trim(b)`, in that order |
| Extraction.OutputTextItemDuplicated | index.js:38-45 | a reply delivered as one `output_text` content item comes back as its text twice, separated by a blank line |
| Extraction.OutputTextWins | index.js:21-23 | a non-blank `output_text` is returned trimmed, whatever `output` holds, even a `null` item |
| Extraction.ErrorFieldIsIgnored | index.js:17-46 | the extraction never reads the payload's `error` field: a payload with it gives the same result as the payload without it |
| Extraction.NonArrayContentIsEmpty | index.js:30 | an output item whose `content` is missing or not an array contributes no fragment |
| Extraction.MissingOrMalformedOutputGivesNull | index.js:26 | `{}`, a non-array `output` and a `null` payload all give `null` |
| Extraction.NullOutputItemThrows | index.js:30 | with no usable `output_text`, a `null` entry in `output` makes the function throw a TypeError |
| SlackEvents.HandleSlackEvents | index.js:48-156 | the handler's effects, and whether its promise is rejected, are those `Handle` specifies |
| SlackEvents.SendReply | index.js:72-155 | the `try` block and its `catch` produce exactly the effects `Reply` specifies |
| SlackEvents.ChallengeIsEchoed | index.js:50-52 | a URL-verification body gets only the response echoing its `challenge`, with no ack and no outbound call |
| SlackEvents.AckPrecedesOutboundCalls | index.js:54-57 | any other body is acknowledged first, exactly once, and every later effect is an outbound call |
| SlackEvents.OnlyAckIffDropped | index.js:59-67 | the ack is the only effect, with nothing rejected, if and only if the event fails a filter or its trimmed text is empty |
| SlackEvents.RejectedIffTextNotString | index.js:66 | the promise is rejected exactly when an event passing the first filters has a truthy `text` that is not a string; then the ack is the only effect |
| SlackEvents.CompletionOnlyForAcceptedEvents | index.js:59-99 | a completion call is only ever the second effect, for a non-bot, subtype-free `message` event with non-blank string text, and it sends that text trimmed |
| SlackEvents.ReplyShape | index.js:72-155 | after the completion call: a failed call or a throwing extraction gives exactly the internal-error notice; otherwise the disclaimed reply (or fallback text) is posted, followed by the notice only when that post failed |
| SlackEvents.EveryPostIsDisclaimedAndThreaded | index.js:113-151 | every post starts with the disclaimer and goes to the event's channel, threaded under the event's `ts` |
| SlackEvents.HandleAccepted | index.js:54-72 | an accepted message is acknowledged, then replied to, and the promise is not rejected |
| SlackEvents.ReplyPipeline | index.js:56-155 | the complete trace for an accepted message in each of the three ways the `try` block can end |
| SlackEvents.NoticeReplacesReply | index.js:72-155 | when the completion call or the extraction throws, an accepted message gets the ack, the completion call and the internal-error notice, and nothing else |
| SlackEvents.ReplyPosted | index.js:109-155 | when the extraction returns, an accepted message gets the ack, the completion call and the disclaimed reply (or fallback text), then the notice only if the first post failed |
| SlackEvents.ReplyPostCount | index.js:117-151 | the reply posts once, or twice exactly when the extraction returned and the first post then failed |
| SlackEvents.AtMostTwoPosts | index.js:48-156 | a delivery causes at most two posts, and two if and only if an accepted message's completion and extraction succeeded and the first post failed |
| SlackEvents.LoggedOutcomesChangeNothing | index.js:104-133 | the completion's HTTP status, whatever the first post does, and the `ok` flag of a non-null post payload are only logged: they change no effect |
| SlackEvents.CompletionErrorChangesNothing | index.js:104-107 | an `error` field in the completion payload is only logged: the reaction is the same as for the payload without it |

## Left out

- The Express application, `body-parser`, the health-check route and `app.listen`/`PORT` (lines 1-14 and 158-162) are out of scope; the model starts from the parsed body.
- The HTTP requests themselves (URLs, headers, bearer tokens, `JSON.stringify` of the request bodies) are out of scope. The completion call is an effect that records the model name and the user text. Its outcome (throws, or returns an `ok` flag and a payload) is an input, and so is the first post's outcome.
- The system prompt (lines 85-94) is left out: it is opaque text sent along with the user's message.
- The outcome of the internal-error post is left out: it is caught and only logged, so it has no effect the model could show.
- `console.error` logging is left out: it has no effect on the trace.
- Asynchronous scheduling is left out. The trace records the order of the calls, not the interleaving of concurrent deliveries, and Slack retries are not modelled.
- Js.JsValue: numbers are mathematical reals, so NaN and the infinities (`JSON.parse("1e400")` gives `Infinity`) are absent. The code only tests numbers for truthiness, and every infinity is truthy like every non-zero real, so no behaviour depends on them.
- Js.Get: reads only an object's own fields. The property names the code reads are never inherited properties of strings, arrays or plain objects.
- Strings.IsWhitespace: characters are Unicode scalar values, not UTF-16 code units; no code unit outside the Basic Multilingual Plane is whitespace, so `trim` agrees.
- SlackEvents.PostFailed: a first-post payload that is neither an object nor nullish (a bare number, say) is treated like an object without `ok`. It is only logged, as in the code.
