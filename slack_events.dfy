/** The `POST /slack/events` handler as a trace of the effects one delivery
    causes: the HTTP response to Slack, the completion request and the
    `chat.postMessage` calls. The outcomes of the outbound calls are inputs,
    so the trace is a function of the request body and those outcomes. */
module SlackEvents {
  import opened Js
  import opened Strings
  import opened Extraction

  /** The line every posted message starts with, blank line included. */
  const Disclaimer: string := "\U{26A0}\U{FE0F} Not legal advice. Consult compliance before acting.\n\n"
  /** The reply body when extraction finds no text. */
  const NoResponseText: string := "I couldn't generate a response. Please escalate to Compliance/Legal."
  /** The body of the notification posted after a failure in the reply pipeline. */
  const InternalErrorText: string :=
    "LegalBot hit an internal error generating a response. Please try again or escalate to Compliance/Legal."
  /** The model named in every completion request. */
  const CompletionModel: string := "gpt-4.1-mini"

  datatype Effect =
    | RespondChallenge(challenge: JsValue)                           // res.status(200).send({ challenge })
    | Ack200                                                         // res.sendStatus(200)
    | CallCompletion(model: string, userText: string)                // POST /v1/responses
    | PostMessage(channel: JsValue, text: string, threadTs: JsValue) // POST chat.postMessage

  /** How the completion call ends: `fetch` or `aiResp.json()` throws, or a
      payload arrives together with the HTTP status's `ok` flag. */
  datatype CompletionOutcome = CompletionThrows | CompletionReturns(httpOk: bool, payload: JsValue)

  /** How the first `chat.postMessage` call ends: `fetch` or `.json()`
      throws, or a payload arrives. */
  datatype PostOutcome = PostThrows | PostReturns(payload: JsValue)

  /** The effects of one delivery, and whether the handler's promise was
      rejected by an exception raised outside its `try` block. */
  datatype Reaction = Reaction(effects: seq<Effect>, rejected: bool)

  predicate IsUrlVerification(body: JsValue) {
    Get(body, "type") == Str("url_verification")
  }

  /** The first filter: no event, a bot's message, not a message, or a
      message with a subtype (an edit, a join, ...). */
  predicate Ignored(event: JsValue) {
    || !Truthy(event)
    || Truthy(Get(event, "bot_id"))
    || Get(event, "type") != Str("message")
    || Truthy(Get(event, "subtype"))
  }

  /** `(event.text || "").trim()`: a truthy `text` that is not a string has
      no `trim` method, so the call throws a TypeError. */
  function UserMessage(event: JsValue): Outcome<string> {
    var text := if Truthy(Get(event, "text")) then Get(event, "text") else Str("");
    if text.Str? then Return(Trim(text.s)) else Throw
  }

  /** Every filter of the handler: the event is dropped after the ack. */
  predicate Dropped(event: JsValue) {
    Ignored(event) || UserMessage(event) == Return([])
  }

  /** The event passes every filter: its trimmed text goes to the completion API. */
  predicate Accepted(event: JsValue) {
    !Ignored(event) && UserMessage(event).Return? && UserMessage(event).value != []
  }

  /** `extractResponseText(data) || "I couldn't generate a response. ..."` */
  function OrFallback(extracted: Option<string>): string {
    if extracted.Some? && extracted.value != [] then extracted.value else NoResponseText
  }

  /** Reading `slackData.ok` throws when the post's payload is `null`. */
  predicate PostFailed(firstPost: PostOutcome) {
    firstPost.PostThrows? || IsNullish(firstPost.payload)
  }

  /** The posts of the `try` block after the completion call, and whether it threw. */
  function TryReply(channel: JsValue, threadTs: JsValue, completion: CompletionOutcome,
                    firstPost: PostOutcome): (seq<Effect>, bool)
  {
    match completion
    case CompletionThrows => ([], true)
    case CompletionReturns(_, data) =>
      match ResponseText(data)
      case Throw => ([], true)
      case Return(extracted) =>
        ([PostMessage(channel, Disclaimer + OrFallback(extracted), threadTs)], PostFailed(firstPost))
  }

  /** The post of the `catch` block. */
  function InternalErrorPost(event: JsValue): Effect {
    PostMessage(Get(event, "channel"), Disclaimer + InternalErrorText, Get(event, "ts"))
  }

  /** The effects after the ack for an accepted message: the completion
      call, the posts of the `try` block and, if it threw, the `catch`
      block's notification. */
  function Reply(event: JsValue, message: string, completion: CompletionOutcome,
                 firstPost: PostOutcome): seq<Effect>
  {
    var (posts, threw) := TryReply(Get(event, "channel"), Get(event, "ts"), completion, firstPost);
    [CallCompletion(CompletionModel, message)] + posts + (if threw then [InternalErrorPost(event)] else [])
  }

  /** The reaction of the handler to one delivery. */
  function Handle(body: JsValue, completion: CompletionOutcome, firstPost: PostOutcome): Reaction {
    if IsUrlVerification(body) then Reaction([RespondChallenge(Get(body, "challenge"))], false)
    else
      var event := Get(body, "event");
      if Ignored(event) then Reaction([Ack200], false)
      else
        match UserMessage(event)
        case Throw => Reaction([Ack200], true)
        case Return(message) =>
          if message == [] then Reaction([Ack200], false)
          else Reaction([Ack200] + Reply(event, message, completion, firstPost), false)
  }

  /** The handler, statement by statement: early returns, then the reply. */
  method HandleSlackEvents(body: JsValue, completion: CompletionOutcome, firstPost: PostOutcome)
    returns (effects: seq<Effect>, rejected: bool)
    ensures Reaction(effects, rejected) == Handle(body, completion, firstPost)
  {
    rejected := false;
    if Get(body, "type") == Str("url_verification") {
      effects := [RespondChallenge(Get(body, "challenge"))];
      return;
    }
    var event := Get(body, "event");
    effects := [Ack200];
    if !Truthy(event) || Truthy(Get(event, "bot_id")) {
      return;
    }
    if Get(event, "type") != Str("message") {
      return;
    }
    if Truthy(Get(event, "subtype")) {
      return;
    }
    var text := if Truthy(Get(event, "text")) then Get(event, "text") else Str("");
    if !text.Str? {
      // `.trim` is not a function, outside the `try`: the promise is rejected.
      rejected := true;
      return;
    }
    var userMessage := Trim(text.s);
    if userMessage == [] {
      return;
    }
    assert UserMessage(event) == Return(userMessage);
    var reply := SendReply(event, userMessage, completion, firstPost);
    effects := effects + reply;
  }

  /** The `try` block and its `catch`: the awaited calls, each of which may
      throw, and the notification posted when one did. */
  method SendReply(event: JsValue, userMessage: string, completion: CompletionOutcome, firstPost: PostOutcome)
    returns (effects: seq<Effect>)
    ensures effects == Reply(event, userMessage, completion, firstPost)
  {
    var channel := Get(event, "channel");
    var threadTs := Get(event, "ts");
    var threw := false;
    effects := [CallCompletion(CompletionModel, userMessage)];
    if completion.CompletionThrows? {
      threw := true;
    } else {
      var data := completion.payload;
      // `!aiResp.ok || data?.error` is only logged.
      var extracted := ExtractResponseText(data);
      if extracted.Throw? {
        threw := true;
      } else {
        var finalText := Disclaimer + OrFallback(extracted.value);
        effects := effects + [PostMessage(channel, finalText, threadTs)];
        // `slackData.ok` throws on a null payload; `!slackData.ok` is only logged.
        threw := PostFailed(firstPost);
      }
    }
    // catch: one notification, whose own failure is caught and logged
    if threw {
      effects := effects + [PostMessage(channel, Disclaimer + InternalErrorText, threadTs)];
    }
  }

  /** The number of `chat.postMessage` calls in a trace. */
  function PostCount(effects: seq<Effect>): nat {
    if effects == [] then 0
    else PostCount(effects[..|effects| - 1]) + (if effects[|effects| - 1].PostMessage? then 1 else 0)
  }

  /** The URL-verification handshake: the only effect is the response
      echoing `challenge`, whatever else the body or the outcomes hold. */
  lemma ChallengeIsEchoed(body: JsValue, completion: CompletionOutcome, firstPost: PostOutcome)
    requires IsUrlVerification(body)
    ensures Handle(body, completion, firstPost) == Reaction([RespondChallenge(Get(body, "challenge"))], false)
  {
  }

  /** Any other body is acknowledged first, exactly once, and every later
      effect is an outbound call. */
  lemma AckPrecedesOutboundCalls(body: JsValue, completion: CompletionOutcome, firstPost: PostOutcome)
    requires !IsUrlVerification(body)
    ensures var effects := Handle(body, completion, firstPost).effects;
      |effects| >= 1 && effects[0] == Ack200
      && forall k :: 1 <= k < |effects| ==> effects[k].CallCompletion? || effects[k].PostMessage?
  {
  }

  /** The filters: the ack is the only effect, and nothing is rejected,
      exactly when the event is dropped. */
  lemma OnlyAckIffDropped(body: JsValue, completion: CompletionOutcome, firstPost: PostOutcome)
    requires !IsUrlVerification(body)
    ensures Handle(body, completion, firstPost) == Reaction([Ack200], false) <==> Dropped(Get(body, "event"))
  {
  }

  /** The promise is rejected exactly when an event that passes the first
      filter has a truthy `text` that is not a string. */
  lemma RejectedIffTextNotString(body: JsValue, completion: CompletionOutcome, firstPost: PostOutcome)
    ensures Handle(body, completion, firstPost).rejected <==>
              !IsUrlVerification(body) && !Ignored(Get(body, "event"))
              && Truthy(Get(Get(body, "event"), "text")) && !Get(Get(body, "event"), "text").Str?
    ensures Handle(body, completion, firstPost).rejected ==> Handle(body, completion, firstPost).effects == [Ack200]
  {
  }

  /** No event from a bot, of another type or with a subtype, and no blank
      message, reaches the completion API; what is sent is the trimmed text. */
  lemma CompletionOnlyForAcceptedEvents(body: JsValue, completion: CompletionOutcome, firstPost: PostOutcome,
                                        k: nat)
    requires k < |Handle(body, completion, firstPost).effects|
    requires Handle(body, completion, firstPost).effects[k].CallCompletion?
    ensures var event := Get(body, "event");
      && k == 1
      && !IsUrlVerification(body)
      && !Truthy(Get(event, "bot_id")) && Get(event, "type") == Str("message") && !Truthy(Get(event, "subtype"))
      && Get(event, "text").Str?
      && Handle(body, completion, firstPost).effects[k]
         == CallCompletion(CompletionModel, Trim(Get(event, "text").s))
      && !IsBlank(Get(event, "text").s)
  {
  }

  /** The reply's calls for each way the `try` block can end. */
  lemma ReplyShape(event: JsValue, message: string, completion: CompletionOutcome, firstPost: PostOutcome)
    ensures var effects := Reply(event, message, completion, firstPost);
      var call := CallCompletion(CompletionModel, message);
      var internal := PostMessage(Get(event, "channel"), Disclaimer + InternalErrorText, Get(event, "ts"));
      && (completion.CompletionThrows? ==> effects == [call, internal])
      && (completion.CompletionReturns? && ResponseText(completion.payload).Throw? ==>
            effects == [call, internal])
      && (completion.CompletionReturns? && ResponseText(completion.payload).Return? ==>
            var extracted := ResponseText(completion.payload).value;
            var reply := PostMessage(Get(event, "channel"),
                                     Disclaimer + OrFallback(extracted),
                                     Get(event, "ts"));
            effects == [call, reply] + (if PostFailed(firstPost) then [internal] else []))
  {
  }

  /** Every post carries the disclaimer and goes to the event's channel,
      threaded under the event's timestamp. */
  lemma EveryPostIsDisclaimedAndThreaded(body: JsValue, completion: CompletionOutcome, firstPost: PostOutcome,
                                         k: nat)
    requires k < |Handle(body, completion, firstPost).effects|
    requires Handle(body, completion, firstPost).effects[k].PostMessage?
    ensures var post := Handle(body, completion, firstPost).effects[k];
      && Disclaimer <= post.text
      && post.channel == Get(Get(body, "event"), "channel")
      && post.threadTs == Get(Get(body, "event"), "ts")
  {
    var event := Get(body, "event");
    if !IsUrlVerification(body) && Accepted(event) {
      ReplyShape(event, UserMessage(event).value, completion, firstPost);
    }
  }

  /** An accepted message is acknowledged, then replied to. */
  lemma HandleAccepted(body: JsValue, completion: CompletionOutcome, firstPost: PostOutcome)
    requires !IsUrlVerification(body) && Accepted(Get(body, "event"))
    ensures var event := Get(body, "event");
      Handle(body, completion, firstPost)
      == Reaction([Ack200] + Reply(event, UserMessage(event).value, completion, firstPost), false)
  {
  }

  /** The reply pipeline for an accepted message: the completion call, then
      the reply (the extracted text, or the fallback when there is none),
      then the internal-error notice only if something in the `try` threw;
      a failed completion call posts the notice and nothing else. */
  lemma ReplyPipeline(body: JsValue, completion: CompletionOutcome, firstPost: PostOutcome)
    requires !IsUrlVerification(body) && Accepted(Get(body, "event"))
    ensures var event := Get(body, "event");
      var effects := Handle(body, completion, firstPost).effects;
      var call := CallCompletion(CompletionModel, UserMessage(event).value);
      var internal := PostMessage(Get(event, "channel"), Disclaimer + InternalErrorText, Get(event, "ts"));
      && (completion.CompletionThrows? ==> effects == [Ack200, call, internal])
      && (completion.CompletionReturns? && ResponseText(completion.payload).Throw? ==>
            effects == [Ack200, call, internal])
      && (completion.CompletionReturns? && ResponseText(completion.payload).Return? ==>
            var extracted := ResponseText(completion.payload).value;
            var reply := PostMessage(Get(event, "channel"),
                                     Disclaimer + OrFallback(extracted),
                                     Get(event, "ts"));
            effects == [Ack200, call, reply] + (if PostFailed(firstPost) then [internal] else []))
  {
    if completion.CompletionThrows? || ResponseText(completion.payload).Throw? {
      NoticeReplacesReply(body, completion, firstPost);
    } else {
      ReplyPosted(body, completion, firstPost);
    }
  }

  /** The case of `ReplyPipeline` where the completion call or the extraction throws. */
  lemma NoticeReplacesReply(body: JsValue, completion: CompletionOutcome, firstPost: PostOutcome)
    requires !IsUrlVerification(body) && Accepted(Get(body, "event"))
    requires completion.CompletionThrows? || ResponseText(completion.payload).Throw?
    ensures var event := Get(body, "event");
      Handle(body, completion, firstPost).effects
      == [Ack200, CallCompletion(CompletionModel, UserMessage(event).value), InternalErrorPost(event)]
  {
    var event := Get(body, "event");
    var message := UserMessage(event).value;
    HandleAccepted(body, completion, firstPost);
    ReplyShape(event, message, completion, firstPost);
    AckThenNotice(Reply(event, message, completion, firstPost), CallCompletion(CompletionModel, message),
                  InternalErrorPost(event));
  }

  lemma AckThenNotice(reply: seq<Effect>, call: Effect, notice: Effect)
    requires reply == [call, notice]
    ensures [Ack200] + reply == [Ack200, call, notice]
  {
  }

  /** The case of `ReplyPipeline` where the extraction returns. */
  lemma ReplyPosted(body: JsValue, completion: CompletionOutcome, firstPost: PostOutcome)
    requires !IsUrlVerification(body) && Accepted(Get(body, "event"))
    requires completion.CompletionReturns? && ResponseText(completion.payload).Return?
    ensures var event := Get(body, "event");
      var post := PostMessage(Get(event, "channel"), Disclaimer + OrFallback(ResponseText(completion.payload).value),
                              Get(event, "ts"));
      Handle(body, completion, firstPost).effects
      == [Ack200, CallCompletion(CompletionModel, UserMessage(event).value), post]
         + (if PostFailed(firstPost) then [InternalErrorPost(event)] else [])
  {
    var event := Get(body, "event");
    var message := UserMessage(event).value;
    var call := CallCompletion(CompletionModel, message);
    var post := PostMessage(Get(event, "channel"), Disclaimer + OrFallback(ResponseText(completion.payload).value),
                            Get(event, "ts"));
    var notice := if PostFailed(firstPost) then [InternalErrorPost(event)] else [];
    HandleAccepted(body, completion, firstPost);
    ReplyShape(event, message, completion, firstPost);
    AckThenReply(Reply(event, message, completion, firstPost), call, post, notice);
  }

  lemma AckThenReply(reply: seq<Effect>, call: Effect, post: Effect, notice: seq<Effect>)
    requires reply == [call, post] + notice
    ensures [Ack200] + reply == [Ack200, call, post] + notice
  {
    AppendAssoc([Ack200], [call, post], notice);
    assert [Ack200] + [call, post] == [Ack200, call, post];
  }

  lemma {:induction false} NoPostsCountZero(effects: seq<Effect>)
    requires forall k :: 0 <= k < |effects| ==> !effects[k].PostMessage?
    ensures PostCount(effects) == 0
  {
    if effects != [] {
      NoPostsCountZero(effects[..|effects| - 1]);
    }
  }

  /** Calls that are not posts followed by posts count as that many posts. */
  lemma {:induction false} PostCountOfCallsThenPosts(calls: seq<Effect>, posts: seq<Effect>)
    requires forall k :: 0 <= k < |calls| ==> !calls[k].PostMessage?
    requires forall k :: 0 <= k < |posts| ==> posts[k].PostMessage?
    ensures PostCount(calls + posts) == |posts|
  {
    if posts == [] {
      assert calls + posts == calls;
      NoPostsCountZero(calls);
    } else {
      var init := posts[..|posts| - 1];
      assert (calls + posts)[..|calls + posts| - 1] == calls + init;
      PostCountOfCallsThenPosts(calls, init);
    }
  }

  lemma {:induction false} PostCountAppend(a: seq<Effect>, b: seq<Effect>)
    ensures PostCount(a + b) == PostCount(a) + PostCount(b)
  {
    if b != [] {
      var b' := b[..|b| - 1];
      assert (a + b)[..|a + b| - 1] == a + b';
      PostCountAppend(a, b');
    } else {
      assert a + b == a;
    }
  }

  /** The reply posts once, or twice when the extraction returned and the
      first post then failed. */
  lemma ReplyPostCount(event: JsValue, message: string, completion: CompletionOutcome, firstPost: PostOutcome)
    ensures PostCount(Reply(event, message, completion, firstPost))
            == if completion.CompletionReturns? && ResponseText(completion.payload).Return? && PostFailed(firstPost)
               then 2 else 1
  {
    var effects := Reply(event, message, completion, firstPost);
    ReplyShape(event, message, completion, firstPost);
    assert effects == [effects[0]] + effects[1..];
    PostCountOfCallsThenPosts([effects[0]], effects[1..]);
  }

  /** At most two posts; two only when the completion call and the
      extraction returned and the first post then failed. */
  lemma AtMostTwoPosts(body: JsValue, completion: CompletionOutcome, firstPost: PostOutcome)
    ensures PostCount(Handle(body, completion, firstPost).effects) <= 2
    ensures PostCount(Handle(body, completion, firstPost).effects) == 2 <==>
              && !IsUrlVerification(body) && Accepted(Get(body, "event"))
              && completion.CompletionReturns? && ResponseText(completion.payload).Return?
              && PostFailed(firstPost)
  {
    var event := Get(body, "event");
    if IsUrlVerification(body) || !Accepted(event) {
      NoPostsCountZero(Handle(body, completion, firstPost).effects);
    } else {
      var message := UserMessage(event).value;
      HandleAccepted(body, completion, firstPost);
      ReplyPostCount(event, message, completion, firstPost);
      PostCountAppend([Ack200], Reply(event, message, completion, firstPost));
      assert PostCount([Ack200]) == 0 by {
        NoPostsCountZero([Ack200]);
      }
    }
  }

  /** Outcomes that the handler only logs change no effect: the completion
      response's HTTP status, whatever the first post does, and whether a
      non-null first-post payload says `ok`. */
  lemma LoggedOutcomesChangeNothing(body: JsValue, data: JsValue, completion: CompletionOutcome,
                                    firstPost: PostOutcome, slack1: JsValue, slack2: JsValue)
    ensures Handle(body, CompletionReturns(true, data), firstPost)
            == Handle(body, CompletionReturns(false, data), firstPost)
    ensures !IsNullish(slack1) && !IsNullish(slack2) ==>
              Handle(body, completion, PostReturns(slack1)) == Handle(body, completion, PostReturns(slack2))
  {
  }

  /** An `error` field in the completion payload is only logged: a payload
      with it reacts like the same payload without it. */
  lemma CompletionErrorChangesNothing(body: JsValue, ok: bool, fields: map<string, JsValue>, e: JsValue,
                                      firstPost: PostOutcome)
    ensures Handle(body, CompletionReturns(ok, Obj(fields["error" := e])), firstPost)
            == Handle(body, CompletionReturns(ok, Obj(fields - {"error"})), firstPost)
  {
    ErrorFieldIsIgnored(fields, e);
  }
}
