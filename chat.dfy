/** The chat route (server/routes/chat.js): it checks the request, chooses
    the message to send to the book's persona, and answers with the reply
    and the message it used. The language-model call is an input: the
    route hands it a `GeneratorCall` and gets back a reply, or `None` when
    the call throws. */
module ChatRoute {
  import opened Common
  import opened Json
  import opened Http

  /** One turn of the conversation history the client sends, in the
      generator's format `{ role, parts: [{ text }] }`. */
  datatype HistoryEntry = HistoryEntry(role: string, parts: seq<Value>)

  /** The request body of POST /chat. */
  datatype ChatRequest = ChatRequest(
    title: Option<Value>,
    author: Option<Value>,
    userMessage: Option<Value>,
    history: Option<seq<HistoryEntry>>,
    isInit: Option<Value>)

  /** The arguments `chatWithBook(title, author, message, history)` receives. */
  datatype GeneratorCall = GeneratorCall(title: Value, author: Value, message: Value, history: Option<seq<HistoryEntry>>)

  /** The fixed opening prompt of a new conversation. */
  const IntroPrompt: string :=
    "Hello! Please introduce yourself using your persona. be brief, and then suggest a conversation path by asking me a question about my experience reading you."

  /** `!title || !author || (!userMessage && !isInit)` is the refusal test. */
  predicate Acceptable(req: ChatRequest) {
    Truthy(req.title) && Truthy(req.author) && (Truthy(req.userMessage) || Truthy(req.isInit))
  }

  /** `isInit ? IntroPrompt : userMessage`. */
  function Message(req: ChatRequest): (m: Value)
    requires Acceptable(req)
    ensures Truthy(req.isInit) ==> m == Str(IntroPrompt)
    ensures !Truthy(req.isInit) ==> Some(m) == req.userMessage
  {
    if Truthy(req.isInit) then Str(IntroPrompt) else req.userMessage.value
  }

  /** The route: the response, and the generator call it made (`None` when
      it made none). `generate` answers a call with the reply, or `None`
      when the call throws. */
  function Chat(req: ChatRequest, generate: GeneratorCall -> Option<string>): (r: (Response, Option<GeneratorCall>))
    ensures !Acceptable(req) <==> r.1.None?
    ensures !Acceptable(req) ==> r.0 == Error(400, "Missing required fields: title, author, userMessage")
    ensures Acceptable(req) ==>
              && r.1 == Some(GeneratorCall(req.title.value, req.author.value, Message(req), req.history))
              && (generate(r.1.value).Some? ==> r.0 == Response(200, ChatBody(generate(r.1.value).value, Message(req))))
              && (generate(r.1.value).None? ==> r.0 == Error(500, "Failed to process chat message"))
  {
    if !Acceptable(req) then
      (Error(400, "Missing required fields: title, author, userMessage"), None)
    else
      var call := GeneratorCall(req.title.value, req.author.value, Message(req), req.history);
      match generate(call)
      case None => (Error(500, "Failed to process chat message"), Some(call))
      case Some(reply) => (Response(200, ChatBody(reply, call.message)), Some(call))
  }

  /** An opening request ignores whatever user message it carries: two
      opening requests for the same book and history make the same call and
      get the same answer. */
  lemma InitIgnoresUserMessage(req: ChatRequest, m: Option<Value>, generate: GeneratorCall -> Option<string>)
    requires Truthy(req.isInit)
    ensures Chat(req, generate) == Chat(req.(userMessage := m), generate)
  {
  }

  /** A successful answer echoes the message actually sent to the generator,
      which is the user's message verbatim unless the request is an
      opening one. */
  lemma ReplyEchoesMessage(req: ChatRequest, generate: GeneratorCall -> Option<string>)
    requires Chat(req, generate).0.status == 200
    ensures Acceptable(req)
    ensures Chat(req, generate).0.body.userMessage == Chat(req, generate).1.value.message
    ensures !Truthy(req.isInit) ==> Some(Chat(req, generate).0.body.userMessage) == req.userMessage
  {
  }
}
