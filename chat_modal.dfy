/** The chat window of one book (client/src/components/ChatModal/ChatModal.jsx).
    The transcript is a sequence of messages kept in the browser's storage
    under "chat_history_" + the book's EntityId. On mount a stored transcript
    is restored; otherwise the persona is asked, once, to open the
    conversation. Each send appends the user's message and then exactly one
    model message.

    The requests await the server, so opening and sending are each split in
    two: `Mount` and `Send` return the request body they post, and
    `CompleteOpening` and `CompleteSend` take the body of an ok response
    (`None` when the request failed). */
module ChatModal {
  import opened Common
  import opened Json
  import opened Http
  import ChatRoute

  /** One transcript entry; `hidden` marks the opening prompt, which is sent
      as history but never shown. */
  datatype Message = Message(role: string, text: Value, hidden: bool)

  /** Which request the window is waiting for. */
  datatype Awaiting = Idle | Opening | Replying

  const ErrorReply: string := "I'm having trouble connecting right now. Please try again."

  /** The key of a book's transcript. */
  function StorageKey(book: Object): string {
    "chat_history_" + ToText(Field(book, "EntityId"))
  }

  /** The greeting shown when the opening request fails. */
  function Greeting(book: Object): string {
    "Hello, I am " + ToText(Field(book, "Title")) + ". Ask me anything!"
  }

  /** `!input.trim()` */
  predicate Blank(input: string) {
    Trim(input) == ""
  }

  function IsShown(m: Message): bool {
    !m.hidden
  }

  /** The messages on display: `messages.filter(m => !m.hidden)`. */
  function Visible(messages: seq<Message>): (shown: seq<Message>)
    ensures IsSubsequence(shown, messages)
    ensures forall m :: m in shown <==> m in messages && !m.hidden
  {
    FilterIsSubsequence(messages, IsShown);
    FilterMembers(messages, IsShown);
    Filter(messages, IsShown)
  }

  /** One message in the generator's format `{ role, parts: [{ text }] }`. */
  function Entry(m: Message): ChatRoute.HistoryEntry {
    ChatRoute.HistoryEntry(m.role, [m.text])
  }

  /** The history sent with a message: every earlier message, hidden ones
      included, in order and in the generator's format. */
  function History(messages: seq<Message>): (h: seq<ChatRoute.HistoryEntry>)
    ensures |h| == |messages|
    ensures forall i :: 0 <= i < |h| ==> h[i].role == messages[i].role && h[i].parts == [messages[i].text]
  {
    if messages == [] then [] else [Entry(messages[0])] + History(messages[1..])
  }

  /** The body of the opening request. */
  function OpeningRequest(book: Object): (req: ChatRoute.ChatRequest)
    ensures ChatRoute.Acceptable(req) <==> Truthy(Field(book, "Title")) && Truthy(Field(book, "Author"))
    ensures ChatRoute.Acceptable(req) ==> ChatRoute.Message(req) == Str(ChatRoute.IntroPrompt)
  {
    ChatRoute.ChatRequest(Field(book, "Title"), Field(book, "Author"), None, None, Some(Bool(true)))
  }

  /** The body of a send: the message typed and the history before it. */
  function SendRequest(book: Object, text: string, before: seq<Message>): (req: ChatRoute.ChatRequest)
    ensures text != "" ==>
              (ChatRoute.Acceptable(req) <==> Truthy(Field(book, "Title")) && Truthy(Field(book, "Author")))
    ensures ChatRoute.Acceptable(req) ==> ChatRoute.Message(req) == Str(text)
    ensures req.history == Some(History(before))
  {
    ChatRoute.ChatRequest(Field(book, "Title"), Field(book, "Author"), Some(Str(text)), Some(History(before)), None)
  }

  /** What the client receives from the chat route: the body of a 200
      answer; any other status rejects. */
  function Delivered(resp: Response): Option<Body> {
    if resp.status == 200 then Some(resp.body) else None
  }

  class ChatModal {
    const book: Object
    const key: string
    var messages: seq<Message>
    var input: string
    var loading: bool
    /** The `initialized` ref. */
    var initialized: bool
    var awaiting: Awaiting
    /** The browser's storage, as far as transcripts go. */
    var storage: map<string, seq<Message>>

    /** Loading shows exactly while a request is awaited; the key is the
        book's. */
    ghost predicate Valid()
      reads this
    {
      && key == StorageKey(book)
      && (loading <==> !awaiting.Idle?)
    }

    constructor(book: Object, storage: map<string, seq<Message>>)
      ensures Valid() && this.book == book && this.storage == storage
      ensures messages == [] && input == "" && !loading && !initialized && awaiting.Idle?
    {
      this.book := book;
      this.key := StorageKey(book);
      this.messages := [];
      this.input := "";
      this.loading := false;
      this.initialized := false;
      this.awaiting := Idle;
      this.storage := storage;
    }

    /** `setMessages` followed by the save effect: a non-empty transcript is
        written under the key, an empty one is not. */
    method SetMessages(ms: seq<Message>)
      modifies this
      ensures messages == ms
      ensures storage == if ms != [] then old(storage)[key := ms] else old(storage)
      ensures input == old(input) && loading == old(loading) && initialized == old(initialized) && awaiting == old(awaiting)
    {
      messages := ms;
      if |ms| > 0 {
        storage := storage[key := ms];
      }
    }

    /** The text box's `onChange`: the input becomes what was typed and
        nothing else changes. */
    method Type(text: string)
      modifies this
      ensures input == text
      ensures messages == old(messages) && storage == old(storage) && loading == old(loading)
      ensures initialized == old(initialized) && awaiting == old(awaiting)
    {
      input := text;
    }

    /** The mount effect: a stored transcript is restored; otherwise, the
        first time only, the opening request is sent. */
    method Mount() returns (request: Option<ChatRoute.ChatRequest>)
      requires Valid() && awaiting.Idle?
      modifies this
      ensures Valid() && input == old(input)
      ensures key in old(storage) ==>
                && request.None? && messages == old(storage)[key] && storage == old(storage)
                && initialized == old(initialized) && awaiting.Idle?
      ensures key !in old(storage) && old(initialized) ==> request.None? && unchanged(this)
      ensures key !in old(storage) && !old(initialized) ==>
                && request == Some(OpeningRequest(book))
                && initialized && awaiting == Opening && messages == old(messages) && storage == old(storage)
    {
      request := None;
      if key in storage {
        SetMessages(storage[key]);
      } else if !initialized {
        initialized := true;
        loading := true;
        awaiting := Opening;
        request := Some(OpeningRequest(book));
      }
    }

    /** The end of `initChat`: on success the transcript becomes the hidden
        prompt the server used and the persona's reply; on failure a single
        greeting. */
    method CompleteOpening(data: Option<Body>)
      requires Valid() && awaiting == Opening && (data.Some? ==> data.value.ChatBody?)
      modifies this
      ensures Valid() && !loading && awaiting.Idle? && input == old(input) && initialized == old(initialized)
      ensures data.Some? ==>
                messages == [Message("user", data.value.userMessage, true), Message("model", Str(data.value.reply), false)]
      ensures data.None? ==> messages == [Message("model", Str(Greeting(book)), false)]
      ensures storage == old(storage)[key := messages]
    {
      if data.Some? {
        SetMessages([Message("user", data.value.userMessage, true), Message("model", Str(data.value.reply), false)]);
      } else {
        SetMessages([Message("model", Str(Greeting(book)), false)]);
      }
      loading := false;
      awaiting := Idle;
    }

    /** `handleSend`: nothing happens while the input is blank or a reply is
        loading. Otherwise the user's message is appended, the input cleared,
        and the message is posted with the transcript before it as history. */
    method Send() returns (request: Option<ChatRoute.ChatRequest>)
      requires Valid()
      modifies this
      ensures Valid() && initialized == old(initialized)
      ensures Blank(old(input)) || old(loading) ==> request.None? && unchanged(this)
      ensures !Blank(old(input)) && !old(loading) ==>
                && messages == old(messages) + [Message("user", Str(old(input)), false)]
                && storage == old(storage)[key := messages]
                && input == "" && awaiting == Replying
                && request == Some(SendRequest(book, old(input), old(messages)))
    {
      request := None;
      if Blank(input) || loading {
        return;
      }
      var text := input;
      var before := messages;
      SetMessages(messages + [Message("user", Str(text), false)]);
      input := "";
      loading := true;
      awaiting := Replying;
      request := Some(SendRequest(book, text, before));
    }

    /** The end of `handleSend`: exactly one model message is appended, the
        reply or the fixed apology. */
    method CompleteSend(data: Option<Body>)
      requires Valid() && awaiting == Replying && (data.Some? ==> data.value.ChatBody?)
      modifies this
      ensures Valid() && !loading && awaiting.Idle? && input == old(input) && initialized == old(initialized)
      ensures messages == old(messages) + [Message("model", Str(if data.Some? then data.value.reply else ErrorReply), false)]
      ensures storage == old(storage)[key := messages]
    {
      var text := if data.Some? then data.value.reply else ErrorReply;
      SetMessages(messages + [Message("model", Str(text), false)]);
      loading := false;
      awaiting := Idle;
    }
  }

  /** A transcript whose first message alone is hidden shows all the
      others. */
  lemma HiddenPromptOnly(ms: seq<Message>)
    requires |ms| >= 1 && ms[0].hidden
    requires forall i :: 1 <= i < |ms| ==> !ms[i].hidden
    ensures Visible(ms) == ms[1..]
  {
    assert ms == [ms[0]] + ms[1..];
    FilterAppend([ms[0]], ms[1..], IsShown);
    FilterAll(ms[1..], IsShown);
  }

  /** Opening a window with nothing stored, against the chat route: the
      transcript becomes the hidden introduction prompt and the persona's
      greeting, of which only the greeting shows, and it is stored. */
  method OpenFresh(modal: ChatModal, generate: ChatRoute.GeneratorCall -> Option<string>) returns (greeting: string)
    requires modal.Valid() && modal.awaiting.Idle? && !modal.initialized && modal.key !in modal.storage
    requires Truthy(Field(modal.book, "Title")) && Truthy(Field(modal.book, "Author"))
    requires generate(ChatRoute.GeneratorCall(modal.book["Title"], modal.book["Author"], Str(ChatRoute.IntroPrompt), None)).Some?
    modifies modal
    ensures modal.Valid() && modal.awaiting.Idle? && modal.initialized && modal.input == old(modal.input)
    ensures greeting == generate(ChatRoute.GeneratorCall(modal.book["Title"], modal.book["Author"], Str(ChatRoute.IntroPrompt), None)).value
    ensures modal.messages == [Message("user", Str(ChatRoute.IntroPrompt), true), Message("model", Str(greeting), false)]
    ensures Visible(modal.messages) == modal.messages[1..]
    ensures modal.key in modal.storage && modal.storage[modal.key] == modal.messages
  {
    var first := modal.Mount();
    var (answer, call) := ChatRoute.Chat(first.value, generate);
    greeting := generate(call.value).value;
    modal.CompleteOpening(Delivered(answer));
    HiddenPromptOnly(modal.messages);
  }

  /** A message typed and sent after that opening carries the hidden prompt
      and the greeting as history, and the transcript ends with the message and the
      reply, all but the prompt on display. */
  method SendAfterOpening(modal: ChatModal, greeting: string, text: string, generate: ChatRoute.GeneratorCall -> Option<string>)
    returns (reply: string)
    requires modal.Valid() && modal.awaiting.Idle? && !Blank(text)
    requires modal.messages == [Message("user", Str(ChatRoute.IntroPrompt), true), Message("model", Str(greeting), false)]
    requires Truthy(Field(modal.book, "Title")) && Truthy(Field(modal.book, "Author"))
    requires generate(ChatRoute.GeneratorCall(modal.book["Title"], modal.book["Author"], Str(text),
                                              Some([ChatRoute.HistoryEntry("user", [Str(ChatRoute.IntroPrompt)]),
                                                    ChatRoute.HistoryEntry("model", [Str(greeting)])]))).Some?
    modifies modal
    ensures reply == generate(ChatRoute.GeneratorCall(modal.book["Title"], modal.book["Author"], Str(text),
                                                      Some([ChatRoute.HistoryEntry("user", [Str(ChatRoute.IntroPrompt)]),
                                                            ChatRoute.HistoryEntry("model", [Str(greeting)])]))).value
    ensures modal.messages == old(modal.messages) + [Message("user", Str(text), false), Message("model", Str(reply), false)]
    ensures Visible(modal.messages) == modal.messages[1..]
    ensures modal.key in modal.storage && modal.storage[modal.key] == modal.messages
  {
    modal.Type(text);
    var before := modal.messages;
    var history := [ChatRoute.HistoryEntry("user", [Str(ChatRoute.IntroPrompt)]), ChatRoute.HistoryEntry("model", [Str(greeting)])];
    assert History(before) == history;
    var second := modal.Send();
    var request := second.value;
    assert request == SendRequest(modal.book, text, before);
    assert ChatRoute.Acceptable(request) && ChatRoute.Message(request) == Str(text);
    var (answer, call) := ChatRoute.Chat(request, generate);
    assert call == Some(ChatRoute.GeneratorCall(modal.book["Title"], modal.book["Author"], Str(text), Some(history)));
    reply := generate(call.value).value;
    modal.CompleteSend(Delivered(answer));
    HiddenPromptOnly(modal.messages);
  }
}
