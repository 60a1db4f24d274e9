/** The client's request helper (client/src/api/index.js): the default
    headers, the merge with the caller's options, the rule that signs the
    user out, and the way a response becomes a result or an error. `fetch`
    is a parameter: it maps the URL and the configuration to a response.
    A response carries its raw text and, separately, the result of parsing
    that text as JSON (`None` when it does not parse). */
module Api {
  import opened Common
  import opened Json
  import Uri

  /** The server's base URL when no environment override is set. */
  const ApiUrl: string := "http://localhost:5001"

  type Headers = map<string, string>

  /** What a caller passes to `request`: an optional token and the options
      handed on to `fetch`. */
  datatype RequestOptions = RequestOptions(
    token: Option<Value>,
    httpMethod: Option<string>,
    body: Option<string>,
    headers: Option<Headers>)

  /** What `fetch` receives: the caller's options without the token, and the
      merged headers. */
  datatype Config = Config(httpMethod: Option<string>, body: Option<string>, headers: Headers)

  /** A parsed JSON body: an object, or an array of objects such as the
      list of books GET /api/books answers with. */
  datatype Document =
    | ObjectDoc(fields: Object)
    | ArrayDoc(elements: seq<Object>)

  datatype FetchResponse = FetchResponse(
    status: int,
    statusText: string,
    contentType: Option<string>,
    text: string,
    json: Option<Document>)

  /** How `request` settles: the parsed JSON, the text, an `Error` with a
      message, or an exception the runtime raises itself (a `TypeError` or
      a JSON `SyntaxError`). */
  datatype Outcome =
    | Parsed(doc: Document)
    | Text(text: string)
    | Failed(message: string)
    | RuntimeError

  /** The headers `getHeaders(token)` returns. */
  function DefaultHeaders(token: Option<Value>): (h: Headers)
    ensures "Content-Type" in h && h["Content-Type"] == "application/json"
    ensures "Authorization" in h <==> Truthy(token)
    ensures "Authorization" in h ==> h["Authorization"] == "Bearer " + ToText(token)
    ensures h.Keys <= {"Content-Type", "Authorization"}
  {
    var base := map["Content-Type" := "application/json"];
    if Truthy(token) then base["Authorization" := "Bearer " + ToText(token)] else base
  }

  /** `getHeaders`: starts from the content type and adds the bearer token
      when it is truthy. */
  method GetHeaders(token: Option<Value>) returns (headers: Headers)
    ensures headers == DefaultHeaders(token)
  {
    headers := map["Content-Type" := "application/json"];
    if Truthy(token) {
      headers := headers["Authorization" := "Bearer " + ToText(token)];
    }
  }

  /** `{ ...defaults, ...caller }`: every key of either, the caller's value
      where both have one. Spreading `undefined` adds nothing. */
  function MergeHeaders(defaults: Headers, caller: Option<Headers>): (h: Headers)
    ensures caller.None? ==> h == defaults
    ensures caller.Some? ==> h.Keys == defaults.Keys + caller.value.Keys
    ensures caller.Some? ==> forall k :: k in caller.value ==> h[k] == caller.value[k]
    ensures caller.Some? ==> forall k :: k in defaults && k !in caller.value ==> h[k] == defaults[k]
  {
    if caller.None? then defaults else defaults + caller.value
  }

  /** The configuration `request` hands to `fetch`. */
  function Configure(options: RequestOptions): Config {
    Config(options.httpMethod, options.body, MergeHeaders(DefaultHeaders(options.token), options.headers))
  }

  /** The caller's headers override the defaults key by key: the content
      type is the caller's if given, else JSON; the authorization is the
      caller's if given, else the bearer token exactly when the token is
      truthy; any other caller header is passed through. The token itself
      never reaches `fetch` except through that header. */
  lemma ConfiguredHeaders(options: RequestOptions)
    ensures var c := Configure(options);
            var given := if options.headers.Some? then options.headers.value else map[];
            && c.httpMethod == options.httpMethod && c.body == options.body
            && c.headers["Content-Type"] == (if "Content-Type" in given then given["Content-Type"] else "application/json")
            && ("Authorization" in c.headers <==> "Authorization" in given || Truthy(options.token))
            && ("Authorization" in given ==> c.headers["Authorization"] == given["Authorization"])
            && ("Authorization" !in given && Truthy(options.token) ==>
                  c.headers["Authorization"] == "Bearer " + ToText(options.token))
            && (forall k :: k in given ==> k in c.headers && c.headers[k] == given[k])
            && c.headers.Keys == given.Keys + DefaultHeaders(options.token).Keys
  {
  }

  /** `response.ok` */
  predicate Ok(status: int) {
    200 <= status <= 299
  }

  /** The body of a failed response as the helper reads it: the parsed
      object, or `{}` when it does not parse. An array has no `error` or
      `message` property, so it reads as `{}` too. */
  function ErrorData(resp: FetchResponse): Object {
    if resp.json.Some? && resp.json.value.ObjectDoc? then resp.json.value.fields else map[]
  }

  /** `data.error || data.message || ''` */
  function ErrorMessage(resp: FetchResponse): (v: Value)
    ensures Truthy(Field(ErrorData(resp), "error")) ==> v == ErrorData(resp)["error"]
    ensures !Truthy(Field(ErrorData(resp), "error")) && Truthy(Field(ErrorData(resp), "message")) ==>
              v == ErrorData(resp)["message"]
    ensures !Truthy(Field(ErrorData(resp), "error")) && !Truthy(Field(ErrorData(resp), "message")) ==> v == Str("")
  {
    Or(Field(ErrorData(resp), "error"), Or(Field(ErrorData(resp), "message"), Str("")))
  }

  /** `errorMsg.toLowerCase().includes('token')`; a number or a boolean has
      no `toLowerCase`, which is decided separately. */
  predicate MentionsToken(v: Value) {
    Includes(Lower(ToText(Some(v))), "token")
  }

  /** The message of the thrown `Error`:
      `errorData.error || errorData.message || "Request failed: " + statusText`. */
  function FailureMessage(resp: FetchResponse): string {
    ToText(Some(Or(Field(ErrorData(resp), "error"), Or(Field(ErrorData(resp), "message"), Str("Request failed: " + resp.statusText)))))
  }

  /** How `request` settles for a response, and whether it dispatched
      'auth:unauthorized'. */
  function Settle(resp: FetchResponse): (r: (Outcome, bool))
    ensures r.1 <==> resp.status == 401 ||
                     (resp.status == 400 && !ErrorMessage(resp).Num? && !ErrorMessage(resp).Bool? && MentionsToken(ErrorMessage(resp)))
    ensures !Ok(resp.status) && resp.status == 400 && (ErrorMessage(resp).Num? || ErrorMessage(resp).Bool?) ==>
              r.0 == RuntimeError
    ensures !Ok(resp.status) && !(resp.status == 400 && (ErrorMessage(resp).Num? || ErrorMessage(resp).Bool?)) ==>
              r.0 == Failed(FailureMessage(resp))
    ensures Ok(resp.status) && resp.contentType.Some? && Includes(resp.contentType.value, "application/json") ==>
              r.0 == if resp.json.Some? then Parsed(resp.json.value) else RuntimeError
    ensures Ok(resp.status) && !(resp.contentType.Some? && Includes(resp.contentType.value, "application/json")) ==>
              r.0 == Text(resp.text)
  {
    if !Ok(resp.status) then
      var msg := ErrorMessage(resp);
      if resp.status == 400 && (msg.Num? || msg.Bool?) then
        (RuntimeError, false)
      else
        var signOut := resp.status == 401 || (resp.status == 400 && MentionsToken(msg));
        (Failed(FailureMessage(resp)), signOut)
    else if resp.contentType.Some? && Includes(resp.contentType.value, "application/json") then
      (if resp.json.Some? then Parsed(resp.json.value) else RuntimeError, false)
    else
      (Text(resp.text), false)
  }

  /** `request(endpoint, options)`: the call made to `fetch`, how the
      request settles, and whether it signed the user out. */
  method Request(endpoint: string, options: RequestOptions, fetch: (string, Config) -> FetchResponse)
    returns (url: string, config: Config, outcome: Outcome, signedOut: bool)
    ensures url == ApiUrl + endpoint && config == Configure(options)
    ensures (outcome, signedOut) == Settle(fetch(url, config))
  {
    var headers := GetHeaders(options.token);
    config := Config(options.httpMethod, options.body, MergeHeaders(headers, options.headers));
    url := ApiUrl + endpoint;
    var response := fetch(url, config);
    outcome, signedOut := Settle(response).0, Settle(response).1;
  }

  /** A 400 whose error is a non-empty message without the letter k cannot
      mention a token: it surfaces as that message and keeps the session.
      Every 400 refusal the server routes send is such a message ("Invalid
      credentials", "User already exists", "Title and Author are required",
      ...), so a failed log-in or a rejected form never signs the user out. */
  lemma {:induction false} NoTokenKeepsSession(resp: FetchResponse, message: string)
    requires message != "" && 'k' !in message && 'K' !in message
    requires resp.status == 400 && resp.json == Some(ObjectDoc(map["error" := Str(message)]))
    ensures Settle(resp) == (Failed(message), false)
  {
    assert ErrorMessage(resp) == Str(message);
    assert 'k' !in Lower(message);
    IncludesNeedsChar(Lower(message), "token", 'k');
  }

  /** A 400 whose error mentions the token in any letter case signs the
      user out, and so does every 401. */
  lemma {:induction false} TokenErrorsSignOut(resp: FetchResponse, message: string, at: nat)
    requires at + 5 <= |message| && Lower(message[at..at + 5]) == "token"
    requires resp.status == 401 || (resp.status == 400 && resp.json == Some(ObjectDoc(map["error" := Str(message)])))
    ensures Settle(resp).1 && Settle(resp).0 == Failed(FailureMessage(resp))
  {
    if resp.status == 400 {
      assert ErrorMessage(resp) == Str(message);
      assert Lower(message)[at..at + 5] == Lower(message[at..at + 5]);
      assert OccursAt(Lower(message), "token", at);
      IncludesAt(Lower(message), "token");
    }
  }

  // ---------------------------------------------------------------------------
  // Paths
  // ---------------------------------------------------------------------------

  /** The path of one book: `/api/books/${encodeURIComponent(id)}`. */
  function BookPath(id: string): string {
    "/api/books/" + Uri.Encode(id)
  }

  /** The path of a book's excerpt: `/api/excerpt/${encodeURIComponent(id)}`. */
  function ExcerptPath(id: string): string {
    "/api/excerpt/" + Uri.Encode(id)
  }

  /** An id becomes exactly one path segment: what follows the route prefix
      contains no '/', '?' or '#', and decoding it, as the server does with
      the route parameter, gives back the id. Distinct ids give distinct
      paths. */
  lemma BookPathSegment(id: string, other: string)
    ensures var p := BookPath(id);
            && StartsWith(p, "/api/books/")
            && (forall i :: |"/api/books/"| <= i < |p| ==> p[i] != '/' && p[i] != '?' && p[i] != '#')
            && Uri.Decode(p[|"/api/books/"|..]) == Some(id)
    ensures BookPath(id) == BookPath(other) ==> id == other
  {
    SegmentAfter("/api/books/", id, other);
  }

  /** The same for the excerpt path. */
  lemma ExcerptPathSegment(id: string, other: string)
    ensures var p := ExcerptPath(id);
            && StartsWith(p, "/api/excerpt/")
            && (forall i :: |"/api/excerpt/"| <= i < |p| ==> p[i] != '/' && p[i] != '?' && p[i] != '#')
            && Uri.Decode(p[|"/api/excerpt/"|..]) == Some(id)
    ensures ExcerptPath(id) == ExcerptPath(other) ==> id == other
  {
    SegmentAfter("/api/excerpt/", id, other);
  }

  /** An encoded id after any prefix is one segment that decodes to the id. */
  lemma SegmentAfter(prefix: string, id: string, other: string)
    ensures var p := prefix + Uri.Encode(id);
            && StartsWith(p, prefix)
            && (forall i :: |prefix| <= i < |p| ==> p[i] != '/' && p[i] != '?' && p[i] != '#')
            && Uri.Decode(p[|prefix|..]) == Some(id)
    ensures prefix + Uri.Encode(id) == prefix + Uri.Encode(other) ==> id == other
  {
    var p := prefix + Uri.Encode(id);
    Uri.EncodeSafe(id);
    assert p[|prefix|..] == Uri.Encode(id);
    forall i | |prefix| <= i < |p| ensures p[i] != '/' && p[i] != '?' && p[i] != '#' {
      assert p[i] == Uri.Encode(id)[i - |prefix|];
    }
    Uri.DecodeEncode(id);
    if prefix + Uri.Encode(id) == prefix + Uri.Encode(other) {
      assert (prefix + Uri.Encode(other))[|prefix|..] == Uri.Encode(other);
      Uri.EncodeInjective(id, other);
    }
  }
}
