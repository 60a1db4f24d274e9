/** What a route handler sends back: a status code and a JSON body. */
module Http {
  import opened Json

  /** The issued bearer token. Its only claim is the user identifier; the
      signing secret and the one-day expiry are not modelled. */
  datatype Token = Token(userId: string)

  datatype Body =
    | ErrorBody(error: string)                 // { error }
    | MessageBody(message: string)             // { message }
    | ItemBody(item: Object)                   // one record
    | ItemsBody(items: seq<Object>)            // a list of records
    | SessionBody(token: Token, userId: string)          // { token, userId }
    | SavedBody(success: bool, settings: Object)         // { success, settings }
    | ChatBody(reply: string, userMessage: Value)        // { reply, userMessage }

  datatype Response = Response(status: int, body: Body)

  function Error(status: int, message: string): Response {
    Response(status, ErrorBody(message))
  }
}
