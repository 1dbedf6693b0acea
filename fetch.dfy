/** What one `fetch(url)` followed by `response.json()` can come to. The program does not
    perform requests in this model: every caller receives the answers as an input. */
module Fetch {
  import Json

  /** The outcome of `response.json()`: a value, or the message of the SyntaxError it threw. */
  datatype Body = Parsed(value: Json.Json) | Unparsable(message: string)

  /** The outcome of `fetch`: a rejected promise with its error message, or a response with
      its `ok` flag, `status` code and body. */
  datatype Attempt =
    | TransportFailure(message: string)
    | Response(ok: bool, status: nat, body: Body)
}
