/** What a handler can send back, and how it reads its request: the terminal
    responses of the update server's routes and the truthiness of a query
    parameter. */
module Http {

  import Utf8

  /** The `error` code of a JSON error body. */
  datatype ErrorCode = VersionInvalid | InvalidPlatform

  datatype Response =
    | Found(location: string)                                  // 302, Location header
    | UpdateAvailable(name: string, notes: string, pubDate: string, url: string)
                                                               // 200, JSON body
    | OctetStream(body: seq<Utf8.byte>, contentLength: nat)    // 200, application/octet-stream
    | NoContent                                                // 204, empty body
    | BadRequest                                               // 400, empty body
    | NotFound(message: string)                                // 404, text body
    | PlainServerError(message: string)                        // 500, text body
    | JsonServerError(error: ErrorCode, message: string)       // 500, JSON body
    | UncaughtError                                            // 500 from the serving layer: the handler threw

  /** The value of one query parameter as the query-string parser hands it
      over: absent, a single string (empty for `?update=` or `?update`), or an
      array when the parameter is repeated. */
  datatype QueryValue = Missing | One(text: string) | Many(texts: seq<string>)

  /** JavaScript truthiness of that value: `undefined` and `""` are falsy,
      a non-empty string is truthy, and an array is truthy whatever it holds. */
  predicate IsTruthy(q: QueryValue) {
    match q
    case Missing => false
    case One(t) => t != ""
    case Many(_) => true
  }
}
