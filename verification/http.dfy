/** The request and response values the routing engine works on. The transport
    parses requests; the engine only reads their fields, and responses are opaque
    values produced by routes. */
module Http {
  import opened Basics

  /** Header multimap, in arrival order. */
  type Headers = seq<(string, string)>

  /** An incoming request as seen by matchers: HTTP method, percent-encoded path,
      percent-decoded query string (`None` when the URL carries no `?`), body text
      and headers. */
  datatype Request = Request(
    httpMethod: string,
    path: string,
    query: Option<string>,
    body: string,
    headers: Headers)

  /** A mock response: status code, headers and body. */
  datatype Response = Response(code: int, headers: Headers, body: string)

  /** HTTP status of the fallback answer for a request no route resolves. */
  const NotFound: int := 404

  function NotFoundResponse(): (r: Response)
    ensures r.code == NotFound
  {
    Response(NotFound, [], "")
  }

  /** A failure collected for the end-of-test report. */
  datatype Failure =
    | Thrown(cause: string)           // an exception raised by user code (producer, listener)
    | NoMock(request: Request)        // a request that no route resolved
    | AssertionFailed(subject: string) // a deferred route assertion that did not hold
}
