/** What the servlet container hands to the index servlet: the outcome of
    looking up and reading the deployed `index.html`, the init parameters from
    the deployment descriptor, and the response a request is answered with. */
module Servlet {
  import opened Java

  /** The result of `getServletContext()`. `error` is always the text of the
      thrown exception (its `toString()`). */
  datatype ContextLookup =
    | ContextIsNull
    | ContextThrew(error: string)
    | ContextFound(resource: ResourceLookup)

  /** The result of `getResourceAsStream("/index.html")` on the context. */
  datatype ResourceLookup =
    | OpenThrew(error: string)
    | NotDeployed
    | Opened(read: ReadOutcome)

  /** The result of `readAllBytes()` on the opened resource. */
  datatype ReadOutcome =
    | ReadThrew(error: string)
    | ReadAll(content: seq<byte>, close: CloseOutcome)

  /** Closing the two streams after a complete read (the buffered stream, then
      the resource stream). Only the first exception is reported; a later one
      is suppressed into it. */
  datatype CloseOutcome = Closed | CloseThrew(error: string)

  /** The servlet's init parameters: `getInitParameterNames()` in the order the
      container enumerates them, and the values `getInitParameter` looks up. */
  datatype InitParameters = InitParameters(names: seq<string>, values: map<string, string>) {
    /** `getInitParameter(name)`: `null` for a name without a value. */
    function Get(name: string): (v: Option<string>)
    {
      if name in values then Some(values[name]) else None
    }
  }

  /** The parts of an `HttpServletResponse` the servlet sets. `headers` is what
      `setHeader` has set (a later call for the same name replaces the value);
      `body` is what has been written to the output stream. */
  datatype Response = Response(
    contentType: Option<string>,
    characterEncoding: Option<string>,
    headers: map<string, string>,
    status: int,
    contentLength: Option<int>,
    body: seq<byte>)

  /** A response before the servlet has touched it. */
  const FreshResponse := Response(None, None, map[], 200, None, [])
}
