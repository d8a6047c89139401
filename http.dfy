/**
  The parts of an Express request and response that the WAF middleware reads
  or produces, and the partial entry it hands to `logRequest`.
 */
module Http {

  datatype Option<T> = None | Some(value: T)

  /** An incoming request: `req.ip`, the `x-forwarded-for` and `user-agent`
      headers (None when the header was not sent), `req.method` (named
      httpMethod, since `method` is a Dafny keyword) and `req.originalUrl`. */
  datatype Request = Request(
    ip: string,
    forwardedFor: Option<string>,
    userAgent: Option<string>,
    httpMethod: string,
    originalUrl: string)

  /** What a middleware does with a request: answer it with a status code and
      a JSON `message`, or hand it on with `next()` and send nothing. */
  datatype Decision = Respond(status: nat, message: string) | Next

  /** The entry a middleware passes to `logRequest`; a field the caller leaves
      out or sets to `null` is None. The clock timestamp is not modelled. */
  datatype LogRecord = LogRecord(
    ip: string,
    httpMethod: string,
    url: string,
    userAgent: string,
    blockType: string,
    blockReason: string,
    remainingRequests: Option<int>,
    windowMs: Option<int>)

  const FORBIDDEN: nat := 403

  const ACCESS_DENIED_PREFIX: string := "Access denied: "

  /** The body of a 403 answer: `Access denied: ${reason}`. The reason can be
      read back from the message, so two reasons never give one message. */
  function AccessDenied(reason: string): (message: string)
    ensures |message| == |ACCESS_DENIED_PREFIX| + |reason|
    ensures message[..|ACCESS_DENIED_PREFIX|] == ACCESS_DENIED_PREFIX
    ensures message[|ACCESS_DENIED_PREFIX|..] == reason
  {
    ACCESS_DENIED_PREFIX + reason
  }

  /** `req.headers["user-agent"] || "unknown"`: an absent or empty header is
      logged as "unknown". */
  function UserAgentOf(req: Request): (ua: string)
    ensures ua != ""
    ensures req.userAgent.Some? && req.userAgent.value != "" ==> ua == req.userAgent.value
    ensures req.userAgent == Some(ua) || ua == "unknown"
  {
    match req.userAgent
    case Some(h) => if h != "" then h else "unknown"
    case None => "unknown"
  }
}
