/** The values the HTTP/1.1 core passes around: header fields, requests and
    responses (the `http` crate's `Request<Vec<u8>>` and `Response<Vec<u8>>`,
    reduced to what the core reads and writes). */
module Message {
  import opened Octets

  /** The range `http::StatusCode` accepts: three decimal digits. */
  type StatusCode = c: int | 100 <= c <= 999 witness 200

  /** One header field; the list of them keeps its order and its duplicates. */
  datatype Header = Header(name: Bytes, value: Bytes)

  /** A request (`verb` is its method). The protocol version is always HTTP/1.1 and is left implicit;
      `uri` is the request-target as the tokeniser reported it. */
  datatype Request = Request(verb: Bytes, uri: Bytes, headers: seq<Header>, body: Bytes)

  datatype Response = Response(status: StatusCode, headers: seq<Header>, body: Bytes)

  /** `Request::default()`: GET of `/`, no headers, empty body. */
  function DefaultRequest(): (r: Request)
    ensures r.headers == [] && r.body == []
    ensures r.verb == Ascii("GET") && r.uri == Ascii("/")
  {
    Request(Ascii("GET"), Ascii("/"), [], [])
  }

  /** `StatusCode::canonical_reason`: the reason phrases the `http` crate
      knows; every other code has none. */
  function CanonicalReason(code: StatusCode): (r: Option<string>)
    ensures r.Some? ==> |r.value| > 0
    ensures code > 511 ==> r.None?
  {
    match code
    case 100 => Some("Continue")
    case 101 => Some("Switching Protocols")
    case 102 => Some("Processing")
    case 200 => Some("OK")
    case 201 => Some("Created")
    case 202 => Some("Accepted")
    case 203 => Some("Non Authoritative Information")
    case 204 => Some("No Content")
    case 205 => Some("Reset Content")
    case 206 => Some("Partial Content")
    case 207 => Some("Multi-Status")
    case 208 => Some("Already Reported")
    case 226 => Some("IM Used")
    case 300 => Some("Multiple Choices")
    case 301 => Some("Moved Permanently")
    case 302 => Some("Found")
    case 303 => Some("See Other")
    case 304 => Some("Not Modified")
    case 305 => Some("Use Proxy")
    case 307 => Some("Temporary Redirect")
    case 308 => Some("Permanent Redirect")
    case 400 => Some("Bad Request")
    case 401 => Some("Unauthorized")
    case 402 => Some("Payment Required")
    case 403 => Some("Forbidden")
    case 404 => Some("Not Found")
    case 405 => Some("Method Not Allowed")
    case 406 => Some("Not Acceptable")
    case 407 => Some("Proxy Authentication Required")
    case 408 => Some("Request Timeout")
    case 409 => Some("Conflict")
    case 410 => Some("Gone")
    case 411 => Some("Length Required")
    case 412 => Some("Precondition Failed")
    case 413 => Some("Payload Too Large")
    case 414 => Some("URI Too Long")
    case 415 => Some("Unsupported Media Type")
    case 416 => Some("Range Not Satisfiable")
    case 417 => Some("Expectation Failed")
    case 418 => Some("I'm a teapot")
    case 421 => Some("Misdirected Request")
    case 422 => Some("Unprocessable Entity")
    case 423 => Some("Locked")
    case 424 => Some("Failed Dependency")
    case 426 => Some("Upgrade Required")
    case 428 => Some("Precondition Required")
    case 429 => Some("Too Many Requests")
    case 431 => Some("Request Header Fields Too Large")
    case 451 => Some("Unavailable For Legal Reasons")
    case 500 => Some("Internal Server Error")
    case 501 => Some("Not Implemented")
    case 502 => Some("Bad Gateway")
    case 503 => Some("Service Unavailable")
    case 504 => Some("Gateway Timeout")
    case 505 => Some("HTTP Version Not Supported")
    case 506 => Some("Variant Also Negotiates")
    case 507 => Some("Insufficient Storage")
    case 508 => Some("Loop Detected")
    case 510 => Some("Not Extended")
    case 511 => Some("Network Authentication Required")
    case _ => None
  }
}
