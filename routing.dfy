/** Request routing (`Handler::process`): a `POST` to `/command` gets the JSON
    reply, any other `POST` gets status 400, and every other method gets the
    greeting. Only the method and the path of the request-target decide. */
module Routing {
  import opened Octets
  import opened Message
  import opened Framing
  import opened Responses

  const POST: Bytes := Ascii("POST")
  const COMMAND_PATH: Bytes := Ascii("/command")
  const COMMAND_REPLY: Bytes := Ascii("hello world from server\r\n")
  /** The body of the 400 answer (`NOT_FOUND` in the server). */
  const NOT_FOUND: Bytes := Ascii("html")
  const GREETING: Bytes := Ascii("Hello mweb")

  /** The bytes of the answer to `POST /command`, line by line. */
  const COMMAND_FRAME: Bytes :=
      Ascii("HTTP/1.1 200 OK\r\n")
      + Ascii("content-type: application/json\r\n")
      + Ascii("content-length: 25\r\n")
      + Ascii("\r\n")
      + Ascii("hello world from server\r\n")

  const QUESTION: byte := 63
  const HASH: byte := 35

  /** `Uri::path` of an origin-form request-target: everything before the
      query (`?`) or the fragment (`#`). */
  function UriPath(uri: Bytes): (p: Bytes)
    ensures |p| <= |uri| && uri[..|p|] == p
    ensures forall i :: 0 <= i < |p| ==> p[i] != QUESTION && p[i] != HASH
    ensures |p| < |uri| ==> uri[|p|] == QUESTION || uri[|p|] == HASH
    decreases |uri|
  {
    if uri == [] || uri[0] == QUESTION || uri[0] == HASH then []
    else [uri[0]] + UriPath(uri[1..])
  }

  /** `Handler::process`. */
  function Process(req: Request): (r: Response)
    ensures req.verb == POST && UriPath(req.uri) == COMMAND_PATH ==> r == Json(COMMAND_REPLY)
    ensures req.verb == POST && UriPath(req.uri) != COMMAND_PATH ==> r == Response(400, [], NOT_FOUND)
    ensures req.verb != POST ==> r == Response(200, [], GREETING)
  {
    if req.verb == POST then
      if UriPath(req.uri) == COMMAND_PATH then Json(COMMAND_REPLY)
      else Response(400, [], NOT_FOUND)
    else Response(200, [], GREETING)
  }

  // ---------------------------------------------------------------------
  // Properties

  /** The path is the whole target when it holds no `?` and no `#`, and a
      query or a fragment after a path does not change it. */
  lemma {:induction false} UriPathOf(path: Bytes, suffix: Bytes)
    requires forall i :: 0 <= i < |path| ==> path[i] != QUESTION && path[i] != HASH
    requires suffix == [] || suffix[0] == QUESTION || suffix[0] == HASH
    ensures UriPath(path + suffix) == path
    decreases |path|
  {
    if path != [] {
      assert (path + suffix)[1..] == path[1..] + suffix;
      UriPathOf(path[1..], suffix);
    }
  }

  /** The routing decision reads only the method and the path: requests that
      agree on both get the same response, whatever their headers, query
      and body. */
  lemma ProcessReadsMethodAndPath(a: Request, b: Request)
    requires a.verb == b.verb && UriPath(a.uri) == UriPath(b.uri)
    ensures Process(a) == Process(b)
  {
  }

  /** Every response the handler produces reads back from its frame unchanged. */
  lemma ProcessRoundTrip(req: Request)
    ensures Unframe(Frame(Process(req))) == Some(Process(req))
  {
    if req.verb == POST && UriPath(req.uri) == COMMAND_PATH {
      ConstructorsRoundTrip(COMMAND_REPLY);
    } else {
      FrameRoundTrip(Process(req));
    }
  }

  lemma BadRequestStatusLine()
    ensures StatusLine(400) == Ascii("HTTP/1.1 400 Bad Request\r\n")
  {
    StatusDigits(400);
    assert Decimal(400) == Ascii("400");
    KnownStatusLine(400, "400", "Bad Request");
  }

  lemma ContentTypeLine()
    ensures HeaderLine(Header(CONTENT_TYPE, JSON_TYPE)) == Ascii("content-type: application/json\r\n")
  {
    AsciiAppend("content-type", ": ");
    AsciiAppend("content-type: ", "application/json");
    AsciiAppend("content-type: application/json", "\r\n");
    assert "content-type" + ": " + "application/json" + "\r\n" == "content-type: application/json\r\n";
    assert Ascii("\r\n") == CRLF;
  }

  lemma ContentLengthLine()
    ensures HeaderLine(Header(RequestParser.CONTENT_LENGTH, Decimal(25))) == Ascii("content-length: 25\r\n")
  {
    assert Decimal(25) == Ascii("25");
    AsciiAppend("content-length", ": ");
    AsciiAppend("content-length: ", "25");
    AsciiAppend("content-length: 25", "\r\n");
    assert "content-length" + ": " + "25" + "\r\n" == "content-length: 25\r\n";
    assert Ascii("\r\n") == CRLF;
  }

  lemma CommandReplyFrame()
    ensures Frame(Json(COMMAND_REPLY)) == COMMAND_FRAME
  {
    var hs := Json(COMMAND_REPLY).headers;
    assert HeaderLines(hs) == HeaderLine(hs[0]) + HeaderLine(hs[1]) by {
      assert HeaderLines(hs[1..]) == HeaderLine(hs[1]) + HeaderLines([]);
    }
    OkStatusLine();
    ContentTypeLine();
    ContentLengthLine();
    assert Ascii("\r\n") == CRLF;
  }

  /** A `POST` to `/command` is answered with exactly these bytes, line by line. */
  lemma CommandFrame(req: Request)
    requires req.verb == POST && UriPath(req.uri) == COMMAND_PATH
    ensures Frame(Process(req)) == COMMAND_FRAME
  {
    CommandReplyFrame();
  }

  lemma BadRequestReplyFrame()
    ensures Frame(Response(400, [], NOT_FOUND)) == Ascii("HTTP/1.1 400 Bad Request\r\n\r\nhtml")
  {
    BadRequestStatusLine();
    AsciiAppend("HTTP/1.1 400 Bad Request\r\n", "\r\n");
    AsciiAppend("HTTP/1.1 400 Bad Request\r\n\r\n", "html");
    assert Ascii("\r\n") == CRLF;
  }

  /** A `POST` to any other path is answered with exactly these bytes. */
  lemma BadRequestFrame(req: Request)
    requires req.verb == POST && UriPath(req.uri) != COMMAND_PATH
    ensures Frame(Process(req)) == Ascii("HTTP/1.1 400 Bad Request\r\n\r\nhtml")
  {
    BadRequestReplyFrame();
  }

  lemma GreetingReplyFrame()
    ensures Frame(Response(200, [], GREETING)) == Ascii("HTTP/1.1 200 OK\r\n\r\nHello mweb")
  {
    OkStatusLine();
    AsciiAppend("HTTP/1.1 200 OK\r\n", "\r\n");
    AsciiAppend("HTTP/1.1 200 OK\r\n\r\n", "Hello mweb");
    assert Ascii("\r\n") == CRLF;
  }

  /** Any other method is answered with exactly these bytes. */
  lemma GreetingFrame(req: Request)
    requires req.verb != POST
    ensures Frame(Process(req)) == Ascii("HTTP/1.1 200 OK\r\n\r\nHello mweb")
  {
    GreetingReplyFrame();
  }
}
