/** The response constructors of `ResponseExt` (`e100`, `e404`, `json`,
    `html`): each fixes a status and the header fields. */
module Responses {
  import opened Octets
  import opened Message
  import opened Framing
  import RequestParser

  const CONTENT_TYPE: Bytes := Ascii("content-type")
  const JSON_TYPE: Bytes := Ascii("application/json")
  const HTML_TYPE: Bytes := Ascii("text/html; charset=utf-8")

  /** `e100`: status 100, no header fields. */
  function E100(e: Bytes): (r: Response)
    ensures r.status == 100 && r.headers == [] && r.body == e
  {
    Response(100, [], e)
  }

  /** `e404`: status 404, no header fields. */
  function E404(e: Bytes): (r: Response)
    ensures r.status == 404 && r.headers == [] && r.body == e
  {
    Response(404, [], e)
  }

  /** Status 200 with the content type and the content's length in bytes. */
  function Typed(contentType: Bytes, content: Bytes): Response {
    Response(200, [Header(CONTENT_TYPE, contentType),
                   Header(RequestParser.CONTENT_LENGTH, Decimal(|content|))], content)
  }

  /** `json`: status 200, `content-type: application/json`, then
      `content-length` with the body's length; the body is `content`. */
  function Json(content: Bytes): (r: Response)
    ensures r.status == 200 && r.body == content && |r.headers| == 2
    ensures r.headers[0] == Header(CONTENT_TYPE, JSON_TYPE)
    ensures r.headers[1] == Header(RequestParser.CONTENT_LENGTH, Decimal(|content|))
  {
    Typed(JSON_TYPE, content)
  }

  /** `html`: as `json`, with `content-type: text/html; charset=utf-8`. */
  function Html(content: Bytes): (r: Response)
    ensures r.status == 200 && r.body == content && |r.headers| == 2
    ensures r.headers[0] == Header(CONTENT_TYPE, HTML_TYPE)
    ensures r.headers[1] == Header(RequestParser.CONTENT_LENGTH, Decimal(|content|))
  {
    Typed(HTML_TYPE, content)
  }

  // ---------------------------------------------------------------------
  // Properties

  /** The status line of a code with a canonical reason, as one literal. */
  lemma KnownStatusLine(code: StatusCode, digits: string, reason: string)
    requires Decimal(code) == Ascii(digits) && CanonicalReason(code) == Some(reason)
    ensures StatusLine(code) == Ascii("HTTP/1.1 " + digits + " " + reason + "\r\n")
  {
    AsciiAppend("HTTP/1.1 ", digits);
    AsciiAppend("HTTP/1.1 " + digits, " ");
    AsciiAppend("HTTP/1.1 " + digits + " ", reason);
    AsciiAppend("HTTP/1.1 " + digits + " " + reason, "\r\n");
    assert Ascii(" ") == [SP];
    assert Ascii("\r\n") == CRLF;
  }

  lemma ContinueStatusLine()
    ensures StatusLine(100) == Ascii("HTTP/1.1 100 Continue\r\n")
  {
    StatusDigits(100);
    assert Decimal(100) == Ascii("100");
    KnownStatusLine(100, "100", "Continue");
  }

  lemma OkStatusLine()
    ensures StatusLine(200) == Ascii("HTTP/1.1 200 OK\r\n")
  {
    StatusDigits(200);
    assert Decimal(200) == Ascii("200");
    KnownStatusLine(200, "200", "OK");
  }

  /** A code the `http` crate has no reason phrase for is framed with the
      placeholder reason. */
  lemma PlaceholderStatusLine(code: StatusCode)
    requires CanonicalReason(code).None?
    ensures StatusLine(code) == Ascii("HTTP/1.1 ") + Decimal(code) + Ascii(" Unsupported Status\r\n")
  {
    AsciiAppend(" ", PLACEHOLDER_REASON);
    AsciiAppend(" " + PLACEHOLDER_REASON, "\r\n");
    assert " " + PLACEHOLDER_REASON + "\r\n" == " Unsupported Status\r\n";
    assert Ascii(" ") == [SP] && Ascii("\r\n") == CRLF;
  }

  /** The interim response of the continuation handshake is exactly the
      status line `HTTP/1.1 100 Continue` and the blank line. */
  lemma ContinueFrame()
    ensures Frame(E100([])) == Ascii("HTTP/1.1 100 Continue\r\n\r\n")
  {
    ContinueStatusLine();
    assert Ascii("HTTP/1.1 100 Continue\r\n\r\n") == Ascii("HTTP/1.1 100 Continue\r\n") + CRLF;
  }

  lemma ContentLengthHeaderOf(contentType: Bytes, content: Bytes)
    requires |content| <= USIZE_MAX
    ensures var hs := Typed(contentType, content).headers;
      && RequestParser.DecodesAsUtf8(hs, RequestParser.CONTENT_LENGTH)
      && RequestParser.ContentLength(hs) == Some(|content|)
  {
    var hs := Typed(contentType, content).headers;
    assert !RequestParser.NameIs(hs[0], RequestParser.CONTENT_LENGTH) by {
      assert |AsciiLower(CONTENT_TYPE)| != |RequestParser.CONTENT_LENGTH|;
    }
    assert RequestParser.NameIs(hs[1], RequestParser.CONTENT_LENGTH);
    RequestParser.ContentLengthOfFirst(hs, 1, [], 0, |content|);
    assert [] + Zeros(0) + Decimal(|content|) == Decimal(|content|);
  }

  /** The `content-length` that `json` and `html` declare is the one a reader
      of their header fields finds: the body's exact length in bytes. */
  lemma DeclaredLength(content: Bytes)
    requires |content| <= USIZE_MAX
    ensures RequestParser.DecodesAsUtf8(Json(content).headers, RequestParser.CONTENT_LENGTH)
    ensures RequestParser.ContentLength(Json(content).headers) == Some(|content|)
    ensures RequestParser.DecodesAsUtf8(Html(content).headers, RequestParser.CONTENT_LENGTH)
    ensures RequestParser.ContentLength(Html(content).headers) == Some(|content|)
  {
    ContentLengthHeaderOf(JSON_TYPE, content);
    ContentLengthHeaderOf(HTML_TYPE, content);
  }

  lemma TypedWellFormed(contentType: Bytes, content: Bytes)
    requires forall i :: 0 <= i < |contentType| ==> contentType[i] != CR && contentType[i] != LF
    ensures WellFormedResponse(Typed(contentType, content))
  {
    LowerHyphenatedToken("content-type");
    LowerHyphenatedToken("content-length");
    DecimalDigits(|content|);
    var r := Typed(contentType, content);
    assert WellFormedHeader(r.headers[0]);
    assert WellFormedHeader(r.headers[1]);
  }

  /** What `json` and `html` build reads back from its frame unchanged. */
  lemma ConstructorsRoundTrip(content: Bytes)
    ensures Unframe(Frame(Json(content))) == Some(Json(content))
    ensures Unframe(Frame(Html(content))) == Some(Html(content))
  {
    assert forall i :: 0 <= i < |JSON_TYPE| ==> JSON_TYPE[i] != CR && JSON_TYPE[i] != LF;
    assert forall i :: 0 <= i < |HTML_TYPE| ==> HTML_TYPE[i] != CR && HTML_TYPE[i] != LF;
    TypedWellFormed(JSON_TYPE, content);
    TypedWellFormed(HTML_TYPE, content);
    FrameRoundTrip(Json(content));
    FrameRoundTrip(Html(content));
  }
}
