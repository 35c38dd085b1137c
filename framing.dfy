/** Response framing (`header_flat` and `Flat::flat`): the wire bytes of a
    response, laid out as section 3 of RFC 7230 lays out an HTTP/1.1 message
    (status line, header fields, blank line, body), and a reference reader
    that recovers the response from those bytes. */
module Framing {
  import opened Octets
  import opened Message

  /** The reason written for a status code that has no canonical one. */
  const PLACEHOLDER_REASON: string := "Unsupported Status"

  function ReasonPhrase(code: StatusCode): Bytes {
    Ascii(CanonicalReason(code).GetOr(PLACEHOLDER_REASON))
  }

  /** `HTTP/1.1 <code> <reason>\r\n`, the code in its three digits. */
  function StatusLineWith(code: StatusCode, reason: Bytes): Bytes {
    Ascii("HTTP/1.1 ") + Decimal(code) + [SP] + reason + CRLF
  }

  /** The status line `header_flat` writes: the canonical reason phrase, or
      the placeholder when the code has none. */
  function StatusLine(code: StatusCode): Bytes {
    StatusLineWith(code, ReasonPhrase(code))
  }

  /** `<name>: <value>\r\n`. */
  function HeaderLine(h: Header): Bytes {
    h.name + Ascii(": ") + h.value + CRLF
  }

  function HeaderLines(hs: seq<Header>): Bytes {
    if hs == [] then [] else HeaderLine(hs[0]) + HeaderLines(hs[1..])
  }

  /** The status line, the header lines in order, and the blank line. */
  function HeaderBlock(r: Response): Bytes {
    StatusLine(r.status) + HeaderLines(r.headers) + CRLF
  }

  /** The whole message: the header block followed by the raw body. */
  function Frame(r: Response): Bytes {
    HeaderBlock(r) + r.body
  }

  lemma {:induction false} HeaderLinesAppend(hs: seq<Header>, h: Header)
    ensures HeaderLines(hs + [h]) == HeaderLines(hs) + HeaderLine(h)
  {
    if hs == [] {
      assert [h][1..] == [];
    } else {
      assert (hs + [h])[1..] == hs[1..] + [h];
      HeaderLinesAppend(hs[1..], h);
    }
  }

  /** The loop of `header_flat`: appends `name: value\r\n` for each header
      field in order to what has been written so far. */
  method AppendHeaderLines(prefix: Bytes, hs: seq<Header>) returns (data: Bytes)
    ensures data == prefix + HeaderLines(hs)
  {
    data := prefix;
    for i := 0 to |hs|
      invariant data == prefix + HeaderLines(hs[..i])
    {
      var h := hs[i];
      data := data + h.name;
      data := data + Ascii(": ");
      data := data + h.value;
      data := data + CRLF;
      assert hs[..i + 1] == hs[..i] + [h];
      HeaderLinesAppend(hs[..i], h);
    }
    assert hs[..|hs|] == hs;
  }

  /** `header_flat`: the status line, then each header line, then the blank
      line, appended to a growing buffer. */
  method HeaderFlat(r: Response) returns (data: Bytes)
    ensures data == StatusLine(r.status) + HeaderLines(r.headers) + CRLF
  {
    data := StatusLine(r.status);
    data := AppendHeaderLines(data, r.headers);
    data := data + CRLF;
  }

  /** `Flat::flat`: the header block with the body appended unchanged. */
  method Flat(r: Response) returns (data: Bytes)
    ensures data == HeaderBlock(r) + r.body
    ensures |data| >= |r.body| && data[|data| - |r.body|..] == r.body
    ensures data[..|StatusLine(r.status)|] == StatusLine(r.status)
  {
    data := HeaderFlat(r);
    data := data + r.body;
  }

  // ---------------------------------------------------------------------
  // Reading a frame back

  /** A header field the framing carries unambiguously: a token name
      (section 3.2 of RFC 7230, as `http::HeaderName` guarantees) and a value
      with no CR or LF in it (as `http::HeaderValue` guarantees). */
  predicate WellFormedHeader(h: Header) {
    && IsToken(h.name)
    && forall i :: 0 <= i < |h.value| ==> h.value[i] != CR && h.value[i] != LF
  }

  predicate WellFormedResponse(r: Response) {
    forall i :: 0 <= i < |r.headers| ==> WellFormedHeader(r.headers[i])
  }

  /** The position of the first `b` in `s`. */
  function IndexOf(s: Bytes, b: byte): (r: Option<nat>)
    ensures r.Some? ==> r.value < |s| && s[r.value] == b
    ensures r.Some? ==> forall k :: 0 <= k < r.value ==> s[k] != b
    ensures r.None? ==> forall k :: 0 <= k < |s| ==> s[k] != b
    decreases |s|
  {
    if s == [] then None
    else if s[0] == b then Some(0)
    else match IndexOf(s[1..], b)
      case None => None
      case Some(k) => Some(k + 1)
  }

  lemma IndexOfFirst(s: Bytes, b: byte, k: nat)
    requires k < |s| && s[k] == b
    requires forall i :: 0 <= i < k ==> s[i] != b
    ensures IndexOf(s, b) == Some(k)
  {
  }

  /** Reads one `<name>: <value>\r\n` line off the front of `s`: the name runs
      to the first colon, the value from after `: ` to the first CR. */
  function ReadHeaderLine(s: Bytes): (r: Option<(Header, Bytes)>)
    ensures r.Some? ==> |r.value.1| < |s|
  {
    match IndexOf(s, COLON)
    case None => None
    case Some(i) =>
      if i + 1 < |s| && s[i + 1] == SP then
        var rest := s[i + 2..];
        match IndexOf(rest, CR)
        case None => None
        case Some(j) =>
          if j + 1 < |rest| && rest[j + 1] == LF
          then Some((Header(s[..i], rest[..j]), rest[j + 2..]))
          else None
      else None
  }

  /** Reads header lines up to and including the blank line; what follows is the body. */
  function ReadHeaderLines(s: Bytes): Option<(seq<Header>, Bytes)>
    decreases |s|
  {
    if |s| >= 2 && s[0] == CR && s[1] == LF then Some(([], s[2..]))
    else match ReadHeaderLine(s)
      case None => None
      case Some((h, rest)) =>
        match ReadHeaderLines(rest)
        case None => None
        case Some((hs, body)) => Some(([h] + hs, body))
  }

  /** Reads the status code of a status line: three digits after `HTTP/1.1 `. */
  function ReadCode(data: Bytes): Option<StatusCode> {
    if |data| < 12 || data[..9] != Ascii("HTTP/1.1 ")
       || !IsDigit(data[9]) || !IsDigit(data[10]) || !IsDigit(data[11]) then None
    else
      var code := 100 * DigitValue(data[9]) + 10 * DigitValue(data[10]) + DigitValue(data[11]);
      if code < 100 then None else Some(code)
  }

  /** Reads a status line: the code, then the rest of the line as the framer
      writes it for that code. Gives the code and the length of the line. */
  function ReadStatusLine(data: Bytes): Option<(StatusCode, nat)> {
    match ReadCode(data)
    case None => None
    case Some(code) =>
      var line := StatusLine(code);
      if |line| <= |data| && data[..|line|] == line then Some((code, |line|)) else None
  }

  /** Reads a framed response: the status line, the header lines, the body. */
  function Unframe(data: Bytes): Option<Response> {
    match ReadStatusLine(data)
    case None => None
    case Some((code, n)) =>
      if n <= |data| then
        match ReadHeaderLines(data[n..])
        case None => None
        case Some((hs, body)) => Some(Response(code, hs, body))
      else None
  }

  lemma StatusDigits(code: StatusCode)
    ensures Decimal(code) == [DigitByte(code / 100), DigitByte(code / 10 % 10), DigitByte(code % 10)]
  {
    assert code / 10 / 10 == code / 100 && code / 100 < 10;
    assert Decimal(code / 10) == Decimal(code / 100) + [DigitByte(code / 10 % 10)];
    assert Decimal(code) == Decimal(code / 10) + [DigitByte(code % 10)];
  }

  lemma NameFront(h: Header, tail: Bytes)
    requires IsToken(h.name)
    ensures var s := HeaderLine(h) + tail;
      && IndexOf(s, COLON) == Some(|h.name|) && |h.name| + 1 < |s| && s[|h.name| + 1] == SP
      && s[..|h.name|] == h.name && s[|h.name| + 2..] == h.value + ([CR, LF] + tail)
  {
    var s := HeaderLine(h) + tail;
    assert Ascii(": ") == [COLON, SP];
    assert s == h.name + ([COLON, SP] + (h.value + ([CR, LF] + tail)));
    assert forall i :: 0 <= i < |h.name| ==> s[i] == h.name[i];
    IndexOfFirst(s, COLON, |h.name|);
  }

  lemma ValueFront(value: Bytes, tail: Bytes)
    requires forall i :: 0 <= i < |value| ==> value[i] != CR
    ensures var rest := value + ([CR, LF] + tail);
      && IndexOf(rest, CR) == Some(|value|) && |value| + 1 < |rest| && rest[|value| + 1] == LF
      && rest[..|value|] == value && rest[|value| + 2..] == tail
  {
    var rest := value + ([CR, LF] + tail);
    IndexOfFirst(rest, CR, |value|);
  }

  lemma ReadHeaderLineOf(h: Header, tail: Bytes)
    requires WellFormedHeader(h)
    ensures ReadHeaderLine(HeaderLine(h) + tail) == Some((h, tail))
  {
    NameFront(h, tail);
    ValueFront(h.value, tail);
  }

  lemma ReadHeaderLinesStep(h: Header, tail: Bytes)
    requires WellFormedHeader(h)
    ensures ReadHeaderLines(HeaderLine(h) + tail) ==
      match ReadHeaderLines(tail)
      case None => None
      case Some((hs, body)) => Some(([h] + hs, body))
  {
    var s := HeaderLine(h) + tail;
    assert s[0] == h.name[0] && s[0] != CR;
    ReadHeaderLineOf(h, tail);
  }

  lemma {:induction false} ReadHeaderLinesOf(hs: seq<Header>, body: Bytes)
    requires forall i :: 0 <= i < |hs| ==> WellFormedHeader(hs[i])
    ensures ReadHeaderLines(HeaderLines(hs) + CRLF + body) == Some((hs, body))
  {
    var s := HeaderLines(hs) + CRLF + body;
    if hs == [] {
      assert s == [CR, LF] + body;
    } else {
      var tail := HeaderLines(hs[1..]) + CRLF + body;
      assert s == HeaderLine(hs[0]) + tail;
      ReadHeaderLinesStep(hs[0], tail);
      ReadHeaderLinesOf(hs[1..], body);
      assert [hs[0]] + hs[1..] == hs;
    }
  }

  lemma StatusLineShape(code: StatusCode, reason: Bytes)
    ensures var line := StatusLineWith(code, reason);
      && |line| > 12 && line[..9] == Ascii("HTTP/1.1 ")
      && line[9] == DigitByte(code / 100)
      && line[10] == DigitByte(code / 10 % 10)
      && line[11] == DigitByte(code % 10)
  {
    StatusDigits(code);
    var line := StatusLineWith(code, reason);
    assert line == Ascii("HTTP/1.1 ") + (Decimal(code) + ([SP] + reason + CRLF));
  }

  lemma StatusLineFront(code: StatusCode, reason: Bytes, rest: Bytes)
    ensures ReadCode(StatusLineWith(code, reason) + rest) == Some(code)
  {
    var line := StatusLineWith(code, reason);
    var data := line + rest;
    StatusLineShape(code, reason);
    assert data[..9] == line[..9];
    assert data[9] == line[9] && data[10] == line[10] && data[11] == line[11];
  }

  lemma ReadStatusLineOf(code: StatusCode, rest: Bytes)
    ensures ReadStatusLine(StatusLine(code) + rest) == Some((code, |StatusLine(code)|))
  {
    var line := StatusLine(code);
    var data := line + rest;
    StatusLineFront(code, ReasonPhrase(code), rest);
    assert data[..|line|] == line;
  }

  lemma UnframeStatusLine(code: StatusCode, rest: Bytes)
    ensures Unframe(StatusLine(code) + rest) ==
      match ReadHeaderLines(rest)
      case None => None
      case Some((hs, body)) => Some(Response(code, hs, body))
  {
    var line := StatusLine(code);
    ReadStatusLineOf(code, rest);
    assert (line + rest)[|line|..] == rest;
  }

  lemma FrameSplit(r: Response)
    ensures Frame(r) == StatusLine(r.status) + (HeaderLines(r.headers) + CRLF + r.body)
  {
  }

  /** Framing loses nothing: reading the frame of a response back recovers
      its status code, its header fields in order, and its body. */
  lemma FrameRoundTrip(r: Response)
    requires WellFormedResponse(r)
    ensures Unframe(Frame(r)) == Some(r)
  {
    var rest := HeaderLines(r.headers) + CRLF + r.body;
    FrameSplit(r);
    UnframeStatusLine(r.status, rest);
    ReadHeaderLinesOf(r.headers, r.body);
  }

  /** Two well-formed responses with the same wire bytes are the same response. */
  lemma FrameInjective(r1: Response, r2: Response)
    requires WellFormedResponse(r1) && WellFormedResponse(r2)
    requires Frame(r1) == Frame(r2)
    ensures r1 == r2
  {
    FrameRoundTrip(r1);
    FrameRoundTrip(r2);
  }
}
