/** Request assembly after tokenising (`WebServer::parse`): the lookups of
    `Content-Length` and `Expect` (section 5.1.1 of RFC 7231), and the slicing
    of the body out of the read buffer. The tokeniser itself (`httparse`) is
    outside the model: its outcome is an input. */
module RequestParser {
  import opened Octets
  import opened Message

  const CONTENT_LENGTH: Bytes := Ascii("content-length")
  const EXPECT: Bytes := Ascii("expect")
  const CONTINUE_EXPECTATION: Bytes := Ascii("100-continue")

  /** What `httparse::Request::parse` reports: the header block ends at
      `parsedLen`, or the buffer holds only part of one, or it is malformed. */
  datatype Tokenised =
    | Complete(parsedLen: nat, verb: Bytes, target: Bytes, headers: seq<Header>)
    | Partial
    | Error(message: Bytes)

  /** What `parse` returns on success: the request, whether the client waits
      for `100 Continue`, and the content length (0 when there is none). */
  datatype Parsed = Parsed(request: Request, expectsContinue: bool, contentLength: nat)

  /** The header's name, lower-cased, is `lowered`. Names are tokens, so
      `to_lowercase` only changes their ASCII letters. */
  predicate NameIs(h: Header, lowered: Bytes) {
    AsciiLower(h.name) == lowered
  }

  /** The position of the first header named `lowered`, ignoring case. */
  function FirstNamed(hs: seq<Header>, lowered: Bytes): (r: Option<nat>)
    ensures r.Some? ==> r.value < |hs| && NameIs(hs[r.value], lowered)
    ensures r.Some? ==> forall j :: 0 <= j < r.value ==> !NameIs(hs[j], lowered)
    ensures r.None? ==> forall j :: 0 <= j < |hs| ==> !NameIs(hs[j], lowered)
    decreases |hs|
  {
    if hs == [] then None
    else if NameIs(hs[0], lowered) then Some(0)
    else match FirstNamed(hs[1..], lowered)
      case None => None
      case Some(k) => Some(k + 1)
  }

  /** `headers.iter().find(|h| h.name.to_lowercase() == lowered)`. */
  function Find(hs: seq<Header>, lowered: Bytes): (r: Option<Header>)
    ensures r.Some? ==> r.value in hs && NameIs(r.value, lowered)
    ensures r.None? <==> forall j :: 0 <= j < |hs| ==> !NameIs(hs[j], lowered)
  {
    match FirstNamed(hs, lowered)
    case None => None
    case Some(i) => Some(hs[i])
  }

  lemma FirstNamedAt(hs: seq<Header>, lowered: Bytes, i: nat)
    requires i < |hs| && NameIs(hs[i], lowered)
    requires forall j :: 0 <= j < i ==> !NameIs(hs[j], lowered)
    ensures FirstNamed(hs, lowered) == Some(i) && Find(hs, lowered) == Some(hs[i])
  {
  }

  /** The value of the header `parse` looks up under `lowered`, if any, is
      valid UTF-8, so that `str::from_utf8(..).unwrap()` does not panic. */
  predicate DecodesAsUtf8(hs: seq<Header>, lowered: Bytes) {
    match Find(hs, lowered)
    case None => true
    case Some(h) => IsUtf8(h.value)
  }

  /** The value of the first `Content-Length` header read as a base-10
      `usize`; `None` when there is no such header or its value does not parse. */
  function ContentLength(hs: seq<Header>): (r: Option<nat>)
    requires DecodesAsUtf8(hs, CONTENT_LENGTH)
    ensures (forall j :: 0 <= j < |hs| ==> !NameIs(hs[j], CONTENT_LENGTH)) ==> r.None?
    ensures r.Some? ==> r.value <= USIZE_MAX
  {
    match Find(hs, CONTENT_LENGTH)
    case None => None
    case Some(h) => ParseUsize(h.value)
  }

  /** Whether the first `Expect` header says `100-continue`, ignoring case. For
      valid UTF-8, Unicode lower-casing yields `100-continue` exactly when
      ASCII lower-casing does: no non-ASCII character lower-cases to one of
      its characters. */
  function ExpectsContinue(hs: seq<Header>): (r: bool)
    requires DecodesAsUtf8(hs, EXPECT)
    ensures (forall j :: 0 <= j < |hs| ==> !NameIs(hs[j], EXPECT)) ==> !r
    ensures r ==>
      exists i :: 0 <= i < |hs| && NameIs(hs[i], EXPECT) && AsciiLower(hs[i].value) == CONTINUE_EXPECTATION
  {
    match Find(hs, EXPECT)
    case None => false
    case Some(h) => AsciiLower(h.value) == CONTINUE_EXPECTATION
  }

  /** The inputs on which `parse` returns instead of panicking, given what the
      tokeniser guarantees: the header block lies inside the buffer and header
      names are tokens; the looked-up values are UTF-8; and a body that is cut
      to the content length fits in what follows the header block
      (`split_at` panics otherwise). */
  predicate Admissible(plaintext: Bytes, outcome: Tokenised) {
    outcome.Complete? ==>
      && outcome.parsedLen <= |plaintext|
      && (forall i :: 0 <= i < |outcome.headers| ==> IsToken(outcome.headers[i].name))
      && DecodesAsUtf8(outcome.headers, CONTENT_LENGTH)
      && DecodesAsUtf8(outcome.headers, EXPECT)
      && (ContentLength(outcome.headers).Some? && !ExpectsContinue(outcome.headers) ==>
            outcome.parsedLen + ContentLength(outcome.headers).value <= |plaintext|)
  }

  /** What `parse` returns. */
  function ParseSpec(plaintext: Bytes, outcome: Tokenised): Result<Parsed, Bytes>
    requires Admissible(plaintext, outcome)
  {
    match outcome
    case Partial => Ok(Parsed(DefaultRequest(), false, 0))
    case Error(message) => Err(message)
    case Complete(parsedLen, verb, target, hs) =>
      var contentLength := ContentLength(hs);
      var expects := ExpectsContinue(hs);
      var after := plaintext[parsedLen..];
      var body :=
        match contentLength
        case None => after
        case Some(len) => if expects then [] else after[..len];
      Ok(Parsed(Request(verb, target, hs, body), expects, contentLength.GetOr(0)))
  }

  /** `WebServer::parse` after tokenising: looks up the two headers, copies
      the header fields one by one into the request, and cuts the body out of
      the buffer. */
  method Parse(plaintext: Bytes, outcome: Tokenised) returns (r: Result<Parsed, Bytes>)
    requires Admissible(plaintext, outcome)
    ensures r == ParseSpec(plaintext, outcome)
  {
    match outcome {
      case Complete(parsedLen, verb, target, hs) =>
        var contentLength := ContentLength(hs);
        var expects := ExpectsContinue(hs);
        var copied: seq<Header> := [];
        for i := 0 to |hs|
          invariant copied == hs[..i]
        {
          copied := copied + [hs[i]];
        }
        assert copied == hs;
        var body := plaintext[parsedLen..];
        if contentLength.Some? {
          if !expects {
            body := body[..contentLength.value];
          } else {
            body := body[..0];
          }
        }
        r := Ok(Parsed(Request(verb, target, copied, body), expects, contentLength.GetOr(0)));
      case Partial =>
        r := Ok(Parsed(DefaultRequest(), false, 0));
      case Error(message) =>
        r := Err(message);
    }
  }

  // ---------------------------------------------------------------------
  // Properties

  /** The content length comes from the first header whose name is
      `content-length` in any case, whatever later ones say; a decimal value
      up to `usize::MAX`, with an optional `+` and any leading zeros, is read
      back as its number. */
  lemma ContentLengthOfFirst(hs: seq<Header>, i: nat, sign: Bytes, z: nat, k: nat)
    requires i < |hs| && NameIs(hs[i], CONTENT_LENGTH)
    requires forall j :: 0 <= j < i ==> !NameIs(hs[j], CONTENT_LENGTH)
    requires sign == [] || sign == [PLUS]
    requires hs[i].value == sign + Zeros(z) + Decimal(k) && k <= USIZE_MAX
    ensures DecodesAsUtf8(hs, CONTENT_LENGTH) && ContentLength(hs) == Some(k)
  {
    FirstNamedAt(hs, CONTENT_LENGTH, i);
    var v := hs[i].value;
    assert forall j :: 0 <= j < |v| ==> v[j] < 0x80 by {
      forall j | 0 <= j < |v|
        ensures v[j] < 0x80
      {
        if j < |sign| {
          assert v[j] == PLUS;
        } else if j < |sign| + z {
          assert v[j] == Zeros(z)[j - |sign|];
        } else {
          assert v[j] == Decimal(k)[j - |sign| - z];
        }
      }
    }
    AsciiIsUtf8(v);
    ParseUsizeNumeral(sign, z, k);
  }

  /** A first `Content-Length` value that is not a numeral gives no length. */
  lemma ContentLengthNotNumeral(hs: seq<Header>, i: nat, p: nat)
    requires i < |hs| && NameIs(hs[i], CONTENT_LENGTH)
    requires forall j :: 0 <= j < i ==> !NameIs(hs[j], CONTENT_LENGTH)
    requires IsUtf8(hs[i].value)
    requires p < |hs[i].value| && !IsDigit(hs[i].value[p]) && (p > 0 || hs[i].value[p] != PLUS)
    ensures DecodesAsUtf8(hs, CONTENT_LENGTH) && ContentLength(hs) == None
  {
    FirstNamedAt(hs, CONTENT_LENGTH, i);
  }

  /** The client expects `100 Continue` exactly when the first header named
      `expect` in any case has the value `100-continue` in any case. */
  lemma ExpectsContinueIff(hs: seq<Header>)
    requires DecodesAsUtf8(hs, EXPECT)
    ensures ExpectsContinue(hs) <==>
      exists i :: 0 <= i < |hs| && NameIs(hs[i], EXPECT)
        && (forall j :: 0 <= j < i ==> !NameIs(hs[j], EXPECT))
        && AsciiLower(hs[i].value) == CONTINUE_EXPECTATION
  {
    if ExpectsContinue(hs) {
      var i := FirstNamed(hs, EXPECT).value;
      assert NameIs(hs[i], EXPECT) && AsciiLower(hs[i].value) == CONTINUE_EXPECTATION;
    }
    if exists i :: 0 <= i < |hs| && NameIs(hs[i], EXPECT)
        && (forall j :: 0 <= j < i ==> !NameIs(hs[j], EXPECT))
        && AsciiLower(hs[i].value) == CONTINUE_EXPECTATION {
      var i :| 0 <= i < |hs| && NameIs(hs[i], EXPECT)
        && (forall j :: 0 <= j < i ==> !NameIs(hs[j], EXPECT))
        && AsciiLower(hs[i].value) == CONTINUE_EXPECTATION;
      FirstNamedAt(hs, EXPECT, i);
    }
  }

  /** What the parsed request holds for each tokeniser outcome: the body is
      exactly `content-length` bytes after the header block when the client
      does not wait for `100 Continue`, empty when it does, and everything
      after the header block when there is no length; a partial header block
      gives the default request; a tokeniser error passes its message on. */
  lemma ParseOutcomes(plaintext: Bytes, outcome: Tokenised)
    requires Admissible(plaintext, outcome)
    ensures outcome.Partial? ==> ParseSpec(plaintext, outcome) == Ok(Parsed(DefaultRequest(), false, 0))
    ensures outcome.Error? ==> ParseSpec(plaintext, outcome) == Err(outcome.message)
    ensures outcome.Complete? ==>
      var hs := outcome.headers;
      var n := outcome.parsedLen;
      var p := ParseSpec(plaintext, outcome);
      && p.Ok?
      && p.value.request.verb == outcome.verb
      && p.value.request.uri == outcome.target
      && p.value.request.headers == hs
      && p.value.expectsContinue == ExpectsContinue(hs)
      && p.value.contentLength == (if ContentLength(hs).Some? then ContentLength(hs).value else 0)
      && (ContentLength(hs).Some? && !ExpectsContinue(hs) ==>
            p.value.request.body == plaintext[n..n + ContentLength(hs).value])
      && (ContentLength(hs).Some? && ExpectsContinue(hs) ==> p.value.request.body == [])
      && (ContentLength(hs).None? ==> p.value.request.body == plaintext[n..])
  {
  }
}
