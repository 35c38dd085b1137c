/** One exchange on an accepted connection (the body of the accept loop in
    `WebServer::launch`): the request is parsed out of a 2048-byte read buffer;
    the server sends the interim `100 Continue` and takes the body from a
    second read when the client asked for it or when fewer bytes arrived than
    the content length; then it writes the handler's framed response, or the
    tokeniser's error message as it is. The socket reads are inputs and the
    writes are the result, in order. */
module Connection {
  import opened Octets
  import opened Message
  import opened Framing
  import opened Responses
  import opened RequestParser
  import opened Routing

  /** The size of the first read buffer (`[0u8; 2048]`). */
  const BUFFER_SIZE: nat := 2048

  /** The interim response written before the second read. */
  const CONTINUE_FRAME: Bytes := Ascii("HTTP/1.1 100 Continue\r\n\r\n")

  /** The continuation rule: the client expects `100 Continue`, or the first
      read returned fewer bytes than the declared content length. */
  predicate NeedsContinue(expects: bool, readLen: nat, contentLength: nat) {
    expects || readLen < contentLength
  }

  /** The body after the second read: a buffer of `contentLength` zero bytes
      whose front the read fills with the `received` bytes. A buffer larger
      than `isize::MAX` bytes cannot be allocated. */
  function ContinuationBody(received: Bytes, contentLength: nat): (body: Bytes)
    requires |received| <= contentLength <= ISIZE_MAX
    ensures |body| == contentLength && body[..|received|] == received
    ensures forall i :: |received| <= i < contentLength ==> body[i] == 0
  {
    received + seq(contentLength - |received|, _ => 0)
  }

  /** What the socket sees from the server: the first read returned `readLen`
      bytes into `plaintext` (zero beyond them), the tokeniser reported
      `outcome`, and a second read, if any, returned `received`. */
  predicate ValidExchange(plaintext: Bytes, readLen: nat, outcome: Tokenised, received: Bytes) {
    && |plaintext| == BUFFER_SIZE && readLen <= BUFFER_SIZE
    && (forall i :: readLen <= i < |plaintext| ==> plaintext[i] == 0)
    && Admissible(plaintext, outcome)
    && (ParseSpec(plaintext, outcome).Ok? ==> |received| <= ParseSpec(plaintext, outcome).value.contentLength)
  }

  /** The request the handler sees: the parsed one, with its body replaced by
      the second read when the continuation rule fires. */
  function Handled(p: Parsed, readLen: nat, received: Bytes): Request
    requires NeedsContinue(p.expectsContinue, readLen, p.contentLength) ==>
      |received| <= p.contentLength <= ISIZE_MAX
  {
    if NeedsContinue(p.expectsContinue, readLen, p.contentLength)
    then p.request.(body := ContinuationBody(received, p.contentLength))
    else p.request
  }

  /** The writes of one exchange, in order, and whether the server panicked
      after them, which ends the accept loop and with it the server. */
  datatype Exchanged = Exchanged(writes: seq<Bytes>, panicked: bool)

  /** The writes after a successful parse. When the continuation rule fires
      for a content length beyond `isize::MAX`, the body buffer cannot be
      allocated: the server panics right after `100 Continue`. */
  function Replies(p: Parsed, readLen: nat, received: Bytes): Exchanged
    requires NeedsContinue(p.expectsContinue, readLen, p.contentLength) ==> |received| <= p.contentLength
  {
    if NeedsContinue(p.expectsContinue, readLen, p.contentLength) then
      if p.contentLength > ISIZE_MAX then Exchanged([CONTINUE_FRAME], true)
      else Exchanged([CONTINUE_FRAME, Frame(Process(Handled(p, readLen, received)))], false)
    else Exchanged([Frame(Process(p.request))], false)
  }

  /** The writes of one exchange. */
  function Exchange(plaintext: Bytes, readLen: nat, outcome: Tokenised, received: Bytes): Exchanged
    requires ValidExchange(plaintext, readLen, outcome, received)
  {
    match ParseSpec(plaintext, outcome)
    case Err(message) => Exchanged([message], false)
    case Ok(p) => Replies(p, readLen, received)
  }

  /** After a successful parse: maybe write `100 Continue` and take the body
      from the second read, then write the handler's framed answer. */
  method Reply(p: Parsed, readLen: nat, received: Bytes) returns (writes: seq<Bytes>, panicked: bool)
    requires NeedsContinue(p.expectsContinue, readLen, p.contentLength) ==> |received| <= p.contentLength
    ensures Exchanged(writes, panicked) == Replies(p, readLen, received)
  {
    writes := [];
    panicked := false;
    var request := p.request;
    if p.expectsContinue || readLen < p.contentLength {
      var interim := Flat(E100([]));
      ContinueFrame();
      writes := writes + [interim];
      if p.contentLength > ISIZE_MAX {
        // `vec![0u8; content_len]` fails with a capacity overflow
        panicked := true;
        return;
      }
      var body := ContinuationBody(received, p.contentLength);
      request := request.(body := body);
    }
    var data := Flat(Process(request));
    writes := writes + [data];
  }

  /** One pass of the accept loop after the first read: parse, then reply,
      or write the tokeniser's error text back. */
  method Serve(plaintext: Bytes, readLen: nat, outcome: Tokenised, received: Bytes)
    returns (writes: seq<Bytes>, panicked: bool)
    requires ValidExchange(plaintext, readLen, outcome, received)
    ensures Exchanged(writes, panicked) == Exchange(plaintext, readLen, outcome, received)
  {
    var parsed := Parse(plaintext, outcome);
    match parsed {
      case Ok(p) =>
        writes, panicked := Reply(p, readLen, received);
      case Err(e) =>
        writes, panicked := [e], false;
    }
  }

  // ---------------------------------------------------------------------
  // Properties

  /** The shape of an exchange: a tokeniser error is written back as its
      message alone; otherwise `100 Continue` comes first exactly when the
      continuation rule fires, the server panics right after it exactly when
      the declared length is beyond `isize::MAX`, and in every other case the
      last write is the handler's answer to the parsed request, whichever
      body the second read supplied. */
  lemma ExchangeShape(plaintext: Bytes, readLen: nat, outcome: Tokenised, received: Bytes)
    requires ValidExchange(plaintext, readLen, outcome, received)
    ensures var x := Exchange(plaintext, readLen, outcome, received);
      && (outcome.Error? ==> x == Exchanged([outcome.message], false))
      && (!outcome.Error? ==>
            var p := ParseSpec(plaintext, outcome).value;
            var continues := NeedsContinue(p.expectsContinue, readLen, p.contentLength);
            && (x.panicked <==> continues && p.contentLength > ISIZE_MAX)
            && |x.writes| == (if continues && !x.panicked then 2 else 1)
            && (continues ==> x.writes[0] == CONTINUE_FRAME)
            && (!x.panicked ==> x.writes[|x.writes| - 1] == Frame(Process(p.request))))
  {
    ParseOutcomes(plaintext, outcome);
    if !outcome.Error? {
      var p := ParseSpec(plaintext, outcome).value;
      if !NeedsContinue(p.expectsContinue, readLen, p.contentLength) || p.contentLength <= ISIZE_MAX {
        ProcessReadsMethodAndPath(Handled(p, readLen, received), p.request);
      }
    }
  }

  /** When the continuation rule fires and the body buffer can be allocated,
      the handler sees a body of exactly the declared length: the bytes of
      the second read, then zeros. */
  lemma ContinuedBody(plaintext: Bytes, readLen: nat, outcome: Tokenised, received: Bytes)
    requires ValidExchange(plaintext, readLen, outcome, received)
    requires ParseSpec(plaintext, outcome).Ok?
    requires var p := ParseSpec(plaintext, outcome).value;
      NeedsContinue(p.expectsContinue, readLen, p.contentLength) && p.contentLength <= ISIZE_MAX
    ensures var p := ParseSpec(plaintext, outcome).value;
      var body := Handled(p, readLen, received).body;
      && |body| == p.contentLength && body[..|received|] == received
      && forall i :: |received| <= i < |body| ==> body[i] == 0
  {
  }

  /** A header block that the tokeniser found incomplete is answered as a
      `GET /`: with the greeting, and without `100 Continue`. */
  lemma PartialAnswersGreeting(plaintext: Bytes, readLen: nat, received: Bytes)
    requires ValidExchange(plaintext, readLen, Partial, received)
    ensures Exchange(plaintext, readLen, Partial, received) == Exchanged([Ascii("HTTP/1.1 200 OK\r\n\r\nHello mweb")], false)
  {
    var p := ParseSpec(plaintext, Partial).value;
    assert p == Parsed(DefaultRequest(), false, 0);
    assert DefaultRequest().verb != POST by {
      assert DefaultRequest().verb[0] != POST[0];
    }
    GreetingFrame(p.request);
  }

  /** The continuation rule compares the declared length with everything the
      first read returned, header block included. So a body that is declared
      but not yet fully received (`readLen < parsedLen + length`) is not
      waited for as long as `length <= readLen`: the handler gets it padded
      with the zeros of the read buffer in place of the missing bytes. */
  lemma PaddedBodyWithoutContinue(plaintext: Bytes, readLen: nat, outcome: Tokenised, received: Bytes, length: nat)
    requires ValidExchange(plaintext, readLen, outcome, received)
    requires outcome.Complete? && outcome.parsedLen <= readLen
    requires ContentLength(outcome.headers) == Some(length) && !ExpectsContinue(outcome.headers)
    requires length <= readLen < outcome.parsedLen + length
    ensures var p := ParseSpec(plaintext, outcome).value;
      && !NeedsContinue(p.expectsContinue, readLen, p.contentLength)
      && var body := Handled(p, readLen, received).body;
      && |body| == length
      && forall i :: readLen - outcome.parsedLen <= i < length ==> body[i] == 0
  {
    ParseOutcomes(plaintext, outcome);
  }
}
