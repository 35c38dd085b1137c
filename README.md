# mweb HTTP/1.1 core in Dafny

This project models the HTTP/1.1 core of mweb, a small TLS web server written in Rust. All of the modelled code is in `src/web.rs`:

- **Response framing.** `header_flat` and `Flat::flat` write the status line `HTTP/1.1 <code> <reason>`, one `name: value` line per header field, a blank line and then the raw body (section 3 of RFC 7230). A reference reader (`Framing.Unframe`) is defined next to the framer, and a lemma proves that it recovers every well-formed response from its frame.
- **Response constructors.** `ResponseExt::{e100, e404, json, html}` fix the status code and the header fields. `json` and `html` declare a `content-length` that a reader finds to be the body's exact length.
- **Request assembly after tokenising** (`WebServer::parse`). The outcome of the `httparse` tokeniser is an input. The model covers:
  - the case-insensitive first-match lookups of `Content-Length` (read as a base-10 `usize`) and `Expect: 100-continue` (section 5.1.1 of RFC 7231);
  - the copy of the header fields;
  - the slicing of the body out of the 2048-byte read buffer;
  - the fixed results for `Partial` and tokeniser errors.
- **Routing** (`Handler::process`). A `POST` to `/command` gets a JSON reply. Any other `POST` gets status 400. Any other method gets the greeting. The lemmas give the exact bytes of each answer.
- **One exchange on a connection** (the body of the accept loop in `WebServer::launch`). The server parses the request. When the continuation rule `expects || len < content_len` fires, it writes `100 Continue` and takes the body from a second read. It then writes the framed answer, or the tokeniser's error text as it is. A body buffer beyond `isize::MAX` bytes cannot be allocated, so for such a content length the server panics right after `100 Continue`. The socket reads are inputs; the writes and whether the server panicked are the result.

Files:

- `octets.dfy` (module `Octets`): bytes, ASCII literals, ASCII case folding, tokens, UTF-8 well-formedness, and decimal numerals as `usize::from_str_radix` and `to_string` read and write them.
- `message.dfy` (`Message`): header fields, requests, responses, and the `http` crate's table of canonical reason phrases.
- `framing.dfy` (`Framing`): `header_flat`, `Flat::flat` and the reference reader.
- `responses.dfy` (`Responses`): the `ResponseExt` constructors.
- `request_parser.dfy` (`RequestParser`): `WebServer::parse` after tokenising.
- `routing.dfy` (`Routing`): `Handler::process`.
- `connection.dfy` (`Connection`): the continuation rule and one exchange.

`HeaderFlat`, `Flat`, `Parse` and `Serve` build their results step by step, as the Rust code does. Each is proved against a specification function, and the lemmas are stated about that function.

## Model

| member | source | states |
|---|---|---|
| Octets.AsciiLower | src/web.rs:146-159 | `to_lowercase` on ASCII: the result has the same length, maps each byte through the letter-only lowering, and holds no upper-case letter |
| Octets.IsUtf8 | src/web.rs:149-159 | `str::from_utf8` rejects a string that starts with a continuation byte, with `C0` or `C1`, or with a byte above `F4` |
| Octets.AsciiIsUtf8 | src/web.rs:149-159 | every ASCII string is valid UTF-8, so the `unwrap` on it does not panic |
| Octets.ParseUsize | src/web.rs:149 | `usize::from_str_radix(_, 10).ok()`: a result is at most `usize::MAX`, and it only comes from a nonempty string of digits with at most one leading `+` |
| Octets.ParseUsizeDigits | src/web.rs:149 | an optional `+` followed by a nonempty run of digits reads as the number the digits denote when it fits in a `usize`, and as no value otherwise |
| Octets.ParseUsizeNumeral | src/web.rs:149 | an optional `+`, any number of leading zeros and the decimal rendering of `n` read as `n` when `n` fits in a `usize`, and as no value otherwise |
| Octets.ParseUsizeNoDigits | src/web.rs:149 | the empty string and a lone `+` give no value |
| Octets.LeadingZerosValue | src/web.rs:149 | leading zeros do not change the value of a digit string |
| Octets.Decimal | src/web.rs:73 | the rendering of a number (`to_string` of a length) is a nonempty string of digits |
| Octets.ParseUsizeDecimal | src/web.rs:149 | reading back the decimal rendering of `n` gives `n` exactly when `n` fits in a 64-bit `usize`, and no value otherwise |
| Octets.DecimalDigits | src/web.rs:73 | the rendering of a length as a header value is a nonempty string of digits without a leading zero that denotes the length |
| Message.CanonicalReason | src/web.rs:16 | `canonical_reason`: a known reason phrase is nonempty, and no code above 511 has one |
| Message.DefaultRequest | src/web.rs:192 | `Request::default()` is a `GET` of `/` with no header fields and an empty body |
| Framing.AppendHeaderLines | src/web.rs:19-24 | the header loop appends `name: value\r\n` for every header field, in order, to what was already written |
| Framing.HeaderFlat | src/web.rs:10-28 | the header block is the status line, then the header lines in order, then the blank line |
| Framing.Flat | src/web.rs:38-42 | the frame is the header block followed by the unchanged body: it ends with the body and starts with the status line |
| Framing.StatusDigits | src/web.rs:15 | a status code is written as its three decimal digits |
| Framing.FrameRoundTrip | src/web.rs:10-42 | reading a well-formed response's frame back gives the same status code, the same header fields in order and the same body |
| Framing.FrameInjective | src/web.rs:10-42 | two well-formed responses with the same frame are equal |
| Responses.E100 | src/web.rs:58-61 | `e100(e)` has status 100, no header fields and body `e` |
| Responses.E404 | src/web.rs:63-66 | `e404(e)` has status 404, no header fields and body `e` |
| Responses.Json | src/web.rs:67-78 | `json(c)` has status 200 and body `c`; its two header fields are `content-type: application/json`, then `content-length` with the decimal length of `c` |
| Responses.Html | src/web.rs:80-87 | `html(c)` is the same as `json(c)` except that the content type is `text/html; charset=utf-8` |
| Responses.TypedWellFormed | src/web.rs:72-73 | the header fields that `json` and `html` set are token names with values free of CR and LF |
| Responses.DeclaredLength | src/web.rs:73 | the `content-length` that `json` and `html` declare is the one the request-side lookup reads back: the exact byte length of the body |
| Responses.ConstructorsRoundTrip | src/web.rs:67-87 | what `json` and `html` build reads back from its frame unchanged |
| Responses.KnownStatusLine | src/web.rs:13-17 | a code with a canonical reason phrase gets the status line `HTTP/1.1 <digits> <reason>\r\n` |
| Responses.PlaceholderStatusLine | src/web.rs:16 | a code without a canonical reason phrase gets the reason `Unsupported Status` |
| Responses.ContinueStatusLine | src/web.rs:13-17 | the status line of 100 is `HTTP/1.1 100 Continue\r\n` |
| Responses.OkStatusLine | src/web.rs:13-17 | the status line of 200 is `HTTP/1.1 200 OK\r\n` |
| Responses.ContinueFrame | src/web.rs:58-61 | `e100(empty).flat()` is exactly `HTTP/1.1 100 Continue\r\n\r\n` |
| RequestParser.FirstNamed | src/web.rs:143-146 | gives the position of the first header field whose lower-cased name matches; no earlier field matches, and there is no position when no field matches |
| RequestParser.FirstNamedAt | src/web.rs:143-146 | the first match, ignoring case, is the field that `find` returns |
| RequestParser.Find | src/web.rs:143-157 | `find` returns one of the header fields, and one whose lower-cased name matches; it returns nothing exactly when no field matches |
| RequestParser.ContentLength | src/web.rs:142-150 | there is no content length without a `content-length` field; a content length never exceeds `usize::MAX` |
| RequestParser.ContentLengthOfFirst | src/web.rs:142-150 | the content length comes from the first `content-length` field in any case, whatever later ones say; a decimal value that fits in a `usize`, with an optional `+` and any leading zeros, is read back as its number |
| RequestParser.ContentLengthNotNumeral | src/web.rs:147-150 | a first `content-length` value holding a byte that is neither a digit nor a leading `+` gives no content length |
| RequestParser.ExpectsContinue | src/web.rs:153-162 | the client is never taken to wait for `100 Continue` without an `expect` field, and only when some `expect` field has the value `100-continue` in any case |
| RequestParser.ExpectsContinueIff | src/web.rs:153-162 | the client waits for `100 Continue` if and only if the first field named `expect` in any case has the value `100-continue` in any case |
| RequestParser.Parse | src/web.rs:133-199 | the step-by-step assembly (the lookups, the header copy loop, the body cut) gives exactly what the specification of `parse` gives |
| RequestParser.ParseOutcomes | src/web.rs:174-197 | `Partial` gives the default request, `false` and 0, and an error passes its message on. `Complete` keeps the method, target and header fields. The third component is the content length, or 0 when there is none. The body is `content-length` bytes after the header block when the client does not wait, empty when it waits, and everything after the header block when there is no length |
| Routing.UriPath | src/web.rs:97 | the path is the longest prefix of the request-target without `?` or `#`, and the target continues with one of those two bytes when it is longer than the path |
| Routing.UriPathOf | src/web.rs:97 | a query or fragment after a path leaves the path unchanged |
| Routing.Process | src/web.rs:93-121 | `POST /command` gets `json("hello world from server\r\n")`, any other `POST` gets status 400 with body `html` and no header fields, and any other method gets status 200 with body `Hello mweb` and no header fields |
| Routing.ProcessReadsMethodAndPath | src/web.rs:95-97 | two requests with the same method and path get the same response, whatever their header fields, query and body |
| Routing.ProcessRoundTrip | src/web.rs:93-121 | every response of the handler reads back from its frame unchanged |
| Routing.BadRequestStatusLine | src/web.rs:107 | the status line of 400 is `HTTP/1.1 400 Bad Request\r\n` |
| Routing.ContentTypeLine | src/web.rs:72 | the JSON content type is written as `content-type: application/json\r\n` |
| Routing.ContentLengthLine | src/web.rs:73 | the length of the command reply is written as `content-length: 25\r\n` |
| Routing.CommandReplyFrame | src/web.rs:100-101 | the frame of the command reply, line by line |
| Routing.CommandFrame | src/web.rs:98-104 | a `POST` to `/command` is answered with exactly the status line `200 OK`, the two header lines, the blank line and `hello world from server\r\n` |
| Routing.BadRequestReplyFrame | src/web.rs:106-109 | the frame of the status-400 answer is exactly `HTTP/1.1 400 Bad Request\r\n\r\nhtml` |
| Routing.GreetingReplyFrame | src/web.rs:115-118 | the frame of the greeting is exactly `HTTP/1.1 200 OK\r\n\r\nHello mweb` |
| Routing.BadRequestFrame | src/web.rs:105-110 | a `POST` to any other path is answered with exactly `HTTP/1.1 400 Bad Request\r\n\r\nhtml` |
| Routing.GreetingFrame | src/web.rs:113-119 | any other method is answered with exactly `HTTP/1.1 200 OK\r\n\r\nHello mweb` |
| Connection.ContinuationBody | src/web.rs:270-273 | the body after the second read has the declared length, starts with the bytes received and is zero after them |
| Connection.Reply | src/web.rs:265-276 | after a successful parse, when the continuation rule fires, the interim `100 Continue` frame is written; then the server panics if the content length is beyond `isize::MAX`, and otherwise writes the framed answer to the request with its body replaced. When the rule does not fire, only the framed answer to the parsed request is written |
| Connection.Serve | src/web.rs:259-283 | the step-by-step exchange writes exactly the sequence, and panics exactly when, the specification of the exchange says |
| Connection.ExchangeShape | src/web.rs:263-283 | a tokeniser error is written back as its text alone, without a panic. Otherwise `100 Continue` is written first if and only if the continuation rule (`Connection.NeedsContinue`: `expects` or the read length below the content length) fires. The server panics right after it exactly when the content length is beyond `isize::MAX` (`vec!` capacity overflow). In every other case the last write is the handler's framed answer to the parsed request, whatever body the second read supplied |
| Connection.ContinuedBody | src/web.rs:265-273 | when the continuation rule fires and the content length is at most `isize::MAX`, the handler sees a body of exactly the content length: the bytes of the second read, then zeros |
| Connection.PartialAnswersGreeting | src/web.rs:190-192 | a header block that the tokeniser reports as partial is answered as a `GET /`: only the greeting frame, with no `100 Continue` |
| Connection.PaddedBodyWithoutContinue | src/web.rs:265 | the rule compares the content length with the whole read, header block included. So when `length <= len < parsed_len + length`, no `100 Continue` is sent and the handler gets the body padded with zero bytes of the read buffer in place of the bytes that have not arrived |

## Left out

- The `httparse` tokeniser (src/web.rs:134-137) is a foreign library. Its outcome is an input: `Complete` with the header block's length, method, target and ordered header fields; `Partial`; or `Error` with the message text. Its 16-field limit is part of that library and is not modelled.
- Internals of the `http` crate are not modelled: the builders and their `unwrap` calls, and `HeaderMap`, which lower-cases names and groups equal names in the copied request. Header fields are an ordered sequence of (name, value) byte strings, in the order the tokeniser reported them.
- The table of reason phrases is `StatusCode::canonical_reason` of the `http` crate. It is not part of this repository and is transcribed in `Message.CanonicalReason`.
- Routing.UriPath: covers only the origin-form request-targets that `httparse` reports for ordinary requests. The authority and absolute forms that `http::Uri` also accepts are not modelled. As a consequence the model answers `POST http://host/command` with status 400, while the server, whose `path()` is `/command` for that target, sends the JSON reply.
- RequestParser.ExpectsContinue: `to_lowercase` is modelled as ASCII lower-casing. Names are tokens, so the two agree on names. For valid UTF-8 values, no non-ASCII character lower-cases into a character of `100-continue`.
- RequestParser.Admissible: the panics of `parse` are preconditions, not modelled behaviour. These are `str::from_utf8(..).unwrap()` on the looked-up values (src/web.rs:149 and src/web.rs:159) and `split_at` past the end of the buffer (src/web.rs:178).
- The `str::from_utf8(body).unwrap()` inside `debug!` (src/web.rs:185) runs only when debug logging is enabled. Logging is not modelled.
- Connection.ContinuationBody: `vec![0u8; content_len]` (src/web.rs:270) panics with a capacity overflow beyond `isize::MAX` bytes. That panic is modelled as `panicked` in `Connection.Replies`, and it ends the server, since the accept loop runs on the main thread. An allocation failure below that bound depends on the machine's memory and is not modelled.
- Connection.Serve: the socket reads are inputs, and the first read's length is at most the buffer size. The second read fills a prefix of the body buffer. Failed writes and reads (their `unwrap`) are not modelled.
- TLS configuration and PEM loading (src/web.rs:201-243) are not modelled: they are file I/O and `rustls`.
- The TCP listener, the accept loop around the exchange, the TLS session and all logging macros are not modelled.
- `src/main.rs` is process start-up only and is not part of this model.
- `usize` is taken to be 64 bits wide, as on the targets the server is built for.
