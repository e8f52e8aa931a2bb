# rust_webserver: the request-to-response step

This project models, in Dafny, what `handle_connection` in `src/main.rs` does to one TCP connection of
the small multi-threaded web server: it reads the request line, picks a status line and a page by an
exact match on that line, and writes back `status line CRLF "Content-Length: " length CRLF CRLF page`.
The model is a set of pure functions from the bytes the client sent (and the contents of the page
files) to the bytes written back, with lemmas about them.

- `Request` (request.dfy): the first line as Rust's `BufRead::lines().next()` yields it. The bytes up
  to and including the first LF are read. An empty stream gives no line, and the code panics. Bytes
  that are not UTF-8 give an error, and the code panics. Otherwise the LF is removed, then at most one
  CR before it. With no LF before the end of the stream, the whole rest is the line and a final CR is
  kept. So a request line has no LF, but it can still end in CR in two cases: the client closed the
  connection without an LF, or it sent two CRs before the LF (`...\r\r\n`), since only one is stripped.
- `Routing` (routing.dfy): `GET / HTTP/1.1` gives `HTTP/1.1 200 OK` with `pages/hello.html`.
  `GET /sleep HTTP/1.1` gives the same, after a 5-second sleep, kept as a delay. Every other line gives
  `HTTP/1.1 404 NOT FOUND` with `pages/404.html`. The match is byte equality of the whole line.
- `Response` (response.dfy): the `format!` of the response. `ParseResponse` reads such a message the
  way a client does: status line up to the first CRLF, a header section ended by the first empty line
  (section 2.1 of RFC 9112), a `Content-Length` of one or more digits (section 8.6 of RFC 9110), then
  that many body bytes. The round trip holds for every body, including bodies that contain CRLF CRLF.
- `Decimal` (decimal.dfy): how `format!` writes a `usize` length (base 10, no leading zero) and how it
  is read back.
- `Utf8` (utf8.dfy): well-formed UTF-8 (Unicode Table 3-7). Rust checks it when bytes become a
  `String`, in `read_line` and in `fs::read_to_string`.
- `Connection` (connection.dfy): `handle_connection` end to end. The page files are a
  `map<string, seq<byte>>`. The outcome is the delay plus either the response bytes or the failure at
  which the code panics.
- `Bytes` and `Wrappers` (bytes.dfy, wrappers.dfy): bytes, ASCII literals, pattern search,
  Option and Result.

## Model

| member | source | states |
|---|---|---|
| Request.ReadUntilNewline | src/main.rs:47 | the bytes read for the line are a prefix of the input, hold no LF except a final one, end in LF when the input has one, and are the whole input when it has none |
| Request.StripLineEnding | src/main.rs:47 | the line left after removing the line ending is a prefix of what was read |
| Request.StripLineEndingKeepsUtf8 | src/main.rs:47 | removing the LF and CR keeps a valid UTF-8 chunk valid, so the line is a `String` |
| Request.FirstLine | src/main.rs:43-47 | "no line" happens exactly for an empty stream; a line that is read is a prefix of the input and holds no LF |
| Request.FirstLineIsUtf8 | src/main.rs:47 | a line that is read is valid UTF-8, a Rust `String` |
| Request.ReadUntilNewlineStops | src/main.rs:47 | reading stops at the first LF, whatever follows it |
| Request.FirstLineOfTerminated | src/main.rs:47 | a stream with an LF gives the stripped chunk up to that LF if the chunk is UTF-8, else the UTF-8 error |
| Request.FirstLineIgnoresRest | src/main.rs:43-47 | bytes after the first LF never change the first line or the error |
| Request.FirstLineOfCrlfLine | src/main.rs:47 | a CRLF-terminated UTF-8 line is read exactly, without its CRLF |
| Request.CrlfKeepsUtf8 | src/main.rs:47 | valid UTF-8 followed by CRLF is still valid UTF-8 |
| Request.StripCrlf | src/main.rs:47 | stripping a CRLF ending removes exactly the CR and the LF |
| Request.LfKeepsUtf8 | src/main.rs:47 | valid UTF-8 followed by LF is still valid UTF-8 |
| Request.StripLf | src/main.rs:47 | stripping a bare LF with no CR before it removes only the LF |
| Request.FirstLineOfLfLine | src/main.rs:47 | a line ended by a bare LF is read without the LF |
| Request.FirstLineAtEndOfStream | src/main.rs:47 | with no LF, the whole stream is the line, a final CR included, when it is UTF-8; otherwise it is the UTF-8 error |
| Request.FirstLineNotUtf8 | src/main.rs:47 | a first line ended by LF that is not UTF-8 is an error whatever follows the LF (the case with no LF is in FirstLineAtEndOfStream) |
| Routing.Route | src/main.rs:50-60 | 200 exactly for the two routed lines and 404 for all others; 200 exactly when the page is hello.html, 404 exactly when it is 404.html; a 5-second delay exactly on `/sleep` |
| Routing.RouteRoot | src/main.rs:52 | `GET / HTTP/1.1` routes to exactly (200 OK, pages/hello.html) with no delay |
| Routing.RouteSleepLikeRoot | src/main.rs:54-57 | `GET /sleep HTTP/1.1` gets the same status line and page as `GET /`, after 5 seconds |
| Routing.RouteIsExact | src/main.rs:50-59 | another version, doubled space, lower case or a trailing space all give 404 |
| Routing.RequestLinesAreSingleLines | src/main.rs:52-54 | the two routed request lines hold no LF |
| Routing.StatusLinesAreSingleLines | src/main.rs:52-59 | every routed status line is ASCII with no CR and no LF |
| Decimal.DecimalDigits | src/main.rs:65-69 | the length is written as one or more digits, starting with '0' only for zero, and then as "0" alone |
| Decimal.DecimalRoundTrip | src/main.rs:65-69 | reading the written length gives the length back |
| Decimal.ParseDecimalPositive | src/main.rs:69 | digits without a leading zero read as a positive number |
| Decimal.ParseDecimalRoundTrip | src/main.rs:69 | digits without a leading zero are exactly how their value is written, so the rendering is canonical |
| Utf8.ValidUtf8 | src/main.rs:47-64 | the UTF-8 check of `read_line` and `fs::read_to_string`; a valid sequence never starts with a continuation byte |
| Utf8.AsciiIsValid | src/main.rs:47 | ASCII bytes are valid UTF-8 |
| Utf8.ConcatIsValid | src/main.rs:69 | joining valid UTF-8 sequences gives valid UTF-8 |
| Utf8.DropTrailingAscii | src/main.rs:47 | removing a final ASCII byte keeps valid UTF-8 valid |
| Response.FormatResponse | src/main.rs:65-69 | the response is the head, an empty line and the body; it starts with the status line and ends with the body |
| Response.ParseResponse | src/main.rs:69 | a parsed status line is a prefix of the message, and the body read has exactly Content-Length bytes |
| Response.HeadCarriageReturns | src/main.rs:69 | the only CR in the head is the one after the status line, and it is not followed by CR LF |
| Response.HeaderEndIsFirst | src/main.rs:69 | the first CRLF CRLF in the response is the one after the Content-Length field, whatever the body holds |
| Response.StatusLineEndIsFirst | src/main.rs:69 | the status line ends at the first CRLF of the head |
| Response.ResponseRoundTrip | src/main.rs:65-69 | reading a response gives back the status line, a Content-Length equal to the body's byte length, and the body unchanged |
| Response.FormatResponseInjective | src/main.rs:69 | different status lines or bodies give different responses |
| Response.ResponseIsUtf8 | src/main.rs:69 | the response is valid UTF-8 when the status line and the body are |
| Connection.ReadToString | src/main.rs:64 | reading a page succeeds exactly when the file exists and is UTF-8, and gives its bytes; otherwise it names the missing or non-UTF-8 file |
| Connection.HandleConnection | src/main.rs:41-74 | the empty-stream panic happens exactly for an empty request; there is a delay exactly when the first line is `GET /sleep HTTP/1.1`; a response is written only when a first line was read |
| Connection.EmptyRequestFails | src/main.rs:47 | an empty stream panics at once, with no delay |
| Connection.HandleConnectionIgnoresRest | src/main.rs:43-47 | the bytes after the first LF never change the exchange |
| Connection.HandleReadLine | src/main.rs:47-69 | once a request line is read, however it ended, the exchange is the routed delay and the routed page framed under the routed status line |
| Connection.HandleRootRequest | src/main.rs:47-69 | `GET / HTTP/1.1` CRLF answers at once with 200 OK and the hello page |
| Connection.HandleSleepRequest | src/main.rs:54-69 | `GET /sleep HTTP/1.1` CRLF answers with the same response after 5 seconds |
| Connection.HandleOtherRequest | src/main.rs:59-69 | any other UTF-8 request line answers at once with 404 NOT FOUND and the 404 page |
| Connection.ResponseIsWellFramed | src/main.rs:50-69 | every written response reads back as the routed status line, the page's byte length and the page, and is valid UTF-8 |
| Connection.MissingPageFails | src/main.rs:64 | a missing page panics after routing and after the delay |

## Left out

- The thread pool in src/lib.rs (`ThreadPool::new`, `execute`, `Worker` and its receive loop). Its whole point is concurrency over `mpsc` and `Mutex`, whose semantics are not modelled.
- `main` (src/main.rs:13-29): binding the listener and the accept loop are network I/O.
- Socket I/O: the request is the finite byte sequence the client sends. Read errors other than bad UTF-8 are not modelled, and neither are `write_all` and its failure (src/main.rs:73).
- A client that sends no LF and never closes: the request is a finite byte sequence, so the model cannot express the read at src/main.rs:47 blocking its worker forever (four such clients stall the four-worker pool).
- The sleep itself (src/main.rs:55): only its length is kept, as `delaySeconds`. Timing and interleaving with other connections are not modelled.
- The file system: pages are a map from path to bytes. A missing entry stands for any error from `fs::read_to_string` other than bad UTF-8.
- `usize` width of the length: lengths are unbounded naturals. A page longer than `usize::MAX` cannot be held in memory anyway.
