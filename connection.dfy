/**
 * `handle_connection` (src/main.rs lines 41-74) from the bytes the client sent
 * to the bytes written back. The files under `pages/` are a map from path to
 * contents; the sleep is reported as a delay; each `unwrap` that can panic is
 * a Panic.
 */
module Connection {
  import opened Wrappers
  import opened Bytes
  import opened Utf8
  import opened Request
  import opened Routing
  import opened Response

  /** Why a connection got no response: the `unwrap` that panics. */
  datatype Panic =
    | BadRequestLine(reason: ReadError)   // line 47
    | FileUnreadable(path: string)         // line 64: no such file
    | FileNotUtf8(path: string)            // line 64: `read_to_string` rejects non-UTF-8 contents

  /** What one connection does: sleep for `delaySeconds`, then write the response or panic. */
  datatype Exchange = Exchange(delaySeconds: nat, outcome: Result<seq<byte>, Panic>)

  /** `fs::read_to_string(path).unwrap()`: the file's bytes, which must be UTF-8. */
  function ReadToString(files: map<string, seq<byte>>, path: string): (r: Result<seq<byte>, Panic>)
    ensures r.Success? <==> path in files && ValidUtf8(files[path])
    ensures r.Success? ==> r.value == files[path]
    ensures r.Failure? && path !in files ==> r.error == FileUnreadable(path)
    ensures r.Failure? && path in files ==> r.error == FileNotUtf8(path)
  {
    if path !in files then Failure(FileUnreadable(path))
    else if !ValidUtf8(files[path]) then Failure(FileNotUtf8(path))
    else Success(files[path])
  }

  function HandleConnection(request: seq<byte>, files: map<string, seq<byte>>): (r: Exchange)
    ensures r.outcome == Failure(BadRequestLine(NoRequestLine)) <==> request == []
    ensures r.delaySeconds > 0 <==> FirstLine(request) == Success(SLEEP_REQUEST)
    ensures r.outcome.Success? ==> FirstLine(request).Success?
  {
    match FirstLine(request)
    case Failure(e) => Exchange(0, Failure(BadRequestLine(e)))
    case Success(line) =>
      var routing := Route(line);
      var outcome :=
        match ReadToString(files, routing.filename)
        case Failure(e) => Failure(e)
        case Success(contents) => Success(FormatResponse(routing.statusLine, contents));
      Exchange(routing.delaySeconds, outcome)
  }

  /** An empty stream panics at once, before any routing or sleep. */
  lemma EmptyRequestFails(files: map<string, seq<byte>>)
    ensures HandleConnection([], files) == Exchange(0, Failure(BadRequestLine(NoRequestLine)))
  {
  }

  /** Only the first line decides the exchange: bytes after its LF change nothing. */
  lemma HandleConnectionIgnoresRest(line: seq<byte>, rest: seq<byte>, files: map<string, seq<byte>>)
    requires LF !in line
    ensures HandleConnection(line + [LF] + rest, files) == HandleConnection(line + [LF], files)
  {
    FirstLineIgnoresRest(line, rest);
  }

  /**
   * Once a request line has been read, however it was ended (CRLF, bare LF or
   * end of stream), the exchange is the routed delay and the routed page
   * framed under the routed status line.
   */
  lemma HandleReadLine(request: seq<byte>, line: seq<byte>, files: map<string, seq<byte>>)
    requires FirstLine(request) == Success(line)
    requires Route(line).filename in files && ValidUtf8(files[Route(line).filename])
    ensures HandleConnection(request, files)
         == Exchange(Route(line).delaySeconds,
                     Success(FormatResponse(Route(line).statusLine, files[Route(line).filename])))
  {
  }

  /** `GET / HTTP/1.1` answers at once with 200 OK and the hello page. */
  lemma HandleRootRequest(rest: seq<byte>, files: map<string, seq<byte>>)
    requires HELLO_PAGE in files && ValidUtf8(files[HELLO_PAGE])
    ensures HandleConnection(ROOT_REQUEST + CRLF + rest, files)
         == Exchange(0, Success(FormatResponse(STATUS_OK, files[HELLO_PAGE])))
  {
    AsciiIsValid(ROOT_REQUEST);
    RequestLinesAreSingleLines();
    FirstLineOfCrlfLine(ROOT_REQUEST, rest);
    RouteRoot();
  }

  /** `GET /sleep HTTP/1.1` answers with the same response as `GET /`, after five seconds. */
  lemma HandleSleepRequest(rest: seq<byte>, files: map<string, seq<byte>>)
    requires HELLO_PAGE in files && ValidUtf8(files[HELLO_PAGE])
    ensures HandleConnection(SLEEP_REQUEST + CRLF + rest, files)
         == Exchange(SLEEP_SECONDS, Success(FormatResponse(STATUS_OK, files[HELLO_PAGE])))
  {
    AsciiIsValid(SLEEP_REQUEST);
    RequestLinesAreSingleLines();
    FirstLineOfCrlfLine(SLEEP_REQUEST, rest);
  }

  /** Any other UTF-8 request line answers at once with 404 NOT FOUND and the 404 page. */
  lemma HandleOtherRequest(line: seq<byte>, rest: seq<byte>, files: map<string, seq<byte>>)
    requires LF !in line && ValidUtf8(line)
    requires line != ROOT_REQUEST && line != SLEEP_REQUEST
    requires NOT_FOUND_PAGE in files && ValidUtf8(files[NOT_FOUND_PAGE])
    ensures HandleConnection(line + CRLF + rest, files)
         == Exchange(0, Success(FormatResponse(STATUS_NOT_FOUND, files[NOT_FOUND_PAGE])))
  {
    FirstLineOfCrlfLine(line, rest);
  }

  /**
   * Whenever a response is written, a client reading it finds the routed status
   * line, a Content-Length equal to the page's size in bytes, and the page itself;
   * and the response is valid UTF-8.
   */
  lemma ResponseIsWellFramed(request: seq<byte>, files: map<string, seq<byte>>)
    requires HandleConnection(request, files).outcome.Success?
    ensures FirstLine(request).Success?
    ensures var routing := Route(FirstLine(request).value);
      && routing.filename in files
      && var page := files[routing.filename];
      && var response := HandleConnection(request, files).outcome.value;
      && ParseResponse(response) == Some(ParsedResponse(routing.statusLine, |page|, page))
      && ValidUtf8(response)
  {
    var routing := Route(FirstLine(request).value);
    var page := files[routing.filename];
    StatusLinesAreSingleLines(FirstLine(request).value);
    ResponseRoundTrip(routing.statusLine, page);
    AsciiIsValid(routing.statusLine);
    ResponseIsUtf8(routing.statusLine, page);
  }

  /** A missing page is a panic after routing (and after the sleep on the slow route). */
  lemma MissingPageFails(request: seq<byte>, files: map<string, seq<byte>>)
    requires FirstLine(request).Success?
    requires Route(FirstLine(request).value).filename !in files
    ensures var routing := Route(FirstLine(request).value);
      HandleConnection(request, files) == Exchange(routing.delaySeconds, Failure(FileUnreadable(routing.filename)))
  {
  }
}
