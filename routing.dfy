/**
 * The `match` on the request line (src/main.rs lines 50-60): exact equality
 * with two request lines, everything else is "not found".
 */
module Routing {
  import opened Bytes

  const ROOT_REQUEST: seq<byte> := Ascii("GET / HTTP/1.1")
  const SLEEP_REQUEST: seq<byte> := Ascii("GET /sleep HTTP/1.1")

  const STATUS_OK: seq<byte> := Ascii("HTTP/1.1 200 OK")
  const STATUS_NOT_FOUND: seq<byte> := Ascii("HTTP/1.1 404 NOT FOUND")

  const HELLO_PAGE: string := "pages/hello.html"
  const NOT_FOUND_PAGE: string := "pages/404.html"

  /** `thread::sleep(Duration::from_secs(5))` on the slow route. */
  const SLEEP_SECONDS: nat := 5

  /** The outcome of routing: the status line, the file to serve, and how long the worker sleeps first. */
  datatype Routing = Routing(statusLine: seq<byte>, filename: string, delaySeconds: nat)

  function Route(requestLine: seq<byte>): (r: Routing)
    ensures r.statusLine == STATUS_OK <==> requestLine == ROOT_REQUEST || requestLine == SLEEP_REQUEST
    ensures r.statusLine == STATUS_NOT_FOUND <==> requestLine != ROOT_REQUEST && requestLine != SLEEP_REQUEST
    ensures r.statusLine == STATUS_OK <==> r.filename == HELLO_PAGE
    ensures r.statusLine == STATUS_NOT_FOUND <==> r.filename == NOT_FOUND_PAGE
    ensures r.delaySeconds == (if requestLine == SLEEP_REQUEST then SLEEP_SECONDS else 0)
  {
    if requestLine == ROOT_REQUEST then Routing(STATUS_OK, HELLO_PAGE, 0)
    else if requestLine == SLEEP_REQUEST then Routing(STATUS_OK, HELLO_PAGE, SLEEP_SECONDS)
    else Routing(STATUS_NOT_FOUND, NOT_FOUND_PAGE, 0)
  }

  /** `GET /` is served the hello page with 200 OK, at once. */
  lemma RouteRoot()
    ensures Route(ROOT_REQUEST) == Routing(STATUS_OK, HELLO_PAGE, 0)
  {
    assert ROOT_REQUEST != SLEEP_REQUEST by { assert |ROOT_REQUEST| != |SLEEP_REQUEST|; }
  }

  /** `GET /sleep` is served exactly what `GET /` is; only the delay differs. */
  lemma RouteSleepLikeRoot()
    ensures Route(SLEEP_REQUEST).statusLine == Route(ROOT_REQUEST).statusLine
    ensures Route(SLEEP_REQUEST).filename == Route(ROOT_REQUEST).filename
    ensures Route(SLEEP_REQUEST).delaySeconds == SLEEP_SECONDS
  {
    assert ROOT_REQUEST != SLEEP_REQUEST by { assert |ROOT_REQUEST| != |SLEEP_REQUEST|; }
  }

  /** The match is on the whole line: a different version, spacing or case is not found. */
  lemma RouteIsExact()
    ensures Route(Ascii("GET / HTTP/1.0")).statusLine == STATUS_NOT_FOUND
    ensures Route(Ascii("GET /  HTTP/1.1")).statusLine == STATUS_NOT_FOUND
    ensures Route(Ascii("get / HTTP/1.1")).filename == NOT_FOUND_PAGE
    ensures Route(Ascii("GET / HTTP/1.1 ")).filename == NOT_FOUND_PAGE
  {
    assert Ascii("GET / HTTP/1.0")[13] != ROOT_REQUEST[13];
    assert Ascii("get / HTTP/1.1")[0] != ROOT_REQUEST[0];
  }

  /** The two routed request lines hold no LF, so each can be the first line of a request. */
  lemma RequestLinesAreSingleLines()
    ensures LF !in ROOT_REQUEST && LF !in SLEEP_REQUEST
  {
    assert forall i :: 0 <= i < |SLEEP_REQUEST| ==> SLEEP_REQUEST[i] >= 32;
  }

  /** No status line holds a CR or an LF, so it is one line of the response. */
  lemma StatusLinesAreSingleLines(requestLine: seq<byte>)
    ensures IsAscii(Route(requestLine).statusLine)
    ensures CR !in Route(requestLine).statusLine && LF !in Route(requestLine).statusLine
  {
  }
}
