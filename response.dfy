/**
 * The response `format!("{status_line}\r\nContent-Length: {length}\r\n\r\n{contents}")`
 * (src/main.rs lines 65-69): a status line, one header field and the body, framed
 * as in section 2.1 of RFC 9112, and the reading of such a message that undoes it.
 */
module Response {
  import opened Wrappers
  import opened Bytes
  import opened Utf8
  import opened Decimal

  const CONTENT_LENGTH: seq<byte> := Ascii("Content-Length: ")

  /** The empty line that ends the header section: the CRLF of the last field, then a CRLF. */
  const HEADER_END: seq<byte> := [CR, LF, CR, LF]

  /** Everything before the empty line: status line, CRLF, the Content-Length field. */
  function Head(statusLine: seq<byte>, body: seq<byte>): seq<byte> {
    statusLine + CRLF + CONTENT_LENGTH + DecimalDigits(|body|)
  }

  /** The bytes written back on the connection. */
  function FormatResponse(statusLine: seq<byte>, body: seq<byte>): (r: seq<byte>)
    ensures r == Head(statusLine, body) + HEADER_END + body
    ensures r[..|statusLine|] == statusLine
    ensures r[|r| - |body|..] == body
  {
    statusLine + CRLF + CONTENT_LENGTH + DecimalDigits(|body|) + CRLF + CRLF + body
  }

  /** What a client reads from a response: the status line, the Content-Length value and that many body bytes. */
  datatype ParsedResponse = ParsedResponse(statusLine: seq<byte>, contentLength: nat, body: seq<byte>)

  /**
   * Splits at the first empty line, takes the status line up to the first CRLF,
   * expects the one field `Content-Length: ` with 1*DIGIT (section 8.6 of RFC 9110),
   * and reads that many bytes of body (section 6.3 of RFC 9112); anything else is None.
   */
  function ParseResponse(msg: seq<byte>): (r: Option<ParsedResponse>)
    ensures r.Some? ==> r.value.statusLine <= msg
    ensures r.Some? ==> |r.value.body| == r.value.contentLength
  {
    match IndexOf(msg, HEADER_END)
    case None => None
    case Some(headEnd) =>
      var head := msg[..headEnd];
      var rest := msg[headEnd + |HEADER_END|..];
      match IndexOf(head, CRLF)
      case None => None
      case Some(eol) =>
        var field := head[eol + |CRLF|..];
        var n := |CONTENT_LENGTH|;
        if |field| > n && field[..n] == CONTENT_LENGTH && AllDigits(field[n..]) then
          var length := ParseDecimal(field[n..]);
          if length <= |rest| then
            Some(ParsedResponse(head[..eol], length, rest[..length]))
          else None
        else None
  }

  /** The only CRs in the head are the one ending the status line and none after it. */
  lemma HeadCarriageReturns(statusLine: seq<byte>, body: seq<byte>)
    requires CR !in statusLine
    ensures var head := Head(statusLine, body);
      && |head| > |statusLine| + 2
      && head[|statusLine|] == CR && head[|statusLine| + 2] != CR
      && forall k :: 0 <= k < |head| && k != |statusLine| ==> head[k] != CR
  {
    var head := Head(statusLine, body);
    var digits := DecimalDigits(|body|);
    assert head == statusLine + CRLF + CONTENT_LENGTH + digits;
    forall k | 0 <= k < |head| && k != |statusLine|
      ensures head[k] != CR
    {
      if k < |statusLine| {
        assert head[k] == statusLine[k];
      } else if k == |statusLine| + 1 {
        assert head[k] == LF;
      } else if k < |statusLine| + 2 + |CONTENT_LENGTH| {
        assert head[k] == CONTENT_LENGTH[k - |statusLine| - 2];
      } else {
        assert head[k] == digits[k - |statusLine| - 2 - |CONTENT_LENGTH|];
      }
    }
  }

  /** The empty line that ends the head is the first one in the response, whatever the body holds. */
  lemma HeaderEndIsFirst(statusLine: seq<byte>, body: seq<byte>)
    requires CR !in statusLine
    ensures IndexOf(FormatResponse(statusLine, body), HEADER_END) == Some(|Head(statusLine, body)|)
  {
    var head := Head(statusLine, body);
    var msg := FormatResponse(statusLine, body);
    HeadCarriageReturns(statusLine, body);
    assert msg[|head|..|head| + 4] == HEADER_END;
    forall k | 0 <= k < |head|
      ensures !OccursAt(msg, HEADER_END, k)
    {
      if k + 4 <= |msg| {
        var window := msg[k..k + 4];
        if k == |statusLine| {
          assert window[2] == msg[k + 2] == head[k + 2] != CR;
        } else {
          assert window[0] == msg[k] == head[k] != CR;
        }
      }
    }
    IndexOfFirstOccurrence(msg, HEADER_END, |head|);
  }

  /** The status line ends at the first CRLF of the head. */
  lemma StatusLineEndIsFirst(statusLine: seq<byte>, body: seq<byte>)
    requires CR !in statusLine
    ensures IndexOf(Head(statusLine, body), CRLF) == Some(|statusLine|)
  {
    var head := Head(statusLine, body);
    HeadCarriageReturns(statusLine, body);
    assert head[|statusLine|..|statusLine| + 2] == CRLF;
    forall k | 0 <= k < |statusLine|
      ensures !OccursAt(head, CRLF, k)
    {
      assert head[k] != CR;
    }
    IndexOfFirstOccurrence(head, CRLF, |statusLine|);
  }

  /**
   * Reading a formatted response gives back its status line, a Content-Length
   * equal to the body's length in bytes, and the body unchanged, whatever bytes
   * the body holds, provided the status line has no CR.
   */
  lemma ResponseRoundTrip(statusLine: seq<byte>, body: seq<byte>)
    requires CR !in statusLine
    ensures ParseResponse(FormatResponse(statusLine, body)) == Some(ParsedResponse(statusLine, |body|, body))
  {
    var msg := FormatResponse(statusLine, body);
    var head := Head(statusLine, body);
    var digits := DecimalDigits(|body|);
    HeaderEndIsFirst(statusLine, body);
    StatusLineEndIsFirst(statusLine, body);
    assert msg[..|head|] == head;
    assert msg[|head| + |HEADER_END|..] == body;
    var field := head[|statusLine| + |CRLF|..];
    assert field == CONTENT_LENGTH + digits;
    assert field[..|CONTENT_LENGTH|] == CONTENT_LENGTH;
    assert field[|CONTENT_LENGTH|..] == digits;
    DecimalRoundTrip(|body|);
    assert head[..|statusLine|] == statusLine;
    assert body[..|body|] == body;
  }

  /** Two responses with CR-free status lines are equal only when status lines and bodies are. */
  lemma FormatResponseInjective(status1: seq<byte>, body1: seq<byte>, status2: seq<byte>, body2: seq<byte>)
    requires CR !in status1 && CR !in status2
    requires FormatResponse(status1, body1) == FormatResponse(status2, body2)
    ensures status1 == status2 && body1 == body2
  {
    ResponseRoundTrip(status1, body1);
    ResponseRoundTrip(status2, body2);
  }

  /** The response is a Rust `String`: valid UTF-8 when the status line and the body are. */
  lemma ResponseIsUtf8(statusLine: seq<byte>, body: seq<byte>)
    requires ValidUtf8(statusLine) && ValidUtf8(body)
    ensures ValidUtf8(FormatResponse(statusLine, body))
  {
    var digits := DecimalDigits(|body|);
    assert IsAscii(digits);
    AsciiIsValid(CRLF);
    AsciiIsValid(CONTENT_LENGTH);
    AsciiIsValid(digits);
    var a := statusLine + CRLF;
    ConcatIsValid(statusLine, CRLF);
    var b := a + CONTENT_LENGTH;
    ConcatIsValid(a, CONTENT_LENGTH);
    var c := b + digits;
    ConcatIsValid(b, digits);
    var d := c + CRLF;
    ConcatIsValid(c, CRLF);
    var e := d + CRLF;
    ConcatIsValid(d, CRLF);
    ConcatIsValid(e, body);
    assert FormatResponse(statusLine, body) == e + body;
  }
}
