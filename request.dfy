/**
 * Reading the request line: `BufReader::new(&stream).lines().next()` followed by
 * two `unwrap`s (src/main.rs line 47). `lines()` reads up to and including the
 * first LF, fails when those bytes are not UTF-8, yields nothing on an empty
 * stream, and strips the LF and then at most one CR before it.
 */
module Request {
  import opened Wrappers
  import opened Bytes
  import opened Utf8

  /** Why the request line could not be had; each one is a panic in an `unwrap`. */
  datatype ReadError =
    | NoRequestLine        // `next()` gave `None`: the stream was empty
    | RequestLineNotUtf8   // `next()` gave `Some(Err(InvalidData))`

  /** The bytes `read_until(b'\n')` takes: up to and including the first LF, or all of them if there is none. */
  function ReadUntilNewline(input: seq<byte>): (chunk: seq<byte>)
    ensures chunk <= input
    ensures forall i :: 0 <= i < |chunk| - 1 ==> chunk[i] != LF
    ensures LF in input ==> |chunk| > 0 && chunk[|chunk| - 1] == LF
    ensures LF !in input ==> chunk == input
  {
    if input == [] then []
    else if input[0] == LF then [LF]
    else [input[0]] + ReadUntilNewline(input[1..])
  }

  /** Removes a final LF and then, only if there was one, a single CR before it. */
  function StripLineEnding(chunk: seq<byte>): (line: seq<byte>)
    ensures line <= chunk
  {
    if |chunk| > 0 && chunk[|chunk| - 1] == LF then
      var withoutLf := chunk[..|chunk| - 1];
      if |withoutLf| > 0 && withoutLf[|withoutLf| - 1] == CR then withoutLf[..|withoutLf| - 1]
      else withoutLf
    else chunk
  }

  /** Stripping the line ending leaves valid UTF-8 valid. */
  lemma StripLineEndingKeepsUtf8(chunk: seq<byte>)
    requires ValidUtf8(chunk)
    ensures ValidUtf8(StripLineEnding(chunk))
  {
    if |chunk| > 0 && chunk[|chunk| - 1] == LF {
      var withoutLf := chunk[..|chunk| - 1];
      assert chunk == withoutLf + [LF];
      DropTrailingAscii(withoutLf, LF);
      if |withoutLf| > 0 && withoutLf[|withoutLf| - 1] == CR {
        var withoutCr := withoutLf[..|withoutLf| - 1];
        assert withoutLf == withoutCr + [CR];
        DropTrailingAscii(withoutCr, CR);
      }
    }
  }

  /** The first line of the request, or why there is none. */
  function FirstLine(input: seq<byte>): (r: Result<seq<byte>, ReadError>)
    ensures r == Failure(NoRequestLine) <==> input == []
    ensures r.Success? ==> r.value <= input && LF !in r.value
  {
    var chunk := ReadUntilNewline(input);
    if chunk == [] then Failure(NoRequestLine)
    else if !ValidUtf8(chunk) then Failure(RequestLineNotUtf8)
    else Success(StripLineEnding(chunk))
  }

  /** A request line that is read is a Rust `String`: valid UTF-8. */
  lemma FirstLineIsUtf8(input: seq<byte>)
    requires FirstLine(input).Success?
    ensures ValidUtf8(FirstLine(input).value)
  {
    StripLineEndingKeepsUtf8(ReadUntilNewline(input));
  }

  /** Reading stops at the first LF: the bytes after it are never looked at. */
  lemma {:induction false} ReadUntilNewlineStops(line: seq<byte>, rest: seq<byte>)
    requires LF !in line
    ensures ReadUntilNewline(line + [LF] + rest) == line + [LF]
  {
    if line != [] {
      assert (line + [LF] + rest)[1..] == line[1..] + [LF] + rest;
      ReadUntilNewlineStops(line[1..], rest);
    }
  }

  /** The first line of a stream with an LF is the stripped chunk up to that LF, if it is UTF-8. */
  lemma FirstLineOfTerminated(lineEnd: seq<byte>, rest: seq<byte>)
    requires LF !in lineEnd
    ensures FirstLine(lineEnd + [LF] + rest) ==
      if ValidUtf8(lineEnd + [LF]) then Success(StripLineEnding(lineEnd + [LF]))
      else Failure(RequestLineNotUtf8)
  {
    ReadUntilNewlineStops(lineEnd, rest);
  }

  /** Only the first line is examined: what follows its LF does not change the result. */
  lemma FirstLineIgnoresRest(line: seq<byte>, rest: seq<byte>)
    requires LF !in line
    ensures FirstLine(line + [LF] + rest) == FirstLine(line + [LF])
  {
    ReadUntilNewlineStops(line, rest);
    ReadUntilNewlineStops(line, []);
    assert line + [LF] + [] == line + [LF];
  }

  /** A CRLF-terminated line is read without its CRLF, even when the line itself ends in CR. */
  lemma FirstLineOfCrlfLine(line: seq<byte>, rest: seq<byte>)
    requires LF !in line && ValidUtf8(line)
    ensures FirstLine(line + CRLF + rest) == Success(line)
  {
    var lineCr := line + [CR];
    assert line + CRLF + rest == lineCr + [LF] + rest;
    assert lineCr + [LF] == line + CRLF;
    FirstLineOfTerminated(lineCr, rest);
    CrlfKeepsUtf8(line);
    StripCrlf(line);
  }

  /** Appending CRLF to valid UTF-8 keeps it valid. */
  lemma CrlfKeepsUtf8(line: seq<byte>)
    requires ValidUtf8(line)
    ensures ValidUtf8(line + CRLF)
  {
    AsciiIsValid(CRLF);
    ConcatIsValid(line, CRLF);
  }

  /** Stripping a CRLF ending removes exactly those two bytes. */
  lemma StripCrlf(line: seq<byte>)
    ensures StripLineEnding(line + CRLF) == line
  {
    var chunk := line + CRLF;
    assert chunk[..|chunk| - 1] == line + [CR];
    assert (line + [CR])[..|line|] == line;
  }

  /** A line ended by a bare LF is read without the LF. */
  lemma FirstLineOfLfLine(line: seq<byte>, rest: seq<byte>)
    requires LF !in line && ValidUtf8(line)
    requires line == [] || line[|line| - 1] != CR
    ensures FirstLine(line + [LF] + rest) == Success(line)
  {
    FirstLineOfTerminated(line, rest);
    LfKeepsUtf8(line);
    StripLf(line);
  }

  /** Appending LF to valid UTF-8 keeps it valid. */
  lemma LfKeepsUtf8(line: seq<byte>)
    requires ValidUtf8(line)
    ensures ValidUtf8(line + [LF])
  {
    AsciiIsValid([LF]);
    ConcatIsValid(line, [LF]);
  }

  /** Stripping a bare LF ending, with no CR before it, removes only the LF. */
  lemma StripLf(line: seq<byte>)
    requires line == [] || line[|line| - 1] != CR
    ensures StripLineEnding(line + [LF]) == line
  {
    assert (line + [LF])[..|line|] == line;
  }

  /**
   * At the end of the stream with no LF, the line is read as it is, a final CR
   * included, when it is UTF-8; otherwise reading it is the UTF-8 error.
   */
  lemma FirstLineAtEndOfStream(line: seq<byte>)
    requires line != [] && LF !in line
    ensures FirstLine(line) == if ValidUtf8(line) then Success(line) else Failure(RequestLineNotUtf8)
  {
  }

  /** A first line that is not UTF-8 is an error, whatever follows it. */
  lemma FirstLineNotUtf8(line: seq<byte>, rest: seq<byte>)
    requires LF !in line && !ValidUtf8(line)
    ensures FirstLine(line + [LF] + rest) == Failure(RequestLineNotUtf8)
  {
    FirstLineOfTerminated(line, rest);
    if ValidUtf8(line + [LF]) {
      DropTrailingAscii(line, LF);
    }
  }
}
