/**
 * Well-formed UTF-8 (Unicode Standard, Table 3-7), the check Rust applies when
 * bytes become a `String`: in `read_line` and in `fs::read_to_string`.
 */
module Utf8 {
  import opened Bytes

  predicate IsContinuation(b: byte) {
    0x80 <= b <= 0xBF
  }

  /** How many bytes the scalar value led by `b` occupies; 0 when `b` cannot lead one. */
  function SequenceWidth(b: byte): nat {
    if b < 0x80 then 1
    else if 0xC2 <= b <= 0xDF then 2
    else if 0xE0 <= b <= 0xEF then 3
    else if 0xF0 <= b <= 0xF4 then 4
    else 0
  }

  /** The bytes after the lead byte lie in the ranges Table 3-7 allows for that lead byte. */
  predicate WellFormedScalar(s: seq<byte>)
    requires 1 <= |s| && |s| == SequenceWidth(s[0])
  {
    if |s| == 1 then true
    else if |s| == 2 then IsContinuation(s[1])
    else if |s| == 3 then
      (if s[0] == 0xE0 then 0xA0 <= s[1] <= 0xBF
       else if s[0] == 0xED then 0x80 <= s[1] <= 0x9F
       else IsContinuation(s[1]))
      && IsContinuation(s[2])
    else
      (if s[0] == 0xF0 then 0x90 <= s[1] <= 0xBF
       else if s[0] == 0xF4 then 0x80 <= s[1] <= 0x8F
       else IsContinuation(s[1]))
      && IsContinuation(s[2]) && IsContinuation(s[3])
  }

  /** `s` is a sequence of well-formed scalar encodings, the last one complete. */
  predicate ValidUtf8(s: seq<byte>)
    ensures ValidUtf8(s) && s != [] ==> !IsContinuation(s[0])
    decreases |s|
  {
    if s == [] then true
    else
      var w := SequenceWidth(s[0]);
      1 <= w <= |s| && WellFormedScalar(s[..w]) && ValidUtf8(s[w..])
  }

  /** Every ASCII byte sequence is valid UTF-8. */
  lemma {:induction false} AsciiIsValid(s: seq<byte>)
    requires IsAscii(s)
    ensures ValidUtf8(s)
  {
    if s != [] {
      assert s[1..] == s[SequenceWidth(s[0])..];
      AsciiIsValid(s[1..]);
    }
  }

  /** Concatenating two valid UTF-8 sequences gives a valid one. */
  lemma {:induction false} ConcatIsValid(a: seq<byte>, b: seq<byte>)
    requires ValidUtf8(a) && ValidUtf8(b)
    ensures ValidUtf8(a + b)
  {
    if a == [] {
      assert a + b == b;
    } else {
      var w := SequenceWidth(a[0]);
      assert (a + b)[0] == a[0];
      assert (a + b)[..w] == a[..w];
      assert (a + b)[w..] == a[w..] + b;
      ConcatIsValid(a[w..], b);
    }
  }

  /**
   * Removing a final ASCII byte keeps a sequence valid: an ASCII byte can only
   * end a scalar value of its own, never complete a multi-byte one.
   */
  lemma {:induction false} DropTrailingAscii(s: seq<byte>, x: byte)
    requires x < 0x80
    requires ValidUtf8(s + [x])
    ensures ValidUtf8(s)
  {
    if s != [] {
      var t := s + [x];
      var w := SequenceWidth(s[0]);
      assert t[0] == s[0];
      assert w <= |s|;
      assert t[..w] == s[..w];
      assert t[w..] == s[w..] + [x];
      DropTrailingAscii(s[w..], x);
    }
  }
}
