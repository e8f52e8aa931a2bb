/**
 * Decimal rendering of a length, as Rust's `Display` for `usize` writes it
 * inside `format!`, and the reading of a Content-Length value (section 8.6 of
 * RFC 9110: one or more digits) that undoes it.
 */
module Decimal {
  import opened Bytes

  const ZERO: byte := 48

  predicate IsDigit(b: byte) {
    ZERO <= b <= ZERO + 9
  }

  predicate AllDigits(s: seq<byte>) {
    forall i :: 0 <= i < |s| ==> IsDigit(s[i])
  }

  /** Base 10, no sign, no leading zero: "0" is the only rendering that starts with '0'. */
  function DecimalDigits(n: nat): (r: seq<byte>)
    ensures 1 <= |r| && AllDigits(r)
    ensures r[0] == ZERO <==> n == 0
    ensures r[0] == ZERO ==> |r| == 1
  {
    if n < 10 then [ZERO + n as byte]
    else DecimalDigits(n / 10) + [ZERO + (n % 10) as byte]
  }

  /** The value of a string of decimal digits, most significant first. */
  function ParseDecimal(s: seq<byte>): nat
    requires AllDigits(s)
  {
    if s == [] then 0
    else ParseDecimal(s[..|s| - 1]) * 10 + (s[|s| - 1] - ZERO) as nat
  }

  /** Reading back a rendered length gives the length. */
  lemma {:induction false} DecimalRoundTrip(n: nat)
    ensures ParseDecimal(DecimalDigits(n)) == n
  {
    if n >= 10 {
      var r := DecimalDigits(n);
      assert r[..|r| - 1] == DecimalDigits(n / 10);
      DecimalRoundTrip(n / 10);
    }
  }

  /** A digit string with no leading zero reads as a positive number. */
  lemma {:induction false} ParseDecimalPositive(s: seq<byte>)
    requires 1 <= |s| && AllDigits(s) && s[0] != ZERO
    ensures ParseDecimal(s) >= 1
  {
    if |s| > 1 {
      ParseDecimalPositive(s[..|s| - 1]);
    }
  }

  /** A digit string with no leading zero is the rendering of the number it reads as. */
  lemma {:induction false} ParseDecimalRoundTrip(s: seq<byte>)
    requires 1 <= |s| && AllDigits(s)
    requires s[0] == ZERO ==> |s| == 1
    ensures DecimalDigits(ParseDecimal(s)) == s
  {
    if |s| > 1 {
      var front := s[..|s| - 1];
      ParseDecimalPositive(front);
      ParseDecimalRoundTrip(front);
      var n := ParseDecimal(s);
      var d := (s[|s| - 1] - ZERO) as nat;
      assert n == ParseDecimal(front) * 10 + d;
      assert n / 10 == ParseDecimal(front) && n % 10 == d;
      assert s == front + [s[|s| - 1]];
    }
  }
}
