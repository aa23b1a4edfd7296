/** Byte strings as the server handles them, and decimal rendering of counters.
    A C++ std::string is a sequence of bytes; here every character of a
    ByteString has a code below 256 and stands for one byte. */
module Bytes {

  type Byte = c: char | c as int < 256 witness 'a'

  type ByteString = seq<Byte>

  datatype Option<+T> = None | Some(value: T)

  /** Index of the first `c` in `s`, or |s| when there is none. */
  function FirstIndexOf(s: ByteString, c: Byte): (k: nat)
    ensures k <= |s|
    ensures forall i :: 0 <= i < k ==> s[i] != c
    ensures k < |s| ==> s[k] == c
  {
    if s == [] then 0
    else if s[0] == c then 0
    else 1 + FirstIndexOf(s[1..], c)
  }

  predicate IsDigit(c: Byte) {
    '0' <= c <= '9'
  }

  function DigitChar(d: nat): (c: Byte)
    requires d < 10
    ensures IsDigit(c) && c as int - '0' as int == d
  {
    ('0' as int + d) as char
  }

  /** std::to_string of an unsigned counter: decimal digits, no leading zero. */
  function NatToDecimal(n: nat): (s: ByteString)
    ensures |s| >= 1
    ensures forall i :: 0 <= i < |s| ==> IsDigit(s[i])
    ensures |s| > 1 ==> s[0] != '0'
  {
    if n < 10 then [DigitChar(n)] else NatToDecimal(n / 10) + [DigitChar(n % 10)]
  }

  /** The value of a string of decimal digits. */
  function DecimalValue(s: ByteString): nat
    requires forall i :: 0 <= i < |s| ==> IsDigit(s[i])
  {
    if s == [] then 0
    else
      var last := s[|s| - 1];
      assert IsDigit(last);
      DecimalValue(s[..|s| - 1]) * 10 + (last as int - '0' as int)
  }

  /** Reading back the rendering of a counter gives the counter. */
  /** A non-empty string is its first byte followed by the rest. */
  lemma ConsAppend(s: ByteString, x: ByteString)
    requires s != []
    ensures [s[0]] + (s[1..] + x) == s + x
  {
    assert s == [s[0]] + s[1..];
  }

  /** A string starts with any prefix it was built from, and goes on with the rest. */
  lemma PrefixThen(p: ByteString, r: ByteString)
    ensures p <= p + r && (p + r)[|p|..] == r
  {
  }

  lemma {:induction false} DecimalRoundTrip(n: nat)
    ensures DecimalValue(NatToDecimal(n)) == n
  {
    var s := NatToDecimal(n);
    if n >= 10 {
      DecimalRoundTrip(n / 10);
      assert s[..|s| - 1] == NatToDecimal(n / 10);
    }
  }

  /** Distinct counters render as distinct strings. */
  lemma DecimalInjective(m: nat, n: nat)
    requires NatToDecimal(m) == NatToDecimal(n)
    ensures m == n
  {
    DecimalRoundTrip(m);
    DecimalRoundTrip(n);
  }
}
