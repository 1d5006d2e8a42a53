/** ASCII text as bytes, and the decimal rendering Rust's `{}` gives an unsigned integer. */
module Text {
  import opened Http

  /** A string of ASCII characters as its bytes. */
  function Ascii(s: string): (b: seq<byte>)
    requires forall i :: 0 <= i < |s| ==> s[i] < 128 as char
    ensures |b| == |s|
    ensures forall i :: 0 <= i < |s| ==> b[i] as int == s[i] as int
  {
    seq(|s|, i requires 0 <= i < |s| => s[i] as int as byte)
  }

  /** The decimal digits of `n`, most significant first, without leading zeros. */
  function Decimal(n: nat): (d: seq<byte>)
    ensures 1 <= |d|
    ensures forall i :: 0 <= i < |d| ==> '0' as byte <= d[i] <= '9' as byte
    ensures d[0] == '0' as byte ==> n == 0
  {
    if n < 10 then [('0' as int + n) as byte] else Decimal(n / 10) + [('0' as int + n % 10) as byte]
  }

  /** The value of a string of decimal digits. */
  function DigitsValue(d: seq<byte>): nat
    requires forall i :: 0 <= i < |d| ==> '0' as byte <= d[i] <= '9' as byte
  {
    if d == [] then 0 else 10 * DigitsValue(d[..|d| - 1]) + (d[|d| - 1] as int - '0' as int)
  }

  /** Reading back the rendering gives the number: what a client parses out of a
      `Content-Range` line is what the server meant. */
  lemma {:induction false} DecimalRoundTrip(n: nat)
    ensures DigitsValue(Decimal(n)) == n
  {
    if n >= 10 {
      var d := Decimal(n);
      assert d[..|d| - 1] == Decimal(n / 10);
      DecimalRoundTrip(n / 10);
    }
  }

  /** The examples the multipart unit test renders. */
  lemma DecimalExamples()
    ensures Decimal(0) == ['0' as byte] && Decimal(1) == ['1' as byte] && Decimal(3) == ['3' as byte]
    ensures Decimal(4) == ['4' as byte]
    ensures Decimal(240) == ['2' as byte, '4' as byte, '0' as byte]
  {
    assert Decimal(24) == ['2' as byte, '4' as byte];
  }
}
