/** The `%#x` verb of Go's fmt package applied to a non-negative integer:
    "0x" followed by the number in lower-case hexadecimal, without leading
    zeros ("0x0" for zero). The editor uses it to name a rejected key in
    its tip. */
module Hex {

  const HexDigits: string := "0123456789abcdef"

  /** The lower-case hexadecimal digits of n, most significant first. */
  function Digits(n: nat): (s: string)
    ensures |s| >= 1
    ensures forall i :: 0 <= i < |s| ==> s[i] in HexDigits
    ensures s[0] == '0' <==> n == 0
    decreases n
  {
    if n < 16 then [HexDigits[n]] else Digits(n / 16) + [HexDigits[n % 16]]
  }

  /** `fmt.Sprintf("%#x", n)`. */
  function AlternateHex(n: nat): (s: string)
    ensures |s| >= 3 && s[..2] == "0x"
  {
    "0x" + Digits(n)
  }

  /** The value of one hexadecimal digit. */
  function DigitValue(c: char): nat {
    if '0' <= c <= '9' then c as int - '0' as int
    else if 'a' <= c <= 'f' then c as int - 'a' as int + 10
    else 0
  }

  /** The number a string of hexadecimal digits denotes. */
  function Value(s: string): nat {
    if s == [] then 0 else Value(s[..|s| - 1]) * 16 + DigitValue(s[|s| - 1])
  }

  lemma DigitRoundTrip(d: nat)
    requires d < 16
    ensures DigitValue(HexDigits[d]) == d
  {
  }

  /** Reading the digits back gives n: the text names the number exactly. */
  lemma {:induction false} ValueOfDigits(n: nat)
    ensures Value(Digits(n)) == n
    decreases n
  {
    DigitRoundTrip(n % 16);
    if n >= 16 {
      var s := Digits(n);
      ValueOfDigits(n / 16);
      assert s[..|s| - 1] == Digits(n / 16);
    }
  }

  /** The text after "0x" names n exactly. */
  lemma AlternateHexNames(n: nat)
    ensures Value(AlternateHex(n)[2..]) == n
  {
    assert AlternateHex(n)[2..] == Digits(n);
    ValueOfDigits(n);
  }
}
