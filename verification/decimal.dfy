/**
 * Decimal numerals as Go's `%d` verb prints an `int`, and the reading of
 * them back, which is the partner that every formatted number is checked
 * against.
 */
module Decimal {

  predicate IsDigit(c: char) {
    '0' <= c <= '9'
  }

  function DigitChar(d: nat): (c: char)
    requires d < 10
    ensures IsDigit(c)
  {
    (48 + d) as char
  }

  function DigitValue(c: char): (d: nat)
    requires IsDigit(c)
    ensures d < 10
  {
    c as int - 48
  }

  /** A non-empty run of decimal digits. */
  predicate IsNumeral(s: string) {
    |s| > 0 && forall i | 0 <= i < |s| :: IsDigit(s[i])
  }

  /** A numeral, possibly preceded by a minus sign. */
  predicate IsSignedNumeral(s: string) {
    IsNumeral(s) || (|s| > 1 && s[0] == '-' && IsNumeral(s[1..]))
  }

  /** The digits of a natural number, most significant first, with no leading zero. */
  function NatToDec(n: nat): (r: string)
    ensures IsNumeral(r)
    ensures |r| > 1 ==> r[0] != '0'
    decreases n
  {
    if n < 10 then [DigitChar(n)] else NatToDec(n / 10) + [DigitChar(n % 10)]
  }

  /** `fmt.Sprintf("%d", i)`. */
  function IntToDec(i: int): (r: string)
    ensures IsSignedNumeral(r)
  {
    if i < 0 then "-" + NatToDec(-i) else NatToDec(i)
  }

  /** The value of a run of digits. */
  function ParseNat(s: string): nat
    requires forall i | 0 <= i < |s| :: IsDigit(s[i])
    decreases |s|
  {
    if |s| == 0 then 0 else ParseNat(s[..|s| - 1]) * 10 + DigitValue(s[|s| - 1])
  }

  /** The value of a signed numeral. */
  function ParseInt(s: string): int
    requires IsSignedNumeral(s)
  {
    if IsNumeral(s) then ParseNat(s) as int else -(ParseNat(s[1..]) as int)
  }

  /** Reading the digits of `n` gives `n` back. */
  lemma {:induction false} NatRoundTrip(n: nat)
    ensures ParseNat(NatToDec(n)) == n
    decreases n
  {
    var s := NatToDec(n);
    if n >= 10 {
      NatRoundTrip(n / 10);
      assert s[..|s| - 1] == NatToDec(n / 10);
      assert DigitValue(s[|s| - 1]) == n % 10;
    } else {
      assert s[..0] == "";
    }
  }

  /** Reading what `%d` prints gives the integer back. */
  lemma IntRoundTrip(i: int)
    ensures ParseInt(IntToDec(i)) == i
  {
    var s := IntToDec(i);
    if i < 0 {
      assert s[1..] == NatToDec(-i);
      NatRoundTrip(-i);
    } else {
      assert s[0] != '-';
      NatRoundTrip(i);
    }
  }
}
