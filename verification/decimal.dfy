/** Decimal rendering of non-negative integers, as Go's formatter writes them:
    fixed-width zero-padded fields (the time layout's "2006", "01", "05")
    and the minimal form of the "%d" verb, together with the digit reader
    that inverts both. */
module Decimal {

  predicate IsDigit(c: char) {
    '0' <= c <= '9'
  }

  predicate AllDigits(s: string) {
    forall i :: 0 <= i < |s| ==> IsDigit(s[i])
  }

  function DigitChar(d: nat): (c: char)
    requires d < 10
    ensures IsDigit(c)
  {
    ('0' as int + d) as char
  }

  function DigitValue(c: char): (d: nat)
    requires IsDigit(c)
    ensures d < 10 && DigitChar(d) == c
  {
    c as int - '0' as int
  }

  function Pow10(w: nat): (p: nat)
    ensures p >= 1
  {
    if w == 0 then 1 else 10 * Pow10(w - 1)
  }

  /** The number a string of decimal digits denotes, most significant first. */
  function DigitsValue(s: string): nat
    requires AllDigits(s)
  {
    if s == [] then 0 else DigitsValue(s[..|s| - 1]) * 10 + DigitValue(s[|s| - 1])
  }

  /** The w low-order decimal digits of n, zero-padded on the left. */
  function Pad(n: nat, w: nat): string
  {
    if w == 0 then "" else Pad(n / 10, w - 1) + [DigitChar(n % 10)]
  }

  /** Go's "%d" for a non-negative integer: no sign, no leading zero. */
  function NatToString(n: nat): string
  {
    if n < 10 then [DigitChar(n)] else NatToString(n / 10) + [DigitChar(n % 10)]
  }

  lemma {:induction false} PadLength(n: nat, w: nat)
    ensures |Pad(n, w)| == w
  {
    if w > 0 {
      PadLength(n / 10, w - 1);
    }
  }

  /** A padded field has exactly its width and reads back as n when n fits. */
  lemma {:induction false} PadRoundTrip(n: nat, w: nat)
    requires n < Pow10(w)
    ensures |Pad(n, w)| == w
    ensures AllDigits(Pad(n, w))
    ensures DigitsValue(Pad(n, w)) == n
  {
    if w > 0 {
      PadRoundTrip(n / 10, w - 1);
      var s := Pad(n, w);
      assert s[..|s| - 1] == Pad(n / 10, w - 1);
    }
  }

  /** "%d" reads back as the number it renders and has no leading zero. */
  lemma {:induction false} NatToStringRoundTrip(n: nat)
    ensures |NatToString(n)| >= 1
    ensures AllDigits(NatToString(n))
    ensures DigitsValue(NatToString(n)) == n
    ensures NatToString(n)[0] == '0' ==> n == 0
  {
    if n >= 10 {
      NatToStringRoundTrip(n / 10);
      var s := NatToString(n);
      assert s[..|s| - 1] == NatToString(n / 10);
    }
  }

  /** Different counts are rendered differently. */
  lemma NatToStringInjective(m: nat, n: nat)
    requires NatToString(m) == NatToString(n)
    ensures m == n
  {
    NatToStringRoundTrip(m);
    NatToStringRoundTrip(n);
  }
}
