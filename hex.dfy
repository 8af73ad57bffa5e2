/**
 * `Number.prototype.toString(16)` on non-negative integers, and its inverse.
 */
module Hex {
  import Text

  const DIGITS: string := "0123456789abcdef"

  predicate IsLowerHexDigit(c: char)
  {
    '0' <= c <= '9' || 'a' <= c <= 'f'
  }

  predicate IsLowerHex(s: string)
  {
    forall i :: 0 <= i < |s| ==> IsLowerHexDigit(s[i])
  }

  function Digit(d: nat): (c: char)
    requires d < 16
    ensures IsLowerHexDigit(c)
  {
    DIGITS[d]
  }

  function DigitValue(c: char): (d: nat)
    requires IsLowerHexDigit(c)
    ensures d < 16
    ensures Digit(d) == c
  {
    if c <= '9' then c as int - '0' as int else c as int - 'a' as int + 10
  }

  lemma DigitRoundTrip(d: nat)
    requires d < 16
    ensures DigitValue(Digit(d)) == d
  {
  }

  /**
   * `n.toString(16)`: lower-case digits, most significant first, with no
   * leading zero except for `n == 0` itself.
   */
  function ToHex(n: nat): (s: string)
    ensures |s| >= 1
    ensures IsLowerHex(s)
    ensures n > 0 ==> s[0] != '0'
    ensures n == 0 ==> s == "0"
    decreases n
  {
    if n < 16 then [Digit(n)] else ToHex(n / 16) + [Digit(n % 16)]
  }

  /** The value of a string of lower-case hex digits (the empty string is 0). */
  function ParseHex(s: string): nat
    requires IsLowerHex(s)
  {
    if s == [] then 0 else ParseHex(s[..|s| - 1]) * 16 + DigitValue(s[|s| - 1])
  }

  /** Parsing undoes rendering. */
  lemma {:induction false} ParseToHex(n: nat)
    ensures ParseHex(ToHex(n)) == n
    decreases n
  {
    if n < 16 {
      DigitRoundTrip(n);
    } else {
      var q, r := n / 16, n % 16;
      var h, s := ToHex(q), ToHex(n);
      assert s == h + [Digit(r)];
      assert s[..|s| - 1] == h && s[|s| - 1] == Digit(r);
      ParseToHex(q);
      DigitRoundTrip(r);
      assert ParseHex(s) == ParseHex(h) * 16 + DigitValue(Digit(r));
      assert n == q * 16 + r;
    }
  }

  /** Leading zeros do not change the value. */
  lemma {:induction false} ParseLeadingZeros(k: nat, s: string)
    requires IsLowerHex(s)
    ensures IsLowerHex(Text.Repeat('0', k) + s)
    ensures ParseHex(Text.Repeat('0', k) + s) == ParseHex(s)
    decreases |s|
  {
    var z := Text.Repeat('0', k);
    if s == [] {
      assert z + s == z;
      AllZeros(k);
    } else {
      var t := z + s;
      assert t[..|t| - 1] == z + s[..|s| - 1];
      ParseLeadingZeros(k, s[..|s| - 1]);
    }
  }

  lemma {:induction false} AllZeros(k: nat)
    ensures IsLowerHex(Text.Repeat('0', k))
    ensures ParseHex(Text.Repeat('0', k)) == 0
  {
    if k > 0 {
      var z := Text.Repeat('0', k);
      AllZeros(k - 1);
      RepeatSnoc(k - 1);
      assert z[..k - 1] == Text.Repeat('0', k - 1);
    }
  }

  lemma {:induction false} RepeatSnoc(k: nat)
    ensures Text.Repeat('0', k + 1) == Text.Repeat('0', k) + ['0']
  {
    if k > 0 {
      RepeatSnoc(k - 1);
    }
  }
}
