/** Decimal rendering of integers, as string interpolation writes them into
    exception messages ("{roll} is not a valid entry", "the {N} filters"). */
module Numerals {

  function Digit(d: nat): (c: char)
    requires d < 10
    ensures '0' <= c <= '9'
  {
    "0123456789"[d]
  }

  /** The decimal digits of `n`, most significant first, without leading zeros. */
  function NatToString(n: nat): (s: string)
    ensures 1 <= |s|
    ensures forall i :: 0 <= i < |s| ==> '0' <= s[i] <= '9'
    ensures 1 < |s| ==> s[0] != '0'
  {
    if n < 10 then [Digit(n)] else NatToString(n / 10) + [Digit(n % 10)]
  }

  /** An int as .NET prints it: a minus sign before the digits of a negative
      number; the digits, without leading zeros, read back as its magnitude. */
  function IntToString(i: int): (s: string)
    ensures 1 <= |s|
    ensures i < 0 <==> s[0] == '-'
    ensures var digits := if i < 0 then s[1..] else s;
            && 1 <= |digits|
            && (forall k :: 0 <= k < |digits| ==> '0' <= digits[k] <= '9')
            && (1 < |digits| ==> digits[0] != '0')
            && DigitsValue(digits) == (if i < 0 then -i else i)
  {
    var magnitude := if i < 0 then -i else i;
    var digits := NatToString(magnitude);
    NatToStringRoundTrip(magnitude);
    if i < 0 then
      assert (['-'] + digits)[1..] == digits;
      ['-'] + digits
    else
      digits
  }

  /** The value a string of decimal digits denotes. */
  function DigitsValue(s: string): nat
    requires forall i :: 0 <= i < |s| ==> '0' <= s[i] <= '9'
  {
    if s == [] then 0
    else DigitsValue(s[..|s| - 1]) * 10 + (s[|s| - 1] as int - '0' as int)
  }

  /** Reading back the digits gives the number: the rendering loses nothing. */
  lemma {:induction false} NatToStringRoundTrip(n: nat)
    ensures DigitsValue(NatToString(n)) == n
  {
    var s := NatToString(n);
    if n >= 10 {
      NatToStringRoundTrip(n / 10);
      assert s[..|s| - 1] == NatToString(n / 10);
      assert s[|s| - 1] as int - '0' as int == n % 10 by {
        assert "0123456789"[n % 10] as int - '0' as int == n % 10;
      }
    } else {
      assert "0123456789"[n] as int - '0' as int == n;
    }
  }

  /** Different numbers render differently, so a message pins down its number. */
  lemma NatToStringInjective(m: nat, n: nat)
    requires NatToString(m) == NatToString(n)
    ensures m == n
  {
    NatToStringRoundTrip(m);
    NatToStringRoundTrip(n);
  }
}
