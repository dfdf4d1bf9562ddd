/** Decimal text as Java's `String.valueOf(int)` prints a non-negative int and
    as `Integer.parseInt` reads one (ASCII digits only). */
module Decimal {
  import opened Wrappers
  import opened JavaTypes

  predicate IsDigit(c: char) { '0' <= c <= '9' }

  function DigitChar(d: int): (c: char)
    requires 0 <= d < 10
    ensures IsDigit(c)
  {
    "0123456789"[d]
  }

  function DigitValue(c: char): (d: int)
    requires IsDigit(c)
    ensures 0 <= d < 10
  {
    c as int - '0' as int
  }

  lemma DigitRoundTrip(d: int)
    requires 0 <= d < 10
    ensures DigitValue(DigitChar(d)) == d
  {
  }

  /** `String.valueOf(n)` for `n >= 0`: no sign, no leading zero. */
  function NatToString(n: nat): (s: string)
    decreases n
  {
    if n < 10 then [DigitChar(n)] else NatToString(n / 10) + [DigitChar(n % 10)]
  }

  predicate AllDigits(s: string) { forall i | 0 <= i < |s| :: IsDigit(s[i]) }

  /** The value of a string of decimal digits, most significant first. */
  function DigitsValue(s: string): (v: nat)
    requires AllDigits(s)
    decreases |s|
  {
    if |s| == 0 then 0 else DigitsValue(s[..|s| - 1]) * 10 + DigitValue(s[|s| - 1])
  }

  /** `Integer.parseInt(s)`; `None` stands for the NumberFormatException. */
  function ParseInt(s: string): (r: Option<int32>)
    ensures r.Some? ==> 0 < |s|
    ensures r.Some? && AllDigits(s) ==> r.value == DigitsValue(s)
  {
    if |s| == 0 then None
    else
      var neg := s[0] == '-';
      var digits := if s[0] == '-' || s[0] == '+' then s[1..] else s;
      if |digits| == 0 || !AllDigits(digits) then None
      else
        var mag: int := DigitsValue(digits);
        var v := if neg then -mag else mag;
        if -0x8000_0000 <= v < 0x8000_0000 then Some(v) else None
  }

  lemma {:induction false} NatToStringDigits(n: nat)
    ensures 0 < |NatToString(n)|
    ensures AllDigits(NatToString(n))
    ensures DigitsValue(NatToString(n)) == n
    ensures NatToString(n)[0] != '-' && NatToString(n)[0] != '+'
    decreases n
  {
    if n >= 10 {
      NatToStringDigits(n / 10);
      var p, d := NatToString(n / 10), DigitChar(n % 10);
      var s := NatToString(n);
      assert s == p + [d];
      assert s[..|s| - 1] == p && s[|s| - 1] == d && s[0] == p[0];
      assert AllDigits(s) by {
        forall i | 0 <= i < |s|
          ensures IsDigit(s[i])
        {
          if i < |p| { assert s[i] == p[i]; }
        }
      }
      DigitRoundTrip(n % 10);
      assert DigitsValue(s) == DigitsValue(p) * 10 + DigitValue(d);
    }
  }

  /** Every printed non-negative int parses back to itself. */
  lemma ParseIntOfNatToString(n: nat)
    requires n < 0x8000_0000
    ensures ParseInt(NatToString(n)) == Some(n)
  {
    NatToStringDigits(n);
  }
}
