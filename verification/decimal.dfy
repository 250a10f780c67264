/** Integer#to_s in base 10, and the parse that reads such a string back. */
module Decimal {
  import opened Wrappers

  predicate IsDigit(c: char)
  {
    '0' <= c <= '9'
  }

  predicate AllDigits(s: string)
  {
    forall i :: 0 <= i < |s| ==> IsDigit(s[i])
  }

  function DigitChar(d: int): (c: char)
    requires 0 <= d < 10
    ensures IsDigit(c)
    ensures c as int - '0' as int == d
  {
    ('0' as int + d) as char
  }

  /** The value of a string of decimal digits, most significant first. */
  function DigitsValue(s: string): nat
    requires AllDigits(s)
    decreases |s|
  {
    if |s| == 0 then 0
    else DigitsValue(s[..|s| - 1]) * 10 + (s[|s| - 1] as int - '0' as int)
  }

  /** A non-empty run of digits without a leading zero (other than "0"
      itself), read as a natural number. */
  function ParseNat(s: string): Option<nat>
  {
    if |s| > 0 && AllDigits(s) && (s[0] != '0' || |s| == 1) then Some(DigitsValue(s)) else None
  }

  /** An optional minus sign followed by digits, read as an integer. */
  function ParseInt(s: string): Option<int>
  {
    if |s| > 0 && s[0] == '-' then
      match ParseNat(s[1..])
      case Some(v) => var negated := -(v as int); Some(negated)
      case None => None
    else ParseNat(s)
  }

  /** The decimal digits of `n` without leading zeros. */
  function NatToString(n: nat): (s: string)
    ensures |s| >= 1 && AllDigits(s)
    ensures ParseNat(s) == Some(n)
    decreases n
  {
    if n < 10 then
      var s := [DigitChar(n)];
      assert s[..0] == [] && DigitsValue(s[..0]) == 0;
      assert DigitsValue(s) == n;
      s
    else
      var front := NatToString(n / 10);
      var s := front + [DigitChar(n % 10)];
      assert s[..|s| - 1] == front;
      assert |front| == 1 ==> DigitsValue(front) == front[0] as int - '0' as int by {
        if |front| == 1 {
          assert front[..0] == [];
        }
      }
      assert s[0] == front[0] != '0';
      s
  }

  /** Integer#to_s: a minus sign for negative numbers, then the digits. */
  function IntToString(n: int): (s: string)
    ensures ParseInt(s) == Some(n)
    ensures |s| >= 1
    ensures s[0] == '-' <==> n < 0
    ensures ' ' !in s
  {
    if n < 0 then
      var digits := NatToString(-n);
      assert ("-" + digits)[1..] == digits;
      "-" + digits
    else NatToString(n)
  }
}
