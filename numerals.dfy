/**
 `Integer#to_s`: the decimal rendering the client splices into the signed
 message (`nonce.to_s` and `current_timestamp.to_s`) and that `inspect` and `join` use for
 integers. `ParseInt` reads such a rendering back; the round trip shows the
 rendering loses nothing.
 */
module Numerals {
  import opened Objects

  predicate IsDigit(c: char) {
    '0' <= c <= '9'
  }

  function DigitChar(d: int): (c: char)
    requires 0 <= d < 10
    ensures IsDigit(c)
  {
    ('0' as int + d) as char
  }

  function DigitValue(c: char): (d: int)
    requires IsDigit(c)
    ensures 0 <= d < 10 && DigitChar(d) == c
  {
    c as int - '0' as int
  }

  /** Decimal digits of `n`, most significant first, no leading zeros. */
  function NatToS(n: nat): (r: string)
    ensures |r| >= 1
    ensures forall i :: 0 <= i < |r| ==> IsDigit(r[i])
    ensures |r| > 1 ==> r[0] != '0'
  {
    if n < 10 then [DigitChar(n)] else NatToS(n / 10) + [DigitChar(n % 10)]
  }

  /** `Integer#to_s` */
  function IntToS(i: int): (r: string)
    ensures |r| >= 1
    ensures i < 0 <==> r[0] == '-'
    ensures i < 0 ==> |r| >= 2
    ensures forall k :: (if i < 0 then 1 else 0) <= k < |r| ==> IsDigit(r[k])
    ensures |r| > (if i < 0 then 2 else 1) ==> r[if i < 0 then 1 else 0] != '0'
  {
    if i < 0 then "-" + NatToS(-i) else NatToS(i)
  }

  /** The value of a string of decimal digits. */
  function ParseNat(s: string): nat
    requires forall i :: 0 <= i < |s| ==> IsDigit(s[i])
  {
    if |s| == 0 then 0 else 10 * ParseNat(s[..|s| - 1]) + DigitValue(s[|s| - 1])
  }

  /** Reads an optionally signed decimal integer; None for anything else. */
  function ParseInt(s: string): Option<int> {
    if |s| > 1 && s[0] == '-' && forall i :: 1 <= i < |s| ==> IsDigit(s[i]) then
      Some(-(ParseNat(s[1..]) as int))
    else if |s| > 0 && forall i :: 0 <= i < |s| ==> IsDigit(s[i]) then
      Some(ParseNat(s))
    else
      None
  }

  lemma {:induction false} ParseNatToS(n: nat)
    ensures ParseNat(NatToS(n)) == n
  {
    if n >= 10 {
      var s := NatToS(n);
      assert s[..|s| - 1] == NatToS(n / 10);
      ParseNatToS(n / 10);
    }
  }

  /** Reading back `Integer#to_s` gives the integer: the rendering is injective. */
  lemma ParseIntToS(i: int)
    ensures ParseInt(IntToS(i)) == Some(i)
  {
    var s := IntToS(i);
    if i < 0 {
      assert s[1..] == NatToS(-i);
      ParseNatToS(-i);
    } else {
      ParseNatToS(i);
    }
  }
}
