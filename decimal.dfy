/**
 * Decimal text of integers: Swift's string interpolation of an integer (`"\(n)"`,
 * `String(n)`) and the parse of `UInt64(_: String)`.
 */
module Decimal {
  import opened Wrappers

  /** The largest `UInt64` plus one. */
  const UInt64Limit: nat := 0x1_0000_0000_0000_0000

  predicate IsDigit(c: char) {
    '0' <= c <= '9'
  }

  /** The value of one decimal digit. */
  function DigitValue(c: char): (d: nat)
    requires IsDigit(c)
    ensures d < 10
  {
    c as int - '0' as int
  }

  /** The decimal digits of `n`, without leading zeros. */
  function NatToString(n: nat): (s: string)
    ensures |s| > 0 && forall k :: 0 <= k < |s| ==> IsDigit(s[k])
    ensures |s| > 1 ==> s[0] != '0'
  {
    var d := ['0', '1', '2', '3', '4', '5', '6', '7', '8', '9'][n % 10];
    if n < 10 then [d] else NatToString(n / 10) + [d]
  }

  /** `"\(n)"` for an integer. */
  function IntToString(n: int): (s: string)
    ensures |s| > 0
    ensures n < 0 <==> s[0] == '-'
  {
    if n < 0 then "-" + NatToString(-n) else NatToString(n)
  }

  /** The value of a string of decimal digits. */
  function DigitsValue(s: string): nat
    requires forall k :: 0 <= k < |s| ==> IsDigit(s[k])
  {
    if s == [] then 0 else DigitsValue(s[..|s| - 1]) * 10 + DigitValue(s[|s| - 1])
  }

  /**
   * `UInt64(s)`: an optional `+` sign followed by at least one decimal digit, whose value
   * fits in 64 bits; anything else is nil.
   */
  function ParseUInt64(s: string): (r: Option<nat>)
    ensures r.Some? ==> r.value < UInt64Limit
    ensures s == [] || s == "+" ==> r.None?
  {
    var body := if |s| > 0 && s[0] == '+' then s[1..] else s;
    if body == [] || exists k :: 0 <= k < |body| && !IsDigit(body[k]) then None
    else if DigitsValue(body) < UInt64Limit then Some(DigitsValue(body))
    else None
  }

  /** The digits of `n` have the value `n`. */
  lemma {:induction false} NatToStringValue(n: nat)
    ensures DigitsValue(NatToString(n)) == n
  {
    var s := NatToString(n);
    if n >= 10 {
      NatToStringValue(n / 10);
      assert s[..|s| - 1] == NatToString(n / 10);
    }
  }

  /** Parsing the text of a 64-bit value gives the value back. */
  lemma ParseNatToString(n: nat)
    requires n < UInt64Limit
    ensures ParseUInt64(NatToString(n)) == Some(n)
  {
    NatToStringValue(n);
  }
}
