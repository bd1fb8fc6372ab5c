/** Decimal text of unsigned and signed integers, as std::to_string writes it. */
module Decimal {
  const U64: nat := 0x1_0000_0000_0000_0000
  const INT64_MIN: int := -0x8000_0000_0000_0000
  const INT64_MAX: int := 0x7fff_ffff_ffff_ffff

  type int64 = n: int | INT64_MIN <= n <= INT64_MAX

  predicate IsDigit(c: char) {
    '0' <= c <= '9'
  }

  function DigitValue(c: char): (d: nat)
    requires IsDigit(c)
    ensures d < 10
  {
    c as int - '0' as int
  }

  function DigitChar(d: nat): (c: char)
    requires d < 10
    ensures IsDigit(c) && DigitValue(c) == d
  {
    (d + '0' as int) as char
  }

  predicate AllDigits(s: string) {
    forall i :: 0 <= i < |s| ==> IsDigit(s[i])
  }

  /** std::to_string on an unsigned value. */
  function ToString(n: nat): (s: string)
    ensures |s| > 0 && AllDigits(s)
  {
    if n < 10 then [DigitChar(n)] else ToString(n / 10) + [DigitChar(n % 10)]
  }

  /** std::to_string on a signed value. */
  function SignedToString(n: int): (s: string)
    ensures |s| > 0
  {
    if n < 0 then "-" + ToString(-n) else ToString(n)
  }

  /** Positional value of a run of digits. */
  function FromDigits(s: string): nat
    requires AllDigits(s)
  {
    if s == [] then 0 else 10 * FromDigits(s[..|s| - 1]) + DigitValue(s[|s| - 1])
  }

  lemma {:induction false} ToStringRoundTrip(n: nat)
    ensures FromDigits(ToString(n)) == n
  {
    if n < 10 {
      assert ToString(n)[..0] == [];
    } else {
      ToStringRoundTrip(n / 10);
      assert ToString(n)[..|ToString(n)| - 1] == ToString(n / 10);
    }
  }

  /** The value of a longer run of digits is at least the value of its prefix. */
  lemma {:induction false} PrefixSmaller(s: string, k: nat)
    requires AllDigits(s) && k <= |s|
    ensures FromDigits(s[..k]) <= FromDigits(s)
    decreases |s|
  {
    if k == |s| {
      assert s[..k] == s;
    } else {
      PrefixSmaller(s[..|s| - 1], k);
      assert s[..|s| - 1][..k] == s[..k];
    }
  }
}
