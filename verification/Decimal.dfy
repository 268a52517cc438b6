// Decimal numerals: what toString and template literals print for whole numbers, and what Number and
// BigNumber.from read back.

module Decimal {
  import opened Results

  const DIGITS := "0123456789"

  function PrintNat(n: nat): string {
    if n < 10 then [DIGITS[n]] else PrintNat(n / 10) + [DIGITS[n % 10]]
  }

  function PrintInt(n: int): string {
    if n < 0 then "-" + PrintNat(-n) else PrintNat(n)
  }

  function ParseDigit(c: char): Option<nat> {
    if '0' <= c <= '9' then Some((c - '0') as nat) else None
  }

  function ParseNat(s: string): Option<nat> {
    if s == "" then None else
      match ParseDigit(s[|s| - 1])
      case None => None
      case Some(d) =>
        if |s| == 1 then Some(d) else
          match ParseNat(s[..|s| - 1])
          case None => None
          case Some(n) => Some(10 * n + d)
  }

  function ParseInt(s: string): Option<int> {
    if s != "" && s[0] == '-' then
      match ParseNat(s[1..])
      case None => None
      case Some(n) => var negative: int := -(n as int); Some(negative)
    else
      ParseNat(s)
  }

  predicate IsNumeral(s: string) {
    s != "" && forall c :: c in s ==> '0' <= c <= '9' || c == '-'
  }

  lemma {:induction false} NatRoundTrip(n: nat)
    ensures ParseNat(PrintNat(n)) == Some(n)
    ensures PrintNat(n) != "" && PrintNat(n)[0] != '-'
    ensures IsNumeral(PrintNat(n))
  {
    DigitRoundTrip(n % 10);
    if n >= 10 {
      NatRoundTrip(n / 10);
      assert PrintNat(n)[..|PrintNat(n)| - 1] == PrintNat(n / 10);
    }
  }

  lemma DigitRoundTrip(d: nat)
    requires d < 10
    ensures ParseDigit(DIGITS[d]) == Some(d)
  {
  }

  /** Every whole number survives printing and reading. */
  lemma IntRoundTrip(n: int)
    ensures ParseInt(PrintInt(n)) == Some(n)
    ensures IsNumeral(PrintInt(n))
  {
    NatRoundTrip(if n < 0 then -n else n);
    if n < 0 {
      assert PrintInt(n)[1..] == PrintNat(-n);
    }
  }

  /** Numerals are decimal: appending a digit multiplies by ten, and a minus sign comes first. */
  lemma DecimalPlaces(n: int, d: nat)
    requires n >= 0 && d < 10
    ensures PrintNat(d) == ["0123456789"[d]]
    ensures n > 0 ==> PrintInt(10 * n + d) == PrintInt(n) + ["0123456789"[d]]
    ensures n > 0 ==> PrintInt(-n) == "-" + PrintInt(n)
  {
    if n > 0 {
      assert (10 * n + d) / 10 == n && (10 * n + d) % 10 == d;
    }
  }
}
