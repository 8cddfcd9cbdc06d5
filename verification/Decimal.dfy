/** Decimal text of non-negative integers: strconv.Itoa, fmt %d and the Atoi/ParseUint inverse. */
module Decimal {
  import opened Words

  predicate IsDigit(c: char) { '0' <= c <= '9' }

  predicate AllDigits(s: string) { forall i :: 0 <= i < |s| ==> IsDigit(s[i]) }

  function DigitChar(d: nat): (c: char)
    requires d < 10
    ensures IsDigit(c) && c as int - '0' as int == d
  {
    '0' + d as char
  }

  function Text(n: nat): (s: string)
    ensures s != [] && AllDigits(s)
  {
    if n < 10 then [DigitChar(n)] else Text(n / 10) + [DigitChar(n % 10)]
  }

  function Number(s: string): (n: nat)
    requires AllDigits(s)
  {
    if s == [] then 0 else Number(s[..|s| - 1]) * 10 + (s[|s| - 1] as int - '0' as int)
  }

  /** An unsigned parse bounded by `limit`: empty text, a foreign character or an overflow is an error. */
  function Parse(s: string, limit: nat): (r: Result<nat>)
  {
    if s != [] && AllDigits(s) && Number(s) < limit then Ok(Number(s)) else Err
  }

  lemma {:induction false} NumberOfText(n: nat)
    ensures Number(Text(n)) == n
  {
    if n >= 10 {
      NumberOfText(n / 10);
      assert Text(n)[..|Text(n)| - 1] == Text(n / 10);
    } else {
      assert Number([]) == 0;
      assert Text(n)[..0] == [];
    }
  }

  /** Decimal text has no leading zero, except for zero itself. */
  lemma {:induction false} NoLeadingZero(n: nat)
    ensures n > 0 ==> Text(n)[0] != '0'
    ensures n == 0 ==> Text(n) == "0"
  {
    if n >= 10 { NoLeadingZero(n / 10); }
  }

  lemma TextInjective(m: nat, n: nat)
    requires Text(m) == Text(n)
    ensures m == n
  {
    NumberOfText(m);
    NumberOfText(n);
  }
}
