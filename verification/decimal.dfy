/** Decimal rendering of naturals, as Go's `%d` verb prints them, with its
    inverse. The inverse exists only to prove that distinct counters give
    distinct names. */
module Decimal {

  predicate IsDigit(c: char) {
    '0' <= c <= '9'
  }

  predicate AllDigits(s: string) {
    forall i :: 0 <= i < |s| ==> IsDigit(s[i])
  }

  function DigitChar(d: nat): (c: char)
    requires d < 10
    ensures IsDigit(c)
    ensures c as int - '0' as int == d
  {
    ('0' as int + d) as char
  }

  /** The decimal digits of `n`, most significant first, without leading zeros. */
  function FromNat(n: nat): (s: string)
    ensures |s| > 0
    ensures AllDigits(s)
    ensures |s| > 1 ==> s[0] != '0'
  {
    if n < 10 then [DigitChar(n)] else FromNat(n / 10) + [DigitChar(n % 10)]
  }

  /** Reads a string of digits back as a natural. */
  function ToNat(s: string): nat
    requires AllDigits(s)
  {
    if |s| == 0 then 0 else ToNat(s[..|s| - 1]) * 10 + (s[|s| - 1] as int - '0' as int)
  }

  /** Parsing a rendered number gives the number back. */
  lemma {:induction false} RoundTrip(n: nat)
    ensures ToNat(FromNat(n)) == n
  {
    if n >= 10 {
      var s := FromNat(n);
      assert s[..|s| - 1] == FromNat(n / 10);
      RoundTrip(n / 10);
    }
  }

  /** Distinct naturals render as distinct strings. */
  lemma FromNatInjective(a: nat, b: nat)
    ensures FromNat(a) == FromNat(b) <==> a == b
  {
    if FromNat(a) == FromNat(b) {
      RoundTrip(a);
      RoundTrip(b);
    }
  }
}
