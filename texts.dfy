/** Decimal rendering of non-negative counts, as Java's string concatenation
    renders an int, and the parsing that inverts it. The contextual titles of
    both list screens are built from these. */
module Texts {

  predicate IsDigit(c: char) {
    '0' <= c <= '9'
  }

  predicate AllDigits(s: string) {
    forall i :: 0 <= i < |s| ==> IsDigit(s[i])
  }

  function DigitChar(d: nat): (c: char)
    requires d < 10
    ensures IsDigit(c) && c as int - '0' as int == d
  {
    ('0' as int + d) as char
  }

  /** The decimal digits of n, most significant first, without leading zeros. */
  function NatToString(n: nat): (s: string)
    ensures |s| > 0 && AllDigits(s)
    ensures |s| > 1 ==> s[0] != '0'
  {
    if n < 10 then [DigitChar(n)] else NatToString(n / 10) + [DigitChar(n % 10)]
  }

  /** The number a string of decimal digits denotes. */
  function ParseNat(s: string): nat
    requires AllDigits(s)
  {
    if s == [] then 0 else ParseNat(s[..|s| - 1]) * 10 + (s[|s| - 1] as int - '0' as int)
  }

  lemma {:induction false} ParseNatToString(n: nat)
    ensures ParseNat(NatToString(n)) == n
  {
    if n >= 10 {
      var s := NatToString(n);
      assert s[..|s| - 1] == NatToString(n / 10);
      ParseNatToString(n / 10);
    }
  }

  lemma NatToStringInjective(m: nat, n: nat)
    requires NatToString(m) == NatToString(n)
    ensures m == n
  {
    ParseNatToString(m);
    ParseNatToString(n);
  }

  /** A run of digits that is followed by a non-digit is determined by the whole string. */
  lemma {:induction false} DigitRunUnique(a: string, ra: string, b: string, rb: string)
    requires AllDigits(a) && AllDigits(b)
    requires ra != [] && !IsDigit(ra[0]) && rb != [] && !IsDigit(rb[0])
    requires a + ra == b + rb
    ensures a == b && ra == rb
  {
    var k := if |a| < |b| then |a| else |b|;
    assert (a + ra)[k] == (b + rb)[k];
    assert |a| == |b|;
    assert a == (a + ra)[..|a|] && b == (b + rb)[..|b|];
    assert ra == (a + ra)[|a|..] && rb == (b + rb)[|b|..];
  }

  /** The count rendered at the head of a string up to the first non-digit
      is recovered from the whole string. */
  lemma LeadingCountUnique(m: nat, restM: string, n: nat, restN: string)
    requires restM != [] && !IsDigit(restM[0]) && restN != [] && !IsDigit(restN[0])
    requires NatToString(m) + restM == NatToString(n) + restN
    ensures m == n && restM == restN
  {
    DigitRunUnique(NatToString(m), restM, NatToString(n), restN);
    NatToStringInjective(m, n);
  }

  /** Equal strings with a common prefix have equal remainders. */
  lemma CancelPrefix(p: string, a: string, b: string)
    requires p + a == p + b
    ensures a == b
  {
    assert a == (p + a)[|p|..];
    assert b == (p + b)[|p|..];
  }
}
