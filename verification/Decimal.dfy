/** Decimal text, as printf writes it and strtol reads it. */
module Decimal {
  import opened Words

  const ZERO: Byte := 48
  const SPACE: Byte := 32

  predicate IsDigit(c: Byte) {
    ZERO <= c <= ZERO + 9
  }

  predicate AllDigits(s: seq<Byte>) {
    forall i :: 0 <= i < |s| ==> IsDigit(s[i])
  }

  /** %u and, for a number that is not negative, %d. */
  function Digits(n: nat): (s: seq<Byte>)
    ensures s != [] && AllDigits(s)
  {
    if n < 10 then [ZERO + n] else Digits(n / 10) + [ZERO + n % 10]
  }

  function Value(s: seq<Byte>): nat
    requires AllDigits(s)
  {
    if s == [] then 0 else 10 * Value(s[..|s| - 1]) + (s[|s| - 1] - ZERO)
  }

  /** Reading what was written gives the number back. */
  lemma {:induction false} ValueOfDigits(n: nat)
    ensures Value(Digits(n)) == n
  {
    if n >= 10 {
      ValueOfDigits(n / 10);
      assert Digits(n)[..|Digits(n)| - 1] == Digits(n / 10);
    }
  }

  function Pow10(n: nat): nat {
    if n == 0 then 1 else 10 * Pow10(n - 1)
  }

  lemma {:induction false} DigitsLength(n: nat, len: nat)
    requires 0 < len && n < Pow10(len)
    ensures |Digits(n)| <= len
  {
    if n >= 10 {
      DigitsLength(n / 10, len - 1);
    }
  }
}
