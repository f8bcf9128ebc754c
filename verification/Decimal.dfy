/** Unsigned decimal numbers as text: what `ostream << uint64_t` prints and
    what the digits of a number mean. */
module Decimal {

  import opened Bytes

  const ZERO: byte := 48

  predicate IsDigit(b: byte) {
    ZERO <= b <= 57
  }

  predicate AllDigits(s: bytes) {
    forall i :: 0 <= i < |s| ==> IsDigit(s[i])
  }

  function Digits(n: nat): (s: bytes)
    ensures |s| > 0 && AllDigits(s)
  {
    if n < 10 then [ZERO + n] else Digits(n / 10) + [ZERO + n % 10]
  }

  function Value(s: bytes): (v: nat)
    requires AllDigits(s)
  {
    if |s| == 0 then 0 else Value(s[..|s| - 1]) * 10 + (s[|s| - 1] - ZERO)
  }

  lemma {:induction false} ValueOfDigits(n: nat)
    ensures Value(Digits(n)) == n
  {
    if n >= 10 {
      ValueOfDigits(n / 10);
      assert Digits(n)[..|Digits(n)| - 1] == Digits(n / 10);
    } else {
      assert Value(Digits(n)[..0]) == 0;
    }
  }

  // Length of the longest prefix of digits.
  function DigitRun(s: bytes): (n: nat)
    ensures n <= |s| && AllDigits(s[..n])
    ensures forall i :: 0 <= i < n ==> IsDigit(s[i])
    ensures n < |s| ==> !IsDigit(s[n])
  {
    if s == [] || !IsDigit(s[0]) then 0
    else
      var n := 1 + DigitRun(s[1..]);
      assert forall i :: 1 <= i < n ==> s[i] == s[1..][i - 1];
      n
  }

  lemma DigitRunAt(s: bytes, n: nat)
    requires n <= |s| && (forall i :: 0 <= i < n ==> IsDigit(s[i])) && (n < |s| ==> !IsDigit(s[n]))
    ensures DigitRun(s) == n
  {
    var _ := DigitRun(s);
  }

  // n without its last k digits.
  function Leading(n: nat, k: nat): (m: nat) {
    if k == 0 then n else Leading(n / 10, k - 1)
  }

  lemma {:induction false} LeadingDigits(n: nat, k: nat)
    requires k < |Digits(n)|
    ensures Digits(Leading(n, k)) == Digits(n)[..|Digits(n)| - k]
  {
    if k == 0 {
    } else {
      assert n >= 10;
      LeadingDigits(n / 10, k - 1);
      assert Digits(n)[..|Digits(n)| - k] == Digits(n / 10)[..|Digits(n / 10)| - (k - 1)];
    }
  }

  lemma {:induction false} LongerIsLarger(a: nat, b: nat)
    requires |Digits(a)| < |Digits(b)|
    ensures a < b
  {
    if a < 10 {
    } else {
      LongerIsLarger(a / 10, b / 10);
    }
  }
}
