/** The `%u` and `%d` conversions on non-negative numbers. */
module Decimal {

  function Digit(d: nat): char
    requires d < 10
  {
    '0' + d as char
  }

  function Print(n: nat): string
  {
    if n < 10 then [Digit(n)] else Print(n / 10) + [Digit(n % 10)]
  }

  /** Reading a digit string back; `Print` is its right inverse. */
  function Read(s: string): int
  {
    if s == "" then 0 else 10 * Read(s[..|s| - 1]) + (s[|s| - 1] as int - '0' as int)
  }

  lemma {:induction false} ReadPrint(n: nat)
    ensures Read(Print(n)) == n
  {
    if n >= 10 {
      ReadPrint(n / 10);
      assert Print(n)[..|Print(n)| - 1] == Print(n / 10);
    } else {
      assert Print(n)[..0] == "";
    }
  }

  lemma {:induction false} PrintIsDigits(n: nat)
    ensures Print(n) != ""
    ensures forall i :: 0 <= i < |Print(n)| ==> '0' <= Print(n)[i] <= '9'
  {
    if n >= 10 {
      PrintIsDigits(n / 10);
    }
  }

  /** A number below 10^k prints with at most k digits. */
  lemma {:induction false} PrintLength(n: nat, k: nat, bound: nat)
    requires 1 <= k && bound == Power10(k) && n < bound
    ensures |Print(n)| <= k
  {
    if n >= 10 {
      PrintLength(n / 10, k - 1, Power10(k - 1));
    }
  }

  function Power10(k: nat): nat
  {
    if k == 0 then 1 else 10 * Power10(k - 1)
  }
}
