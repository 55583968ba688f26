/** Python's `str(n)` on a non-negative int: its decimal digits. */
module Decimal {

  function Digit(d: nat): (c: char)
    requires d < 10
    ensures '0' <= c <= '9'
  {
    (48 + d) as char
  }

  /** `str(n)`: the decimal digits of `n`, most significant first, no leading zero. */
  function Str(n: nat): (s: string)
    ensures |s| >= 1
    ensures forall i :: 0 <= i < |s| ==> '0' <= s[i] <= '9'
    ensures |s| == 1 <==> n < 10
  {
    if n < 10 then [Digit(n)] else Str(n / 10) + [Digit(n % 10)]
  }

  /** Distinct numbers have distinct decimal spellings. */
  lemma {:induction false} StrInjective(m: nat, n: nat)
    ensures Str(m) == Str(n) <==> m == n
  {
    if m >= 10 && n >= 10 && Str(m) == Str(n) {
      var sm, sn := Str(m), Str(n);
      assert sm == Str(m / 10) + [Digit(m % 10)];
      assert sn == Str(n / 10) + [Digit(n % 10)];
      assert Str(m / 10) == sm[..|sm| - 1];
      assert Str(n / 10) == sn[..|sn| - 1];
      StrInjective(m / 10, n / 10);
      assert Digit(m % 10) == sm[|sm| - 1] == Digit(n % 10);
    }
  }
}
