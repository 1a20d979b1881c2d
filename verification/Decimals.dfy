/** Natural numbers written in decimal. */
module Decimals {

  function DecimalDigit(d: nat): char
    requires d < 10
  {
    (d + 48) as char
  }

  /** A number in decimal, as `std::to_string` writes it. */
  function Decimal(n: nat): (s: string)
    ensures s != "" && forall i :: 0 <= i < |s| ==> '0' <= s[i] <= '9'
  {
    if n < 10 then [DecimalDigit(n)] else Decimal(n / 10) + [DecimalDigit(n % 10)]
  }

  function Value(s: string): int {
    if s == "" then 0 else 10 * Value(s[..|s| - 1]) + (s[|s| - 1] as int - 48)
  }

  lemma {:induction false} DecimalValue(n: nat)
    ensures Value(Decimal(n)) == n
  {
    var s := Decimal(n);
    if n < 10 {
      assert s == [DecimalDigit(n)] && s[..0] == "";
    } else {
      DecimalValue(n / 10);
      assert s[..|s| - 1] == Decimal(n / 10);
    }
  }

  /** The digit to the right counts ones, and all the others ten times as much. */
  lemma DecimalAppends(n: nat, d: nat)
    requires 0 < n && d < 10
    ensures Decimal(10 * n + d) == Decimal(n) + ["0123456789"[d]]
  {
    assert (10 * n + d) / 10 == n && (10 * n + d) % 10 == d;
    DigitIs(d);
  }

  lemma DigitIs(d: nat)
    requires d < 10
    ensures Decimal(d) == ["0123456789"[d]]
  {
  }
}
