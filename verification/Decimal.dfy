/** Decimal numerals: reading them, as `int` does, and printing them. ASCII digits. */
module Decimal {
  predicate IsDigit(c: char) {
    '0' <= c <= '9'
  }

  predicate AllDigits(s: string) {
    forall i :: 0 <= i < |s| ==> IsDigit(s[i])
  }

  predicate IsDecimal(s: string) {
    s != "" && AllDigits(s)
  }

  function Number(digits: string): nat
    requires AllDigits(digits)
  {
    if digits == "" then 0
    else
      var d := digits[|digits| - 1];
      assert IsDigit(d);
      Number(digits[..|digits| - 1]) * 10 + (d as int - '0' as int)
  }

  const DIGITS := ['0', '1', '2', '3', '4', '5', '6', '7', '8', '9']

  /** By repeated division. */
  function Print(n: nat): string {
    if n < 10 then [DIGITS[n]] else Print(n / 10) + [DIGITS[n % 10]]
  }

  lemma DigitsAreDigits(d: nat)
    requires d < 10
    ensures IsDigit(DIGITS[d]) && DIGITS[d] as int - '0' as int == d
  {
  }

  /** Reading a printed number gives it back. */
  lemma {:induction false} NumberOfPrinted(n: nat)
    ensures IsDecimal(Print(n)) && Number(Print(n)) == n
  {
    if n < 10 {
      DigitsAreDigits(n);
      assert Print(n)[..0] == "";
    } else {
      NumberOfPrinted(n / 10);
      DigitsAreDigits(n % 10);
      assert Print(n)[..|Print(n)| - 1] == Print(n / 10);
    }
  }

  /** Leading zeros do not count. */
  lemma {:induction false} LeadingZero(digits: string)
    requires AllDigits(digits)
    ensures AllDigits("0" + digits) && Number("0" + digits) == Number(digits)
  {
    var s := "0" + digits;
    if digits == "" {
      assert s == "0" && s[..0] == "";
    } else {
      LeadingZero(digits[..|digits| - 1]);
      assert s[..|s| - 1] == "0" + digits[..|digits| - 1];
    }
  }
}
