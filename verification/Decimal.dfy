/** Decimal numerals, as string formatting writes natural numbers. */
module Decimal {
  function Digits(k: nat): string {
    if k < 10 then ['0' + k as char] else Digits(k / 10) + ['0' + (k % 10) as char]
  }

  /** A numeral is not empty and has only digits. */
  lemma {:induction false} DigitsAreDigits(k: nat)
    ensures Digits(k) != "" && forall c :: c in Digits(k) ==> '0' <= c <= '9'
  {
    if k >= 10 {
      DigitsAreDigits(k / 10);
    }
  }

  /** What a numeral stands for. */
  function ValueOf(s: string): int {
    if s == "" then 0 else 10 * ValueOf(s[..|s| - 1]) + (s[|s| - 1] as int - '0' as int)
  }

  /** A number's numeral stands for it, and begins with a zero only for 0. */
  lemma {:induction false} DigitsStandFor(k: nat)
    ensures ValueOf(Digits(k)) == k && Digits(k) != "" && (k > 0 ==> Digits(k)[0] != '0')
  {
    if k < 10 {
      assert ValueOf("") == 0 && Digits(k)[..0] == "";
    } else {
      DigitsStandFor(k / 10);
      assert Digits(k)[..|Digits(k)| - 1] == Digits(k / 10);
    }
  }

  /** Different numbers have different numerals. */
  lemma {:induction false} DigitsDiffer(j: nat, k: nat)
    requires Digits(j) == Digits(k)
    ensures j == k
  {
    if j < 10 && k < 10 {
    } else if j < 10 {
      DigitsAreDigits(k / 10);
    } else if k < 10 {
      DigitsAreDigits(j / 10);
    } else {
      var a, b := Digits(j), Digits(k);
      assert a[..|a| - 1] == Digits(j / 10) && b[..|b| - 1] == Digits(k / 10);
      assert a[|a| - 1] == b[|b| - 1];
      DigitsDiffer(j / 10, k / 10);
    }
  }
}
