/** Decimal numerals: what a digit string is worth, and the fixed-width numerals of a time format. */
module Numerals {
  import opened Arith

  predicate IsDigit(c: char) { '0' <= c <= '9' }

  predicate AllDigits(s: string) { forall i :: 0 <= i < |s| ==> IsDigit(s[i]) }

  function Decimal(s: string): nat
    requires AllDigits(s)
  {
    if s == [] then 0 else 10 * Decimal(s[..|s| - 1]) + (s[|s| - 1] as int - '0' as int)
  }

  /** Digit i has value i, and a numeral put behind another shifts it by its own length: this makes Decimal the
      positional value. */
  lemma {:induction false} DecimalIsPositional(s: string, t: string, i: nat)
    requires AllDigits(s) && AllDigits(t)
    ensures i < 10 ==> AllDigits(["0123456789"[i]]) && Decimal(["0123456789"[i]]) == i
    ensures Decimal(s + t) == Decimal(s) * Pow10(|t|) + Decimal(t)
    decreases |t|
  {
    if i < 10 {
      OneDigit("0123456789"[i]);
    }
    if t == "" {
      assert s + t == s;
    } else {
      var init, c := t[..|t| - 1], t[|t| - 1];
      DecimalIsPositional(s, init, 10);
      assert (s + t)[..|s + t| - 1] == s + init;
      Shift(Decimal(s), Pow10(|init|));
    }
  }

  lemma OneDigit(c: char)
    requires IsDigit(c)
    ensures Decimal([c]) == c as int - '0' as int
  {
    assert [c][..0] == "";
  }

  lemma Shift(x: nat, p: nat)
    ensures 10 * (x * p) == x * (10 * p)
  {}

  lemma {:induction false} DecimalBelowPow10(s: string)
    requires AllDigits(s)
    ensures Decimal(s) < Pow10(|s|)
  {
    if s != [] {
      DecimalBelowPow10(s[..|s| - 1]);
    }
  }

  lemma {:induction false} Pow10Grows(m: nat, n: nat)
    requires m <= n
    ensures 1 <= Pow10(m) <= Pow10(n)
    decreases n
  {
    if m < n {
      Pow10Grows(m, n - 1);
    } else if m > 0 {
      Pow10Grows(m - 1, m - 1);
    }
  }

  /** The last k decimal digits of n. */
  function Digits(n: nat, k: nat): (s: string)
    ensures |s| == k
  {
    if k == 0 then "" else Digits(n / 10, k - 1) + [(n % 10 + '0' as int) as char]
  }

  /** A number that fits its width is read back from its digits. */
  lemma {:induction false} DigitsAreRead(n: nat, k: nat)
    requires n < Pow10(k)
    ensures AllDigits(Digits(n, k)) && Decimal(Digits(n, k)) == n
  {
    if k > 0 {
      DigitsAreRead(n / 10, k - 1);
      assert Digits(n, k)[..k - 1] == Digits(n / 10, k - 1);
    }
  }
}
