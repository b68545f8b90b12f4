/**
 * The Luhn formula (ISO/IEC 7812-1, Annex B) in its usual right-to-left
 * form: starting with the rightmost digit, which is the check digit and is
 * taken as it is, every second digit is doubled and reduced by 9 when the
 * double exceeds 9; the number is valid when the sum is a multiple of 10.
 */
module Luhn {
  import opened Numerals

  /** A doubled digit, reduced by 9 when it exceeds 9. */
  function Double(d: nat): (r: nat)
    requires d <= 9
    ensures r <= 9
  {
    if 2 * d > 9 then 2 * d - 9 else 2 * d
  }

  /** Reducing by 9 is summing the two digits of the double. */
  lemma DoubleIsDigitSum(d: nat)
    requires d <= 9
    ensures Double(d) == DigitSum(2 * d)
  {
    if 2 * d > 9 {
      DigitSumAppend(2 * d, 1, 2 * d - 10);
      DigitSumAppend(1, 0, 1);
    } else {
      DigitSumAppend(2 * d, 0, 2 * d);
    }
  }

  /** Doubling loses no information: distinct digits stay distinct. */
  lemma DoubleInjective(d: nat, d': nat)
    requires d <= 9 && d' <= 9
    ensures Double(d) == Double(d') <==> d == d'
  {
  }

  /** A digit as it enters the sum: doubled or not. */
  function Term(d: nat, doubled: bool): nat
    requires d <= 9
  {
    if doubled then Double(d) else d
  }

  /**
   * The Luhn sum of the first n digits of s, read from the right: digit
   * n - 1 is doubled when doubleLast holds, and the doubling alternates
   * from there leftwards.
   */
  function Sum(s: string, n: nat, doubleLast: bool): nat
    requires AllDigits(s) && n <= |s|
  {
    if n == 0 then 0
    else Sum(s, n - 1, !doubleLast) + Term(DigitValue(s[n - 1]), doubleLast)
  }

  /** A digit string whose last digit is the check digit passes the check. */
  predicate IsValid(s: string)
    requires AllDigits(s)
  {
    Sum(s, |s|, false) % 10 == 0
  }

  /** Whether position i is doubled in the sum of the first n digits. */
  function IsDoubled(n: nat, i: nat, doubleLast: bool): bool
    requires i < n
  {
    ((n - 1 - i) % 2 == 0) == doubleLast
  }

  lemma ChangeKeepsDigits(s: string, i: nat, c: char)
    requires AllDigits(s) && i < |s| && IsDigit(c)
    ensures AllDigits(s[i := c])
  {
    var t := s[i := c];
    forall k | 0 <= k < |t| ensures IsDigit(t[k]) {
      if k != i {
        assert t[k] == s[k];
      }
    }
  }

  /**
   * Replacing digit i changes the sum of the first n digits by exactly the
   * change in its own term, and not at all when i lies beyond them.
   */
  lemma {:induction false} SumAfterChange(s: string, n: nat, i: nat, c: char, doubleLast: bool)
    requires AllDigits(s) && n <= |s| && i < |s| && IsDigit(c)
    ensures AllDigits(s[i := c])
    ensures Sum(s[i := c], n, doubleLast) - Sum(s, n, doubleLast)
         == if i < n then
              Term(DigitValue(c), IsDoubled(n, i, doubleLast)) - Term(DigitValue(s[i]), IsDoubled(n, i, doubleLast))
            else 0
  {
    ChangeKeepsDigits(s, i, c);
    if n > 0 {
      SumAfterChange(s, n - 1, i, c, !doubleLast);
      if i < n - 1 {
        assert IsDoubled(n - 1, i, !doubleLast) == IsDoubled(n, i, doubleLast);
      }
    }
  }

  /** The Luhn check catches every single-digit substitution. */
  lemma SingleDigitErrorDetected(s: string, i: nat, c: char)
    requires AllDigits(s) && i < |s| && IsDigit(c) && c != s[i]
    requires IsValid(s)
    ensures AllDigits(s[i := c]) && !IsValid(s[i := c])
  {
    SumAfterChange(s, |s|, i, c, false);
    var doubled := IsDoubled(|s|, i, false);
    DigitValueInjective(c, s[i]);
    DoubleInjective(DigitValue(c), DigitValue(s[i]));
    var a: int, b: int := Sum(s, |s|, false), Sum(s[i := c], |s|, false);
    var delta := b - a;
    assert delta != 0 && -10 < delta < 10;
    var q := a / 10;
    assert a == 10 * q;
    if delta > 0 {
      assert b == 10 * q + delta;
      assert b % 10 == delta;
    } else {
      assert b == 10 * (q - 1) + (10 + delta);
      assert b % 10 == 10 + delta;
    }
  }

  /** The sum of the doubled-and-reduced values of all digits of s. */
  function DoubledSum(s: string): nat
    requires AllDigits(s)
    decreases |s|
  {
    if s == [] then 0
    else DoubledSum(s[..|s| - 1]) + Double(DigitValue(s[|s| - 1]))
  }

  /** Twice an even number plus one has one more in its digit sum: the last digit of 2x is at most 8, so no carry. */
  lemma DigitSumOddSuccessor(x: nat)
    ensures DigitSum(2 * x + 1) == DigitSum(2 * x) + 1
  {
    var q, r := x / 5, x % 5;
    DigitSumAppend(2 * x, q, 2 * r);
    DigitSumAppend(2 * x + 1, q, 2 * r + 1);
  }

  /**
   * The digit sum of twice the number that a digit string denotes equals
   * the sum of its digits doubled one by one: each doubled digit carries at
   * most 1 into the next position, whose doubled value is even, so a carry
   * never cascades.
   */
  lemma {:induction false} DoubledNumeralDigitSum(s: string)
    requires AllDigits(s)
    ensures DigitSum(2 * NumeralValue(s)) == DoubledSum(s)
    decreases |s|
  {
    if s != [] {
      var p := s[..|s| - 1];
      var d := DigitValue(s[|s| - 1]);
      var x := NumeralValue(p);
      var n := 2 * NumeralValue(s);
      DoubledNumeralDigitSum(p);
      assert DoubledSum(s) == DigitSum(2 * x) + Double(d);
      if 2 * d <= 9 {
        DigitSumAppend(n, 2 * x, 2 * d);
      } else {
        DigitSumAppend(n, 2 * x + 1, 2 * d - 10);
        DigitSumOddSuccessor(x);
      }
    }
  }
}
