/**
 * Decimal numerals over ASCII characters: the parts of Java's digit handling
 * that the validator relies on (the regular-expression class `\d`,
 * `Character.getNumericValue` and `Integer.parseInt`), restricted to the
 * characters '0'..'9'.
 */
module Numerals {
  import opened Wrappers

  /** Java's `\d` without the UNICODE_CHARACTER_CLASS flag: an ASCII digit. */
  predicate IsDigit(c: char) {
    '0' <= c <= '9'
  }

  predicate AllDigits(s: string) {
    forall i :: 0 <= i < |s| ==> IsDigit(s[i])
  }

  predicate IsSign(c: char) {
    c == '-' || c == '+'
  }

  /** The numeric value of an ASCII digit. */
  function DigitValue(c: char): (d: nat)
    requires IsDigit(c)
    ensures d <= 9
    ensures c == '0' ==> d == 0
  {
    (c as int) - ('0' as int)
  }

  lemma DigitValueInjective(c: char, c': char)
    requires IsDigit(c) && IsDigit(c')
    ensures DigitValue(c) == DigitValue(c') <==> c == c'
  {
  }

  /**
   * The regular expression `\d{n}` matches s from position pos to its end:
   * n more characters, each a digit, and then nothing.
   */
  function MatchesDigitsFrom(s: string, pos: nat, n: nat): bool
    requires pos <= |s|
    decreases n
  {
    if n == 0 then pos == |s|
    else pos < |s| && IsDigit(s[pos]) && MatchesDigitsFrom(s, pos + 1, n - 1)
  }

  /** Whole-string match of `\d{n}`, as String.matches performs it. */
  predicate MatchesDigits(s: string, n: nat) {
    MatchesDigitsFrom(s, 0, n)
  }

  /** `\d{n}` matches from pos exactly when n digits remain there. */
  lemma {:induction false} MatchesDigitsFromIff(s: string, pos: nat, n: nat)
    requires pos <= |s|
    ensures MatchesDigitsFrom(s, pos, n) <==>
      |s| == pos + n && forall i :: pos <= i < |s| ==> IsDigit(s[i])
    decreases n
  {
    if n > 0 && pos < |s| {
      MatchesDigitsFromIff(s, pos + 1, n - 1);
    }
  }

  /** `\d{n}` matches exactly the strings of n ASCII digits. */
  lemma MatchesDigitsIff(s: string, n: nat)
    ensures MatchesDigits(s, n) <==> |s| == n && AllDigits(s)
  {
    MatchesDigitsFromIff(s, 0, n);
  }

  function Pow10(n: nat): (p: nat)
    ensures p >= 1
  {
    if n == 0 then 1 else 10 * Pow10(n - 1)
  }

  lemma {:induction false} Pow10Monotone(m: nat, n: nat)
    requires m <= n
    ensures Pow10(m) <= Pow10(n)
    decreases n
  {
    if m < n {
      Pow10Monotone(m, n - 1);
    }
  }

  /** The value of a string of decimal digits, most significant digit first. */
  function NumeralValue(s: string): nat
    requires AllDigits(s)
    decreases |s|
  {
    if s == [] then 0
    else NumeralValue(s[..|s| - 1]) * 10 + DigitValue(s[|s| - 1])
  }

  /** A numeral of n digits denotes less than 10^n. */
  lemma {:induction false} NumeralValueBound(s: string)
    requires AllDigits(s)
    ensures NumeralValue(s) < Pow10(|s|)
    decreases |s|
  {
    if s != [] {
      NumeralValueBound(s[..|s| - 1]);
    }
  }

  /** Appending a digit multiplies the value by ten and adds the digit. */
  lemma NumeralValueSnoc(s: string, c: char)
    requires AllDigits(s) && IsDigit(c)
    ensures AllDigits(s + [c])
    ensures NumeralValue(s + [c]) == 10 * NumeralValue(s) + DigitValue(c)
  {
    assert (s + [c])[..|s|] == s;
  }

  /** The range of Java's `int`. */
  const IntMin: int := -0x8000_0000
  const IntMax: int := 0x7fff_ffff

  function InIntRange(v: int): (r: Option<int>)
    ensures r.Some? <==> IntMin <= v <= IntMax
    ensures r.Some? ==> r.value == v
  {
    if IntMin <= v <= IntMax then Some(v) else None
  }

  /**
   * `Integer.parseInt(s)` on ASCII input: an optional sign followed by one
   * or more digits, whose value fits in an `int`. None stands for the
   * NumberFormatException the library throws otherwise.
   */
  function ParseInt(s: string): (r: Option<int>)
    ensures r.Some? ==> IntMin <= r.value <= IntMax
    ensures r.Some? ==> s != [] && (|s| >= 2 || !IsSign(s[0]))
    ensures r.Some? ==> s != [] && AllDigits(if IsSign(s[0]) then s[1..] else s)
    ensures r.Some? ==> -(Pow10(|s| - 1) as int) < r.value < Pow10(|s|)
    ensures s != [] && AllDigits(s) && |s| <= 9 ==> r == Some(NumeralValue(s))
    ensures 2 <= |s| <= 10 && IsSign(s[0]) && AllDigits(s[1..]) ==>
      r == Some(if s[0] == '-' then -(NumeralValue(s[1..]) as int) else NumeralValue(s[1..]))
  {
    if s == [] then None
    else if IsSign(s[0]) then
      var digits := s[1..];
      if digits == [] || !AllDigits(digits) then None
      else
        NumeralValueBound(digits);
        var magnitude: int := NumeralValue(digits);
        var v := if s[0] == '-' then -magnitude else magnitude;
        if |digits| <= 9 then Pow10Monotone(|digits|, 9); InIntRange(v)
        else InIntRange(v)
    else if AllDigits(s) then
      NumeralValueBound(s);
      Pow10Monotone(|s| - 1, |s|);
      if |s| <= 9 then Pow10Monotone(|s|, 9); InIntRange(NumeralValue(s))
      else InIntRange(NumeralValue(s))
    else None
  }

  /** The sum of the decimal digits of n. */
  function DigitSum(n: nat): nat {
    if n == 0 then 0 else DigitSum(n / 10) + n % 10
  }

  /** Appending a digit r to the numeral of q adds r to the digit sum. */
  lemma DigitSumAppend(n: nat, q: nat, r: nat)
    requires r <= 9 && n == 10 * q + r
    ensures DigitSum(n) == DigitSum(q) + r
  {
    if n > 0 {
      assert n / 10 == q && n % 10 == r;
    }
  }
}
