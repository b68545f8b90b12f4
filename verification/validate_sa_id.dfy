/**
 * Validation of 13-digit South African identity numbers, laid out
 * YYMMDDSSSSCAZ: YYMMDD the birth date, SSSS the sequence number (which also
 * codes gender), C the citizenship digit, A a further digit and Z the check
 * digit. A Java `null` is `None`.
 */
module ValidateSaId {
  import opened Wrappers
  import opened Numerals
  import Calendar
  import Luhn

  datatype Gender = Male | Female | Unknown

  /** Thirteen ASCII digits: what every check after the format check receives. */
  predicate IsIdShape(id: string) {
    |id| == 13 && AllDigits(id)
  }

  lemma SliceDigits(id: string, lo: nat, hi: nat)
    requires AllDigits(id) && lo <= hi <= |id|
    ensures AllDigits(id[lo..hi])
  {
    assert forall k :: 0 <= k < hi - lo ==> id[lo..hi][k] == id[lo + k];
  }

  // ---------------------------------------------------------------- format

  /** The input is present and matches `\d{13}`. */
  function IsProperFormat(id: Option<string>): (r: bool)
    ensures r <==> id.Some? && IsIdShape(id.value)
  {
    match id
    case None => false
    case Some(s) =>
      MatchesDigitsIff(s, 13);
      MatchesDigits(s, 13)
  }

  // ------------------------------------------------------------ birth date

  /** Century cutoff: two-digit years above 50 are 19xx, all others 20xx. */
  function FullYear(year: int): int {
    if year > 50 then 1900 + year else 2000 + year
  }

  /** YYMMDD names a real date, with the year resolved by FullYear. */
  function IsValidBirthDate(id: string): bool
    requires |id| >= 6
  {
    match (ParseInt(id[0..2]), ParseInt(id[2..4]), ParseInt(id[4..6]))
    case (Some(year), Some(month), Some(day)) =>
      Calendar.IsValidDate(FullYear(year), month, day)
    case _ => false
  }

  /**
   * Whatever the first two characters parse to (a sign is allowed by the
   * parser), the resolved year lies in 1951..2050.
   */
  lemma BirthYearRange(id: string)
    requires |id| >= 2
    ensures ParseInt(id[0..2]).Some? ==> 1951 <= FullYear(ParseInt(id[0..2]).value) <= 2050
  {
    assert Pow10(1) == 10 && Pow10(2) == 100;
  }

  /** The two-digit fields of a YYMMDD prefix. */
  function Field(id: string, at: nat): (v: nat)
    requires at + 2 <= |id| && AllDigits(id)
    ensures v <= 99
  {
    SliceDigits(id, at, at + 2);
    NumeralValueBound(id[at..at + 2]);
    assert Pow10(2) == 100;
    NumeralValue(id[at..at + 2])
  }

  lemma FieldValue(id: string, at: nat)
    requires at + 2 <= |id| && AllDigits(id)
    ensures Field(id, at) == 10 * DigitValue(id[at]) + DigitValue(id[at + 1])
  {
    SliceDigits(id, at, at + 2);
    assert id[at..at + 2] == [] + [id[at]] + [id[at + 1]];
    NumeralValueSnoc([], id[at]);
    NumeralValueSnoc([id[at]], id[at + 1]);
  }

  /**
   * On digits, the birth-date check accepts exactly when the month is in
   * 1..12 and the day in 1..(days of that month in the resolved year).
   */
  lemma BirthDateAcceptsIff(id: string)
    requires |id| >= 6 && AllDigits(id)
    ensures IsValidBirthDate(id) <==>
      1 <= Field(id, 2) <= 12 && 1 <= Field(id, 4) <= Calendar.DaysInMonth(FullYear(Field(id, 0)), Field(id, 2))
    ensures 1951 <= FullYear(Field(id, 0)) <= 2050
  {
    SliceDigits(id, 0, 2);
    SliceDigits(id, 2, 4);
    SliceDigits(id, 4, 6);
  }

  /** The birth-date check in terms of the six digits themselves. */
  lemma BirthDateDigits(id: string)
    requires |id| >= 6 && AllDigits(id)
    ensures
      var year := 10 * DigitValue(id[0]) + DigitValue(id[1]);
      var month := 10 * DigitValue(id[2]) + DigitValue(id[3]);
      var day := 10 * DigitValue(id[4]) + DigitValue(id[5]);
      IsValidBirthDate(id) <==>
        1 <= month <= 12 && 1 <= day <= Calendar.DaysInMonth(FullYear(year), month)
  {
    BirthDateAcceptsIff(id);
    FieldValue(id, 0);
    FieldValue(id, 2);
    FieldValue(id, 4);
  }

  // ----------------------------------------------------------- gender code

  /** Positions 7..10 are present and parse to a number in 0..9999. */
  function IsValidGenderCode(id: Option<string>): (r: bool)
    ensures r ==> id.Some? && |id.value| >= 10
    ensures r ==> ParseInt(id.value[6..10]).Some? && 0 <= ParseInt(id.value[6..10]).value <= 9999
    ensures id.Some? && |id.value| >= 10 && AllDigits(id.value[6..10]) ==> r
  {
    if id.None? || |id.value| < 10 then false
    else
      assert Pow10(4) == 10000;
      match ParseInt(id.value[6..10])
      case None => false
      case Some(code) => 0 <= code <= 9999
  }

  /**
   * The gender check in terms of characters: positions 7..10 are four
   * digits, or '+' and three digits, or "-000" (which parses to 0).
   */
  lemma GenderCodeAcceptsIff(id: Option<string>)
    ensures IsValidGenderCode(id) <==>
      && id.Some? && |id.value| >= 10
      && var f := id.value[6..10];
         AllDigits(f) || (f[0] == '+' && AllDigits(f[1..])) || f == "-000"
  {
    if id.Some? && |id.value| >= 10 {
      var f := id.value[6..10];
      var t := f[1..];
      assert Pow10(3) == 1000 && Pow10(4) == 10000;
      if IsSign(f[0]) && AllDigits(t) {
        NumeralValueBound(t);
        if f[0] == '-' {
          assert t == [] + [t[0]] + [t[1]] + [t[2]];
          NumeralValueSnoc([], t[0]);
          NumeralValueSnoc([t[0]], t[1]);
          NumeralValueSnoc([t[0], t[1]], t[2]);
          DigitValueInjective(t[0], '0');
          DigitValueInjective(t[1], '0');
          DigitValueInjective(t[2], '0');
          assert NumeralValue(t) == 0 <==> t == "000";
          assert f == "-000" <==> t == "000";
        }
      } else if AllDigits(f) {
        NumeralValueBound(f);
      } else {
        assert ParseInt(f).None?;
      }
    }
  }

  /** The gender check never rejects a string that passed the format check. */
  lemma GenderCodeCheckRedundant(id: Option<string>)
    requires IsProperFormat(id)
    ensures IsValidGenderCode(id)
  {
    SliceDigits(id.value, 6, 10);
  }

  /** The sequence number at positions 7..10. */
  function GenderCode(id: string): (v: nat)
    requires IsIdShape(id)
    ensures v <= 9999
  {
    SliceDigits(id, 6, 10);
    NumeralValueBound(id[6..10]);
    assert Pow10(4) == 10000;
    NumeralValue(id[6..10])
  }

  /** The sequence number, digit by digit. */
  lemma GenderCodeValue(id: string)
    requires IsIdShape(id)
    ensures GenderCode(id)
         == 1000 * DigitValue(id[6]) + 100 * DigitValue(id[7]) + 10 * DigitValue(id[8]) + DigitValue(id[9])
  {
    SliceDigits(id, 6, 10);
    assert id[6..6] == [];
    assert id[6..7] == id[6..6] + [id[6]];
    assert id[6..8] == id[6..7] + [id[7]];
    assert id[6..9] == id[6..8] + [id[8]];
    assert id[6..10] == id[6..9] + [id[9]];
    NumeralValueSnoc(id[6..6], id[6]);
    NumeralValueSnoc(id[6..7], id[7]);
    NumeralValueSnoc(id[6..8], id[8]);
    NumeralValueSnoc(id[6..9], id[9]);
  }

  /** 0000..4999 is female, 5000..9999 male; a malformed number has no gender. */
  function GetGender(id: Option<string>): (g: Gender)
    ensures g == Unknown <==> !IsProperFormat(id)
    ensures IsProperFormat(id) ==> (g == Male <==> GenderCode(id.value) >= 5000)
  {
    if !IsProperFormat(id) then Unknown
    else
      assert ParseInt(id.value[6..10]) == Some(GenderCode(id.value));
      match ParseInt(id.value[6..10])
      case None => Unknown
      case Some(code) => if code >= 5000 then Male else Female
  }

  // ----------------------------------------------------------- citizenship

  /** Position 11 is 0 (citizen) or 1 (permanent resident). */
  function IsValidCitizenship(id: string): (r: bool)
    requires |id| >= 11
    ensures r <==> id[10] == '0' || id[10] == '1'
  {
    match ParseInt(id[10..11])
    case None => false
    case Some(digit) => digit == 0 || digit == 1
  }

  // -------------------------------------------------------------- checksum

  /** The sum of the first j digits at the odd positions 1, 3, 5, … (indices 0, 2, 4, …). */
  function OddPositionSum(id: string, j: nat): nat
    requires IsIdShape(id) && j <= 7
  {
    if j == 0 then 0 else OddPositionSum(id, j - 1) + DigitValue(id[2 * (j - 1)])
  }

  /** The first j digits at the even positions 2, 4, 6, … (indices 1, 3, 5, …), concatenated. */
  function EvenPositionDigits(id: string, j: nat): (e: string)
    requires IsIdShape(id) && j <= 6
    ensures |e| == j && AllDigits(e)
  {
    if j == 0 then [] else EvenPositionDigits(id, j - 1) + [id[2 * j - 1]]
  }

  /** The number the even-position digits spell, digit by digit. */
  lemma EvenNumberValue(id: string)
    requires IsIdShape(id)
    ensures NumeralValue(EvenPositionDigits(id, 6))
         == 100000 * DigitValue(id[1]) + 10000 * DigitValue(id[3]) + 1000 * DigitValue(id[5])
          + 100 * DigitValue(id[7]) + 10 * DigitValue(id[9]) + DigitValue(id[11])
  {
    NumeralValueSnoc(EvenPositionDigits(id, 0), id[1]);
    NumeralValueSnoc(EvenPositionDigits(id, 1), id[3]);
    NumeralValueSnoc(EvenPositionDigits(id, 2), id[5]);
    NumeralValueSnoc(EvenPositionDigits(id, 3), id[7]);
    NumeralValueSnoc(EvenPositionDigits(id, 4), id[9]);
    NumeralValueSnoc(EvenPositionDigits(id, 5), id[11]);
  }

  /**
   * The South African formulation: the odd-position digits 1..11 summed,
   * plus the digit sum of twice the number the even-position digits 2..12
   * spell.
   */
  function ChecksumTotal(id: string): nat
    requires IsIdShape(id)
  {
    OddPositionSum(id, 6) + DigitSum(2 * NumeralValue(EvenPositionDigits(id, 6)))
  }

  /** The sum of the digits at the odd positions, digit by digit. */
  lemma OddPositionSumValue(id: string)
    requires IsIdShape(id)
    ensures OddPositionSum(id, 6)
         == DigitValue(id[0]) + DigitValue(id[2]) + DigitValue(id[4])
          + DigitValue(id[6]) + DigitValue(id[8]) + DigitValue(id[10])
  {
    assert OddPositionSum(id, 1) == DigitValue(id[0]);
    assert OddPositionSum(id, 2) == OddPositionSum(id, 1) + DigitValue(id[2]);
    assert OddPositionSum(id, 3) == OddPositionSum(id, 2) + DigitValue(id[4]);
    assert OddPositionSum(id, 4) == OddPositionSum(id, 3) + DigitValue(id[6]);
    assert OddPositionSum(id, 5) == OddPositionSum(id, 4) + DigitValue(id[8]);
  }

  /** The digit that makes the total up to a multiple of ten. */
  function CheckDigit(id: string): (d: nat)
    requires IsIdShape(id)
    ensures d <= 9
    ensures (ChecksumTotal(id) + d) % 10 == 0
  {
    var t := ChecksumTotal(id);
    var d := (10 - t % 10) % 10;
    assert t == 10 * (t / 10) + t % 10;
    assert t % 10 != 0 ==> t + d == 10 * (t / 10 + 1);
    d
  }

  predicate ChecksumHolds(id: string)
    requires IsIdShape(id)
  {
    CheckDigit(id) == DigitValue(id[12])
  }

  /** The check digit is right exactly when it brings the total to a multiple of ten. */
  lemma CheckDigitAcceptsIff(id: string)
    requires IsIdShape(id)
    ensures ChecksumHolds(id) <==> (ChecksumTotal(id) + DigitValue(id[12])) % 10 == 0
  {
    var t, d, e := ChecksumTotal(id), CheckDigit(id), DigitValue(id[12]);
    if (t + e) % 10 == 0 {
      var k, m := (t + d) / 10, (t + e) / 10;
      assert 10 * (k - m) == d - e;
    }
  }

  /** The right-to-left Luhn sum of the first 2j+1 digits, split by position parity. */
  lemma {:induction false} LuhnPrefix(id: string, j: nat)
    requires IsIdShape(id) && j <= 6
    ensures Luhn.Sum(id, 2 * j + 1, false)
         == OddPositionSum(id, j + 1) + Luhn.DoubledSum(EvenPositionDigits(id, j))
  {
    if j > 0 {
      LuhnPrefix(id, j - 1);
      var e := EvenPositionDigits(id, j);
      assert e[..j - 1] == EvenPositionDigits(id, j - 1);
    }
  }

  /** The South African formulation is the standard Luhn check. */
  lemma ChecksumIsLuhn(id: string)
    requires IsIdShape(id)
    ensures ChecksumHolds(id) <==> Luhn.IsValid(id)
  {
    LuhnPrefix(id, 6);
    Luhn.DoubledNumeralDigitSum(EvenPositionDigits(id, 6));
    CheckDigitAcceptsIff(id);
  }

  /** Steps 1..5 of the checksum, with the source's loops and running sums. */
  method IsValidLuhnChecksum(id: string) returns (ok: bool)
    requires IsIdShape(id)
    ensures ok <==> ChecksumHolds(id)
    ensures ok <==> Luhn.IsValid(id)
  {
    var sumOdd := 0;
    var sumEven := 0;

    var i := 0;
    while i < 12
      invariant 0 <= i <= 12 && i % 2 == 0
      invariant sumOdd == OddPositionSum(id, i / 2)
    {
      sumOdd := sumOdd + DigitValue(id[i]);
      i := i + 2;
    }

    var evenDigits: string := [];
    i := 1;
    while i < 12
      invariant 1 <= i <= 13 && i % 2 == 1
      invariant evenDigits == EvenPositionDigits(id, i / 2)
    {
      evenDigits := evenDigits + [id[i]];
      i := i + 2;
    }

    assert evenDigits == EvenPositionDigits(id, 6);
    var parsed := ParseInt(evenDigits);
    assert parsed == Some(NumeralValue(evenDigits));
    var evenNumber := parsed.value * 2;
    ghost var doubled := evenNumber;

    while evenNumber > 0
      invariant 0 <= evenNumber
      invariant sumEven + DigitSum(evenNumber) == DigitSum(doubled)
    {
      sumEven := sumEven + evenNumber % 10;
      evenNumber := evenNumber / 10;
    }

    assert sumOdd == OddPositionSum(id, 6) && sumEven == DigitSum(doubled);
    var total := sumOdd + sumEven;
    assert total == ChecksumTotal(id);
    var calculatedCheckDigit := (10 - total % 10) % 10;
    assert calculatedCheckDigit == CheckDigit(id);
    var actualCheckDigit := DigitValue(id[12]);
    ok := calculatedCheckDigit == actualCheckDigit;
    ChecksumIsLuhn(id);
  }

  // ------------------------------------------------------------ validation

  /** Format, birth date, citizenship and checksum all hold. */
  predicate ValidIdNumber(id: Option<string>) {
    && IsProperFormat(id)
    && IsValidBirthDate(id.value)
    && IsValidCitizenship(id.value)
    && ChecksumHolds(id.value)
  }

  /** The five checks in order, stopping at the first that fails. */
  method IsIdNumberValid(id: Option<string>) returns (valid: bool)
    ensures valid <==> ValidIdNumber(id)
    ensures id.None? || |id.value| != 13 ==> !valid
    ensures id.Some? && (exists k :: 0 <= k < |id.value| && !IsDigit(id.value[k])) ==> !valid
    ensures valid ==> id.value[10] in "01" && Luhn.IsValid(id.value)
  {
    if !IsProperFormat(id) {
      return false;
    }
    if !IsValidBirthDate(id.value) {
      return false;
    }
    GenderCodeCheckRedundant(id);
    if !IsValidGenderCode(id) {
      return false;
    }
    if !IsValidCitizenship(id.value) {
      return false;
    }
    valid := IsValidLuhnChecksum(id.value);
  }

  // -------------------------------------------------------- sample numbers
  // Each sample is passed in as a parameter equal to the literal, so that the
  // proof goes through the digit-level lemmas above instead of evaluating
  // every function on the literal.

  /** Format, birth date and citizenship of the two valid samples. */
  lemma SampleFields(first: string, second: string)
    requires first == "2001014800086" && second == "2909035800085"
    ensures IsProperFormat(Some(first)) && IsValidBirthDate(first) && IsValidCitizenship(first)
    ensures IsProperFormat(Some(second)) && IsValidBirthDate(second) && IsValidCitizenship(second)
  {
    BirthDateDigits(first);
    BirthDateDigits(second);
  }

  // The digit sums of the two doubled even-position numbers; the argument is a
  // parameter so that the recursion is unfolded step by step.
  lemma DigitSumOf23616(n: nat)
    requires n == 23616
    ensures DigitSum(n) == 18
  {
  }

  lemma DigitSumOf1987616(n: nat)
    requires n == 1987616
    ensures DigitSum(n) == 38
  {
  }

  /** Odd positions 2+0+0+4+0+0, even positions 011808 doubled to 23616 with digit sum 18. */
  lemma FirstSampleTotal(id: string)
    requires id == "2001014800086" || id == "2001014800087"
    ensures ChecksumTotal(id) == 24
  {
    OddPositionSumValue(id);
    EvenNumberValue(id);
    var e := NumeralValue(EvenPositionDigits(id, 6));
    assert e == 11808;
    DigitSumOf23616(2 * e);
  }

  /** Odd positions 2+0+0+5+0+0, even positions 993808 doubled to 1987616 with digit sum 38. */
  lemma SecondSampleTotal(id: string)
    requires id == "2909035800085"
    ensures ChecksumTotal(id) == 45
  {
    OddPositionSumValue(id);
    EvenNumberValue(id);
    var e := NumeralValue(EvenPositionDigits(id, 6));
    assert e == 993808;
    DigitSumOf1987616(2 * e);
  }

  lemma FirstSampleChecksum(id: string)
    requires id == "2001014800086"
    ensures ChecksumHolds(id)
  {
    FirstSampleTotal(id);
    CheckDigitAcceptsIff(id);
  }

  lemma SecondSampleChecksum(id: string)
    requires id == "2909035800085"
    ensures ChecksumHolds(id)
  {
    SecondSampleTotal(id);
    CheckDigitAcceptsIff(id);
  }

  /** The check digit 7 where 6 is expected: the checksum fails. */
  lemma WrongCheckDigitChecksum(id: string)
    requires id == "2001014800087"
    ensures !ChecksumHolds(id)
  {
    FirstSampleTotal(id);
    CheckDigitAcceptsIff(id);
  }

  lemma AcceptsSampleNumbers(first: string, second: string)
    requires first == "2001014800086" && second == "2909035800085"
    ensures ValidIdNumber(Some(first)) && ValidIdNumber(Some(second))
  {
    SampleFields(first, second);
    FirstSampleChecksum(first);
    SecondSampleChecksum(second);
  }

  /** Only the last digit differs from a valid number, and only the checksum fails. */
  lemma RejectsWrongCheckDigit(id: string)
    requires id == "2001014800087"
    ensures IsProperFormat(Some(id)) && IsValidBirthDate(id) && IsValidCitizenship(id)
    ensures !ValidIdNumber(Some(id))
  {
    BirthDateDigits(id);
    WrongCheckDigitChecksum(id);
  }

  lemma RejectsMalformedNumbers()
    ensures !ValidIdNumber(None) && !ValidIdNumber(Some(""))
    ensures !ValidIdNumber(Some("20010148000"))
    ensures !ValidIdNumber(Some("20010A4800086"))
  {
  }

  /** Month 13 and day 32 fail the birth-date check. */
  lemma RejectsImpossibleBirthDates(month13: string, day32: string)
    requires month13 == "2013014800086" && day32 == "2001324800086"
    ensures !IsValidBirthDate(month13) && !ValidIdNumber(Some(month13))
    ensures !IsValidBirthDate(day32) && !ValidIdNumber(Some(day32))
  {
    BirthDateDigits(month13);
    BirthDateDigits(day32);
  }

  lemma RejectsCitizenshipDigitTwo(id: string)
    requires id == "2001014800286"
    ensures !IsValidCitizenship(id) && !ValidIdNumber(Some(id))
  {
  }

  /** February 29 is accepted in the leap years 2000 (divisible by 400) and 1952. */
  lemma LeapDayInLeapYears(y2000: string, y1952: string)
    requires y2000 == "000229" && y1952 == "520229"
    ensures IsValidBirthDate(y2000) && IsValidBirthDate(y1952)
  {
    BirthDateDigits(y2000);
    BirthDateDigits(y1952);
  }

  /** 2001 is not a leap year, and no February has a 30th. */
  lemma NoSuchFebruaryDays(y2001: string, feb30: string)
    requires y2001 == "010229" && feb30 == "000230"
    ensures !IsValidBirthDate(y2001) && !IsValidBirthDate(feb30)
  {
    BirthDateDigits(y2001);
    BirthDateDigits(feb30);
  }

  /** Sequence number 4800 is female, 5000 (the boundary) male; no number, no gender. */
  lemma SampleGenders(female: string, male: string)
    requires female == "2001014800086" && male == "2001015000084"
    ensures GetGender(Some(female)) == Female
    ensures GetGender(Some(male)) == Male
    ensures GetGender(None) == Unknown && GetGender(Some("")) == Unknown
  {
    GenderCodeValue(female);
    GenderCodeValue(male);
  }
}
