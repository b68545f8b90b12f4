/**
 * The proleptic Gregorian calendar, as far as deciding whether a
 * (year, month, day) triple names a real date.
 */
module Calendar {

  /** The year range of an ISO local date (Year.MIN_VALUE .. Year.MAX_VALUE). */
  const MinYear: int := -999_999_999
  const MaxYear: int := 999_999_999

  /** Gregorian rule: divisible by 4, and not by 100 unless also by 400. */
  predicate IsLeapYear(year: int) {
    year % 4 == 0 && (year % 100 != 0 || year % 400 == 0)
  }

  function DaysInMonth(year: int, month: int): (n: nat)
    requires 1 <= month <= 12
    ensures 28 <= n <= 31
    ensures n == 29 <==> month == 2 && IsLeapYear(year)
    ensures n == 28 <==> month == 2 && !IsLeapYear(year)
  {
    if month == 2 then (if IsLeapYear(year) then 29 else 28)
    else if month == 4 || month == 6 || month == 9 || month == 11 then 30
    else 31
  }

  /** The days of a year's twelve months add up to the length of the year. */
  lemma YearLength(year: int)
    ensures DaysInMonth(year, 1) + DaysInMonth(year, 2) + DaysInMonth(year, 3)
          + DaysInMonth(year, 4) + DaysInMonth(year, 5) + DaysInMonth(year, 6)
          + DaysInMonth(year, 7) + DaysInMonth(year, 8) + DaysInMonth(year, 9)
          + DaysInMonth(year, 10) + DaysInMonth(year, 11) + DaysInMonth(year, 12)
          == if IsLeapYear(year) then 366 else 365
  {
  }

  /** Whether the triple names a date that exists (what LocalDate.of accepts). */
  predicate IsValidDate(year: int, month: int, day: int) {
    && MinYear <= year <= MaxYear
    && 1 <= month <= 12
    && 1 <= day <= DaysInMonth(year, month)
  }
}
