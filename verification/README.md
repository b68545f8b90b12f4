# South African identity number validator, modelled in Dafny

The system checks 13-digit South African identity numbers laid out as
`YYMMDDSSSSCAZ`:

- a birth date `YYMMDD`, where a two-digit year above 50 means 19xx and any other means 20xx;
- a four-digit sequence number `SSSS`, which also codes gender (0000–4999 female, 5000–9999 male);
- a citizenship digit `C` (0 for a citizen, 1 for a permanent resident);
- a digit `A`;
- a check digit `Z`.

`isIdNumberValid` runs five checks in order and stops at the first that fails: format, birth date, gender code, citizenship and checksum. `getGender` classifies a number by its sequence number.

The model has five modules:

- `Wrappers`: `Option`. A Java `null` string is `None`.
- `Numerals`: the ASCII side of Java's digit handling.
  - the regular expression `\d{n}`;
  - `Character.getNumericValue` on '0'..'9';
  - `Integer.parseInt`, with its optional sign and the 32-bit range. `None` stands for `NumberFormatException`.
  - the value and digit sum of a numeral.
- `Calendar`: the proleptic Gregorian calendar. It stands in for the date check that `LocalDate.of` performs.
- `Luhn`: the standard right-to-left Luhn formula of ISO/IEC 7812-1, Annex B. It serves as an independent reference. Its main lemma is that the formula catches every single-digit substitution.
- `ValidateSaId`: the validator itself.
  - Every check is a function.
  - The checksum routine is a method with the source's three loops and running sums. It is proved against a specification function (`ChecksumHolds`) and against the reference Luhn formula.
  - `isIdNumberValid` is a method that calls the checksum method.
  - The unit-test vectors are lemmas.

The checksum routine does not use the per-digit Luhn form; it uses a South African formulation:

1. Concatenate the six digits at the even positions.
2. Double the resulting number.
3. Add up the digits of the product.

The usual Luhn statement works digit by digit, from the right. The code concatenates the even-position digits instead. `ChecksumIsLuhn` proves the two agree on every 13-digit string. The proof works because no doubled digit's carry ever cascades (`DoubledNumeralDigitSum`).

Positions 7–10 of the sample `2001014800086` are `4800`, so that number is female (`SampleGenders`).

## Model

| member | source | states |
|---|---|---|
| ValidateSaId.IsIdNumberValid | app/src/main/java/ValidateSaId.java:23-29 | Valid exactly when format, birth date, citizenship and checksum all hold. False for null, for any length other than 13 and for any non-digit character. A valid number has citizenship digit 0 or 1 and passes the standard Luhn check. |
| ValidateSaId.GenderCodeCheckRedundant | app/src/main/java/ValidateSaId.java:67-75 | The gender-code check accepts every string that passed the format check. It therefore never decides the outcome of `isIdNumberValid`. |
| ValidateSaId.IsProperFormat | app/src/main/java/ValidateSaId.java:37-39 | True exactly when the input is non-null, has 13 characters, and every character is an ASCII digit. |
| Numerals.MatchesDigitsIff | app/src/main/java/ValidateSaId.java:38 | A whole-string match of `\d{n}` holds exactly when the string has length n and consists of ASCII digits. |
| Numerals.ParseInt | app/src/main/java/ValidateSaId.java:50-52 | A parse succeeds only on an optional sign followed by at least one digit; a lone sign fails. The value lies in the 32-bit range and is bounded by the numeral's length. On at most nine plain digits it is the numeral's decimal value. A sign followed by at most nine digits gives that value, negated for '-'. |
| ValidateSaId.BirthYearRange | app/src/main/java/ValidateSaId.java:50-53 | Whatever the first two characters parse to, sign included, the resolved full year lies in 1951..2050. |
| ValidateSaId.BirthDateAcceptsIff | app/src/main/java/ValidateSaId.java:48-59 | On digits, the check accepts exactly when the month is in 1..12 and the day is in 1..days of that month in the resolved year. The resolved year lies in 1951..2050. |
| ValidateSaId.BirthDateDigits | app/src/main/java/ValidateSaId.java:48-59 | The same equivalence, stated in terms of the six digit values. |
| Calendar.DaysInMonth | app/src/main/java/ValidateSaId.java:54 | Every month has 28–31 days. February has 29 exactly in leap years and 28 exactly otherwise. |
| ValidateSaId.IsValidGenderCode | app/src/main/java/ValidateSaId.java:67-75 | Acceptance needs a non-null string of at least 10 characters whose positions 7–10 parse to a number in 0..9999. Any such string whose positions 7–10 are digits is accepted. |
| ValidateSaId.GenderCodeAcceptsIff | app/src/main/java/ValidateSaId.java:67-75 | The check accepts exactly when the string is non-null, has at least 10 characters, and positions 7–10 are four digits, or '+' and three digits, or "-000". |
| ValidateSaId.GetGender | app/src/main/java/ValidateSaId.java:84-92 | Unknown exactly when the format check fails. Otherwise Male exactly when the sequence number is at least 5000, and Female below that. |
| ValidateSaId.GenderCode | app/src/main/java/ValidateSaId.java:87 | The sequence number lies in 0..9999. |
| ValidateSaId.IsValidCitizenship | app/src/main/java/ValidateSaId.java:102-109 | Accepts exactly when the 11th character is '0' or '1'. |
| ValidateSaId.CheckDigit | app/src/main/java/ValidateSaId.java:148-149 | The computed check digit lies in 0..9 and brings the total to a multiple of ten. |
| ValidateSaId.CheckDigitAcceptsIff | app/src/main/java/ValidateSaId.java:148-153 | The checksum holds exactly when the total plus the last digit is a multiple of ten. |
| Luhn.DoubledNumeralDigitSum | app/src/main/java/ValidateSaId.java:133-145 | The digit sum of twice a numeral equals the sum of its digits, each doubled and reduced by 9 when it exceeds 9. |
| Luhn.DoubleIsDigitSum | app/src/main/java/ValidateSaId.java:141-145 | Doubling a digit and subtracting 9 when it exceeds 9 gives the digit sum of its double. |
| ValidateSaId.LuhnPrefix | app/src/main/java/ValidateSaId.java:128-145 | The right-to-left Luhn sum of the first 2j+1 digits splits into the undoubled odd-position digits and the doubled even-position digits. |
| ValidateSaId.ChecksumIsLuhn | app/src/main/java/ValidateSaId.java:111-122 | The South African formulation accepts exactly the 13-digit strings that pass the standard Luhn check. |
| ValidateSaId.IsValidLuhnChecksum | app/src/main/java/ValidateSaId.java:124-154 | The loops compute the odd-position sum, the even-position numeral and its doubled digit sum. The result is true exactly when the checksum holds, which is exactly when the standard Luhn check passes. |
| Luhn.SingleDigitErrorDetected | app/src/main/java/ValidateSaId.java:111-112 | If a number passes the Luhn check, changing any one of its digits makes it fail. |
| ValidateSaId.AcceptsSampleNumbers | app/src/test/java/ValidateSaIdTest.java:24-29 | `2001014800086` and `2909035800085` are valid. |
| ValidateSaId.RejectsWrongCheckDigit | app/src/test/java/ValidateSaIdTest.java:79-80 | `2001014800087` passes format, birth date and citizenship. It fails on the checksum alone. |
| ValidateSaId.RejectsMalformedNumbers | app/src/test/java/ValidateSaIdTest.java:47-64 | Null, empty, 11-digit and non-digit inputs are invalid. |
| ValidateSaId.RejectsImpossibleBirthDates | app/src/test/java/ValidateSaIdTest.java:50-51 | Month 13 and day 32 fail the birth-date check, so both numbers are invalid. |
| ValidateSaId.RejectsCitizenshipDigitTwo | app/src/test/java/ValidateSaIdTest.java:52 | Citizenship digit 2 fails the citizenship check. |
| ValidateSaId.LeapDayInLeapYears | app/src/main/java/ValidateSaId.java:53-54 | February 29 is a valid birth date in 2000 (year 00) and in 1952 (year 52). |
| ValidateSaId.NoSuchFebruaryDays | app/src/main/java/ValidateSaId.java:53-54 | February 29, 2001 and February 30 are rejected. |
| ValidateSaId.SampleGenders | app/src/main/java/ValidateSaId.java:77-92 | Sequence number 4800 is female and 5000 is male. A null or empty input has gender Unknown. |

## Left out

- The regular-expression engine: `\d{13}` is modelled directly, with `\d` as an ASCII digit. This is Java's default without the Unicode character-class flag.
- Non-ASCII decimal digits: `Integer.parseInt` and `Character.getNumericValue` also accept digits of other scripts. The model treats only '0'..'9' as digits, so in `ParseInt` any other character is a parse failure.
- `java.time.LocalDate`: the model replaces it with the `Calendar` module. `LocalDate.of` succeeds exactly when the year is in its range and the month and day name a real date. The exception becomes `false`.
- Exceptions: `NumberFormatException` and `DateTimeException` become `None` or `false` at the point where the source catches them.
- ValidateSaId.IsValidBirthDate, ValidateSaId.IsValidCitizenship: these take a non-null string at least as long as their `substring` calls need. The source leaves null and short input to an uncaught exception, and its only caller runs the format check first.
- ValidateSaId.IsValidLuhnChecksum: this requires 13 ASCII digits. On other input the source can throw an uncaught `NumberFormatException`, and its only caller runs the format check first.
- Java `int` overflow: no value in the checks exceeds 2 × 999999, so wrap-around never arises and is not modelled.
- The JUnit scaffolding (`@Nested`, `@ParameterizedTest`): its vectors appear only as lemmas.
