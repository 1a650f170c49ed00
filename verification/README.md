# MRZ date generator — Dafny model

This project models the calendar-date part of a synthetic Machine Readable Zone
(MRZ) data generator, `data/generate.py`. That part has four pieces:

- the Gregorian leap-year test;
- the last valid day of a month, which caps the random day draw;
- the `Date` record and its six-character `YYMMDD` rendering, the form of MRZ
  date-of-birth and expiry fields;
- the chaining in `main`: a birth date with a year in 1900..2025, then an
  expiry date whose year is forced to the birth year plus 15..60.

Modules:

- `Calendar` (`calendar.dfy`): `IsLeapYear` and `DaysInMonth`. It also gives
  independent characterisations of both: a month-length table, year lengths of
  365/366 days, the closed-form leap-year count `y/4 - y/100 + y/400`, 97 leap years in any 400 consecutive years, and 146097 days per
  400 years.
- `Decimal` (`decimal.dfy`): Python's `format(n, "02d")` for every integer, and
  the reading of digits back into a number.
- `Dates` (`dates.dfy`): the `Date` datatype, `Render` (`Date.__str__`), the
  decoder `ParseYYMMDD` and the round trips between them.
- `Generate` (`generate.dfy`): `generate_date` and `main`. Each is given twice:
  - as a function that takes its `random.randint` draws as arguments, each
    constrained to the range `randint` is called with;
  - as a method that chooses those draws nondeterministically.
  Soundness lemmas say every output is a calendar date with an allowed year.
  Completeness lemmas say every such date is reachable.
- `Wrappers` (`wrappers.dfy`): `Option` and `Result`.

Notes on following the code:

- Python's `%` floors. For the positive divisors used here (4, 100, 400) that
  equals Dafny's Euclidean `%`. So `year % 100` lies in 0..99 even for a
  negative year, and the `YY` part is always two digits.
- `f"{n:02d}"` is modelled for every integer, not only for 0..99:
  - a negative number keeps its sign and gets no zero fill (`-5` gives `"-5"`,
    see `Dates.NegativeFieldsKeepSign`);
  - a number of 100 or more is not cut.
  So `Render` gives six ASCII digits exactly when the month and the day both
  lie in 0..99 (`Dates.RenderIsSixDigits`).
- The `Date` constructor validates nothing. Calendar validity (`IsCalendarDate`)
  is a postcondition of generation, not an invariant of the datatype.
- `generate_date` tests `if end_year`, so both `None` and `0` mean "no end
  year", and then the year is the start year. For example,
  `generate_date(5, 0)` returns a date in year 5 and does not raise.
- With a truthy end year below the start year, `random.randint` raises
  `ValueError`. The model returns `Failure(EmptyYearRange(..))` for that case
  instead of forbidding it.

## Model

| member | source | states |
|---|---|---|
| Calendar.IsLeapYear | data/generate.py:21-25 | the Gregorian rule: divisible by 4, and not by 100 unless by 400; `Calendar.LeapYearsThroughStep` characterises it independently |
| Calendar.LeapYearsThroughStep | data/generate.py:21-25 | the closed form y/4 - y/100 + y/400 rises by one from year y - 1 to year y exactly when y is a leap year, and is flat otherwise |
| Calendar.LeapYearExamples | data/generate.py:21-25 | 2000, 2024 and 1600 are leap years; 1900, 2100 and 2023 are not |
| Calendar.LeapYearsClosedForm | data/generate.py:21-25 | counting the years the rule accepts over any run of years agrees with the Gregorian closed form y/4 - y/100 + y/400 |
| Calendar.LeapYearsPer400 | data/generate.py:21-25 | any 400 consecutive years, starting anywhere (negative years included), contain exactly 97 leap years |
| Calendar.DaysPer400 | data/generate.py:21-41 | any 400 consecutive years span 146097 days when each year's length is the sum of the monthly day caps |
| Calendar.DaysInMonth | data/generate.py:33-41 | the day cap is between 28 and 31; it is 29 exactly for February of a leap year, 28 exactly for February of another year, 30 exactly for months 4, 6, 9 and 11, and otherwise 31 |
| Calendar.DaysInMonthMatchesTable | data/generate.py:33-41 | for months 1..12 the cap equals the usual month-length table (31, 28/29, 31, 30, …) |
| Calendar.YearLength | data/generate.py:21-41 | the twelve monthly caps sum to 366 in a leap year and 365 otherwise |
| Decimal.Digits | data/generate.py:18 | the decimal numeral of n is all digits, reads back as n, has 1 character exactly when n < 10 and at most 2 exactly when n < 100, and has no leading zero |
| Decimal.ZeroPad2 | data/generate.py:18 | the `02d` format is at least 2 characters; it is all digits exactly when n >= 0; it is exactly 2 characters exactly when -9 <= n <= 99; for n >= 0 it reads back as n; for n < 0 it is a minus sign followed by the digits of -n |
| Decimal.ZeroPad2OfTwoDigits | data/generate.py:18 | any two-digit field is the `02d` formatting of the number it denotes, so the format is onto the two-digit strings |
| Dates.Date | data/generate.py:7-11 | a plain record of year, month and day; any three integers are accepted, with no validity invariant |
| Dates.Render | data/generate.py:13-18 | the rendering has at least 6 characters and starts with the year modulo 100 as two digits |
| Dates.RenderIsSixDigits | data/generate.py:13-18 | the rendering is exactly 6 ASCII digits if and only if the month and the day both lie in 0..99 |
| Dates.CalendarDateRendersSixDigits | data/generate.py:13-18 | every calendar date renders as exactly 6 ASCII digits |
| Dates.NegativeFieldsKeepSign | data/generate.py:18 | a negative month or day keeps its minus sign with no zero fill: Date(2023, -5, 1) renders as "23-501" and Date(2023, 1, -50) as "2301-50" |
| Dates.DecodeRender | data/generate.py:17-18 | decoding a rendering gives back (year mod 100, month, day) |
| Dates.RenderDecode | data/generate.py:17-18 | every six-digit field is the rendering of the date it decodes to |
| Dates.RenderIdentifies | data/generate.py:17-18 | two renderable dates render identically exactly when they agree on year mod 100, month and day |
| Dates.LeapYearKeepsLeapInTwoDigits | data/generate.py:17-25 | if a year is leap, its last two digits also form a leap year |
| Dates.DecodedCalendarDateIsCalendarDate | data/generate.py:13-41 | the decoded `YYMMDD` field of a calendar date is again a calendar date, so 29 February survives the cut to two digits |
| Dates.UncheckedDateRendersWide | data/generate.py:7-18 | the constructor accepts 30 February 2023, which renders as "230230", and a month of 100 renders as 7 characters |
| Generate.IsTruthy | data/generate.py:31 | Python's truth test on the optional end year: false for `None` and for `0`, true for any other year |
| Generate.ChosenYear | data/generate.py:31 | the year used is the year draw when the end year is truthy, and the start year otherwise |
| Generate.GenerateDateFrom | data/generate.py:27-43 | it raises exactly when the end year is truthy and below the start year; otherwise the result is a calendar date whose year is the start year (end year None or 0) or lies in [start, end] |
| Generate.GenerateDateReachesEveryDate | data/generate.py:27-43 | every calendar date with an allowed year is produced by some in-range draws |
| Generate.ZeroEndYearActsAsMissing | data/generate.py:31 | an end year of 0 behaves exactly like no end year and never raises |
| Generate.GenerateDate | data/generate.py:27-43 | with nondeterministic draws: it fails exactly on an empty year range, and otherwise yields a calendar date with an allowed year |
| Generate.BirthAndExpiryFrom | data/generate.py:46-48 | both dates are calendar dates, the birth year is in [1900, 2025], and the expiry year is the birth year plus the offset draw in [15, 60] |
| Generate.BirthAndExpiryReachesEveryPair | data/generate.py:46-48 | every pair of calendar dates with birth year in [1900, 2025] and a year gap in [15, 60] is produced by some in-range draws |
| Generate.BirthAndExpiry | data/generate.py:46-48 | with nondeterministic draws, `main` never raises, and it yields an admissible birth/expiry pair whose two renderings are 6 ASCII digits each |

## Left out

- Python's `random` module, its generator state and the uniformity of its draws. Each `randint` draw is an argument constrained to its range, or a nondeterministic choice. Distributional properties are not stated.
- The `if __name__ == "__main__"` entry point. `main` produces no output, so only its year chaining is modelled.
- Years, months and days that are not integers are out of scope. Depending on the path, Python fails in `randint` (a float year range) or only later in `__str__`, where the `d` format rejects a float (`generate_date(2000.0)` itself returns a date). The model's years are Dafny `int`s, which, like Python's, are unbounded.
- MRZ check digits, the sampling of names and document numbers, and the assembly of 44-character lines. `data/generate.py` contains no code for these, so they are not part of this model.
