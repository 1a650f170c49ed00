/**
 Gregorian calendar rules used by the date generator: the leap-year test and
 the number of days in a month, together with independent characterisations
 of both (a month-length table, year lengths, and the 400-year cycle).
 */
module Calendar {

  /** Gregorian leap year: divisible by 4, and not a century unless divisible by 400. */
  predicate IsLeapYear(year: int)
  {
    year % 4 == 0 && (year % 100 != 0 || year % 400 == 0)
  }

  /** The last valid day of `month` in `year`: the cap the generator draws the day under.
      Any month outside February and the four 30-day months gets 31. */
  function DaysInMonth(year: int, month: int): (days: int)
    ensures 28 <= days <= 31
    ensures days == 29 <==> month == 2 && IsLeapYear(year)
    ensures days == 28 <==> month == 2 && !IsLeapYear(year)
    ensures days == 30 <==> month == 4 || month == 6 || month == 9 || month == 11
  {
    if month == 2 then
      if IsLeapYear(year) then 29 else 28
    else if month in [4, 6, 9, 11] then 30
    else 31
  }

  /** The familiar table of month lengths, January first. */
  function MonthLengths(year: int): (table: seq<int>)
    ensures |table| == 12
  {
    [31, if IsLeapYear(year) then 29 else 28, 31, 30, 31, 30, 31, 31, 30, 31, 30, 31]
  }

  /** Days in the first `months` months of `year`. */
  function DaysBeforeMonthEnd(year: int, months: nat): (days: int)
  {
    if months == 0 then 0 else DaysBeforeMonthEnd(year, months - 1) + DaysInMonth(year, months)
  }

  /** Number of leap years among the `count` consecutive years starting at `first`. */
  function LeapYearsIn(first: int, count: nat): (leapYears: nat)
    decreases count
  {
    if count == 0 then 0
    else (if IsLeapYear(first) then 1 else 0) + LeapYearsIn(first + 1, count - 1)
  }

  /** Days in the `count` consecutive years starting at `first`. */
  function DaysInYears(first: int, count: nat): (days: int)
    decreases count
  {
    if count == 0 then 0
    else DaysBeforeMonthEnd(first, 12) + DaysInYears(first + 1, count - 1)
  }

  /** The rule accepts 2000, 2024 and 1600 and rejects 1900, 2100 and 2023. */
  lemma LeapYearExamples()
    ensures IsLeapYear(2000) && IsLeapYear(2024) && IsLeapYear(1600)
    ensures !IsLeapYear(1900) && !IsLeapYear(2100) && !IsLeapYear(2023)
  {
  }

  /** Within January..December the month-length cap agrees with the table. */
  lemma DaysInMonthMatchesTable(year: int, month: int)
    requires 1 <= month <= 12
    ensures DaysInMonth(year, month) == MonthLengths(year)[month - 1]
  {
  }

  /** Summing the caps over the twelve months gives 366 days in a leap year and 365 otherwise. */
  lemma YearLength(year: int)
    ensures DaysBeforeMonthEnd(year, 12) == if IsLeapYear(year) then 366 else 365
  {
    var feb := if IsLeapYear(year) then 29 else 28;
    assert DaysBeforeMonthEnd(year, 1) == 31;
    assert DaysBeforeMonthEnd(year, 2) == 31 + feb;
    assert DaysBeforeMonthEnd(year, 3) == 62 + feb;
    assert DaysBeforeMonthEnd(year, 4) == 92 + feb;
    assert DaysBeforeMonthEnd(year, 5) == 123 + feb;
    assert DaysBeforeMonthEnd(year, 6) == 153 + feb;
    assert DaysBeforeMonthEnd(year, 7) == 184 + feb;
    assert DaysBeforeMonthEnd(year, 8) == 215 + feb;
    assert DaysBeforeMonthEnd(year, 9) == 245 + feb;
    assert DaysBeforeMonthEnd(year, 10) == 276 + feb;
    assert DaysBeforeMonthEnd(year, 11) == 306 + feb;
  }

  /** Gregorian closed form: the number of leap years in 1..year for `year >= 0`,
      and a running total that differs by one exactly at leap years everywhere. */
  function LeapYearsThrough(year: int): (leapYears: int)
  {
    year / 4 - year / 100 + year / 400
  }

  /** Stepping a year down lowers `year / m` by one exactly when `m` divides the year. */
  lemma QuotientStep(year: int, m: int)
    requires m == 4 || m == 100 || m == 400
    ensures year / m - (year - 1) / m == if year % m == 0 then 1 else 0
  {
  }

  /** Multiples of 400 are centuries. */
  lemma MultipleOf400IsCentury(year: int)
    requires year % 400 == 0
    ensures year % 100 == 0
  {
  }

  /** Centuries are multiples of 4. */
  lemma CenturyIsMultipleOf4(year: int)
    requires year % 100 == 0
    ensures year % 4 == 0
  {
  }

  /** The closed form rises by one from the previous year exactly when the year is leap. */
  lemma LeapYearsThroughStep(year: int)
    ensures LeapYearsThrough(year) - LeapYearsThrough(year - 1) == if IsLeapYear(year) then 1 else 0
  {
    QuotientStep(year, 4);
    QuotientStep(year, 100);
    QuotientStep(year, 400);
    if year % 400 == 0 {
      MultipleOf400IsCentury(year);
    }
    if year % 100 == 0 {
      CenturyIsMultipleOf4(year);
    }
  }

  /** Counting leap years one by one agrees with the closed form over any run of years. */
  lemma {:induction false} LeapYearsClosedForm(first: int, count: nat)
    ensures LeapYearsIn(first, count) == LeapYearsThrough(first + count - 1) - LeapYearsThrough(first - 1)
    decreases count
  {
    if count > 0 {
      LeapYearsThroughStep(first);
      LeapYearsClosedForm(first + 1, count - 1);
    }
  }

  /** Any 400 consecutive years, wherever they start, hold exactly 97 leap years. */
  lemma LeapYearsPer400(first: int)
    ensures LeapYearsIn(first, 400) == 97
  {
    LeapYearsClosedForm(first, 400);
    var last := first - 1;
    assert (last + 400) / 4 == last / 4 + 100;
    assert (last + 400) / 100 == last / 100 + 4;
    assert (last + 400) / 400 == last / 400 + 1;
  }

  /** A run of years has 365 days per year plus one per leap year. */
  lemma {:induction false} DaysInYearsCount(first: int, count: nat)
    ensures DaysInYears(first, count) == 365 * count + LeapYearsIn(first, count)
    decreases count
  {
    if count > 0 {
      YearLength(first);
      DaysInYearsCount(first + 1, count - 1);
    }
  }

  /** Any 400 consecutive years span 146097 days: the Gregorian mean year of 365.2425 days. */
  lemma DaysPer400(first: int)
    ensures DaysInYears(first, 400) == 146097
  {
    DaysInYearsCount(first, 400);
    LeapYearsPer400(first);
  }
}
