/**
 Random calendar-date generation and the birth-to-expiry chaining. Each
 `random.randint(lo, hi)` draw is either an explicit argument constrained to
 [lo, hi], or a nondeterministic choice from that range.
 */
module Generate {
  import opened Wrappers
  import opened Dates
  import Calendar
  import Decimal

  /** `random.randint(lo, hi)` with `lo > hi` raises instead of drawing. */
  datatype GenError = EmptyYearRange(low: int, high: int)

  /** The draws one date generation makes: year (used only with an end year), month, day. */
  datatype Draws = Draws(year: int, month: int, day: int)

  /** Python's truth test on the optional end year: both `None` and `0` are false. */
  predicate IsTruthy(endYear: Option<int>)
  {
    endYear.Some? && endYear.value != 0
  }

  /** The year a generation uses: the year draw when an end year is in force, otherwise the start year. */
  function ChosenYear(startYear: int, endYear: Option<int>, yearDraw: int): (year: int)
  {
    if IsTruthy(endYear) then yearDraw else startYear
  }

  /** Every draw lies in the range `randint` is called with. */
  predicate DrawsFit(startYear: int, endYear: Option<int>, draws: Draws)
  {
    && (IsTruthy(endYear) && startYear <= endYear.value ==> startYear <= draws.year <= endYear.value)
    && 1 <= draws.month <= 12
    && 1 <= draws.day <= Calendar.DaysInMonth(ChosenYear(startYear, endYear, draws.year), draws.month)
  }

  /** The years a generation may produce: exactly `startYear` without an end year, else the inclusive range. */
  predicate YearAllowed(startYear: int, endYear: Option<int>, year: int)
  {
    if IsTruthy(endYear) then startYear <= year <= endYear.value else year == startYear
  }

  /** `generate_date(start_year, end_year)` with its random draws supplied. */
  function GenerateDateFrom(startYear: int, endYear: Option<int>, draws: Draws): (r: Result<Date, GenError>)
    requires DrawsFit(startYear, endYear, draws)
    ensures r.Failure? <==> IsTruthy(endYear) && startYear > endYear.value
    ensures r.Success? ==> IsCalendarDate(r.value)
    ensures r.Success? ==> YearAllowed(startYear, endYear, r.value.year)
    ensures r.Success? ==> r.value.month == draws.month && r.value.day == draws.day
  {
    if IsTruthy(endYear) && startYear > endYear.value then
      Failure(EmptyYearRange(startYear, endYear.value))
    else
      Success(Date(ChosenYear(startYear, endYear, draws.year), draws.month, draws.day))
  }

  /** Every calendar date whose year is allowed is produced by some choice of draws,
      so together with the postcondition above the outputs are exactly these dates. */
  lemma GenerateDateReachesEveryDate(startYear: int, endYear: Option<int>, d: Date)
    requires IsCalendarDate(d) && YearAllowed(startYear, endYear, d.year)
    ensures exists draws :: DrawsFit(startYear, endYear, draws)
                            && GenerateDateFrom(startYear, endYear, draws) == Success(d)
  {
    var draws := Draws(d.year, d.month, d.day);
    assert DrawsFit(startYear, endYear, draws);
    assert GenerateDateFrom(startYear, endYear, draws) == Success(d);
  }

  /** An end year of 0 is ignored like a missing one: the start year is used and nothing is raised,
      even when the start year exceeds 0. */
  lemma ZeroEndYearActsAsMissing(startYear: int, draws: Draws)
    requires DrawsFit(startYear, Some(0), draws)
    ensures DrawsFit(startYear, None, draws)
    ensures GenerateDateFrom(startYear, Some(0), draws) == GenerateDateFrom(startYear, None, draws)
    ensures GenerateDateFrom(startYear, Some(0), draws).Success?
  {
  }

  /** `generate_date` with the random source as nondeterministic choice. */
  method GenerateDate(startYear: int, endYear: Option<int>) returns (r: Result<Date, GenError>)
    ensures r.Failure? <==> IsTruthy(endYear) && startYear > endYear.value
    ensures r.Success? ==> IsCalendarDate(r.value) && YearAllowed(startYear, endYear, r.value.year)
  {
    var yearDraw := startYear;
    if IsTruthy(endYear) && startYear <= endYear.value {
      yearDraw :| startYear <= yearDraw <= endYear.value;
    }
    var monthDraw :| 1 <= monthDraw <= 12;
    var cap := Calendar.DaysInMonth(ChosenYear(startYear, endYear, yearDraw), monthDraw);
    var dayDraw :| 1 <= dayDraw <= cap;
    r := GenerateDateFrom(startYear, endYear, Draws(yearDraw, monthDraw, dayDraw));
  }

  /** The year span `main` draws birth dates from. */
  const BirthStartYear := 1900
  const BirthEndYear := 2025
  /** The range of the offset added to the birth year to force the expiry year. */
  const MinValidityYears := 15
  const MaxValidityYears := 60

  /** The draws behind one birth and expiry pair fit the ranges `main` uses. */
  predicate ChainDrawsFit(birthDraws: Draws, offset: int, expiryDraws: Draws)
  {
    && DrawsFit(BirthStartYear, Some(BirthEndYear), birthDraws)
    && MinValidityYears <= offset <= MaxValidityYears
    && DrawsFit(birthDraws.year + offset, None, expiryDraws)
  }

  /** The pairs `main` may produce: two calendar dates, birth year in range, expiry 15..60 years later. */
  predicate IsBirthExpiryPair(birth: Date, expiry: Date)
  {
    && IsCalendarDate(birth) && IsCalendarDate(expiry)
    && BirthStartYear <= birth.year <= BirthEndYear
    && MinValidityYears <= expiry.year - birth.year <= MaxValidityYears
  }

  /** `main`: a birth date from 1900..2025, then an expiry date in the birth year plus the offset draw. */
  function BirthAndExpiryFrom(birthDraws: Draws, offset: int, expiryDraws: Draws): (pair: (Date, Date))
    requires ChainDrawsFit(birthDraws, offset, expiryDraws)
    ensures IsBirthExpiryPair(pair.0, pair.1)
    ensures pair.1.year - pair.0.year == offset
  {
    var birth := GenerateDateFrom(BirthStartYear, Some(BirthEndYear), birthDraws);
    var expiry := GenerateDateFrom(birth.value.year + offset, None, expiryDraws);
    (birth.value, expiry.value)
  }

  /** Every admissible pair comes from some choice of draws. */
  lemma BirthAndExpiryReachesEveryPair(birth: Date, expiry: Date)
    requires IsBirthExpiryPair(birth, expiry)
    ensures exists birthDraws, offset, expiryDraws ::
              ChainDrawsFit(birthDraws, offset, expiryDraws)
              && BirthAndExpiryFrom(birthDraws, offset, expiryDraws) == (birth, expiry)
  {
    var birthDraws := Draws(birth.year, birth.month, birth.day);
    var offset := expiry.year - birth.year;
    var expiryDraws := Draws(expiry.year, expiry.month, expiry.day);
    assert ChainDrawsFit(birthDraws, offset, expiryDraws);
    assert BirthAndExpiryFrom(birthDraws, offset, expiryDraws) == (birth, expiry);
  }

  /** `main` with the random source as nondeterministic choice; neither generation can raise,
      and both dates render as six-digit `YYMMDD` fields. */
  method BirthAndExpiry() returns (birth: Date, expiry: Date)
    ensures IsBirthExpiryPair(birth, expiry)
    ensures |Render(birth)| == 6 && Decimal.AllDigits(Render(birth))
    ensures |Render(expiry)| == 6 && Decimal.AllDigits(Render(expiry))
  {
    var b := GenerateDate(BirthStartYear, Some(BirthEndYear));
    birth := b.value;
    var offset :| MinValidityYears <= offset <= MaxValidityYears;
    var e := GenerateDate(birth.year + offset, None);
    expiry := e.value;
    CalendarDateRendersSixDigits(birth);
    CalendarDateRendersSixDigits(expiry);
  }
}
