/**
 The `Date` record and its six-character `YYMMDD` rendering, the form MRZ date
 fields take, with a decoder that reads such a field back.
 */
module Dates {
  import opened Wrappers
  import opened Decimal
  import Calendar

  /** A year, month and day as given; construction performs no validation. */
  datatype Date = Date(year: int, month: int, day: int)

  /** `d` names a day that exists in the Gregorian calendar. */
  predicate IsCalendarDate(d: Date)
  {
    1 <= d.month <= 12 && 1 <= d.day <= Calendar.DaysInMonth(d.year, d.month)
  }

  /** The `YYMMDD` rendering: the year modulo 100 (never negative), the month and the day,
      each formatted as Python's `02d`. */
  function Render(d: Date): (s: string)
    ensures |s| >= 6
    ensures s[..2] == ZeroPad2(d.year % 100) && AllDigits(s[..2])
  {
    ZeroPad2(d.year % 100) + ZeroPad2(d.month) + ZeroPad2(d.day)
  }

  /** Reads a `YYMMDD` field: six ASCII digits, or nothing. The decoded year is the two-digit year. */
  function ParseYYMMDD(s: string): (r: Option<Date>)
    ensures r.Some? <==> |s| == 6 && AllDigits(s)
    ensures r.Some? ==> 0 <= r.value.year <= 99 && 0 <= r.value.month <= 99 && 0 <= r.value.day <= 99
  {
    if |s| == 6 && AllDigits(s) then
      var yy, mm, dd := s[0..2], s[2..4], s[4..6];
      ZeroPad2OfTwoDigits(yy);
      ZeroPad2OfTwoDigits(mm);
      ZeroPad2OfTwoDigits(dd);
      Some(Date(ReadDigits(yy), ReadDigits(mm), ReadDigits(dd)))
    else None
  }

  /** The rendering is six ASCII digits exactly when month and day both lie in 0..99;
      otherwise a sign or a third digit breaks the width. */
  lemma RenderIsSixDigits(d: Date)
    ensures |Render(d)| == 6 && AllDigits(Render(d)) <==> 0 <= d.month <= 99 && 0 <= d.day <= 99
  {
    var y, m, dd := ZeroPad2(d.year % 100), ZeroPad2(d.month), ZeroPad2(d.day);
    var s := Render(d);
    assert s[2..2 + |m|] == m;
    assert s[2 + |m|..] == dd;
    if AllDigits(s) {
      assert AllDigits(m) by {
        forall i | 0 <= i < |m| ensures IsDigit(m[i]) {
          assert m[i] == s[2 + i];
        }
      }
      assert AllDigits(dd) by {
        forall i | 0 <= i < |dd| ensures IsDigit(dd[i]) {
          assert dd[i] == s[2 + |m| + i];
        }
      }
    }
  }

  /** A calendar date always renders as six ASCII digits. */
  lemma CalendarDateRendersSixDigits(d: Date)
    requires IsCalendarDate(d)
    ensures |Render(d)| == 6 && AllDigits(Render(d))
  {
    RenderIsSixDigits(d);
  }

  /** Decoding a rendering yields the year modulo 100, the month and the day. */
  lemma DecodeRender(d: Date)
    requires 0 <= d.month <= 99 && 0 <= d.day <= 99
    ensures ParseYYMMDD(Render(d)) == Some(Date(d.year % 100, d.month, d.day))
  {
    RenderIsSixDigits(d);
    var s := Render(d);
    assert s[0..2] == ZeroPad2(d.year % 100);
    assert s[2..4] == ZeroPad2(d.month);
    assert s[4..6] == ZeroPad2(d.day);
  }

  /** Rendering a decoded field reproduces the field. */
  lemma RenderDecode(s: string)
    requires ParseYYMMDD(s).Some?
    ensures Render(ParseYYMMDD(s).value) == s
  {
    var yy, mm, dd := s[0..2], s[2..4], s[4..6];
    ZeroPad2OfTwoDigits(yy);
    ZeroPad2OfTwoDigits(mm);
    ZeroPad2OfTwoDigits(dd);
    var d := ParseYYMMDD(s).value;
    assert d == Date(ReadDigits(yy), ReadDigits(mm), ReadDigits(dd));
    assert d.year % 100 == d.year;
    assert Render(d) == yy + mm + dd;
    assert s == yy + mm + dd;
  }

  /** Two renderable dates render alike exactly when they agree on year modulo 100, month and day. */
  lemma RenderIdentifies(d1: Date, d2: Date)
    requires 0 <= d1.month <= 99 && 0 <= d1.day <= 99
    requires 0 <= d2.month <= 99 && 0 <= d2.day <= 99
    ensures Render(d1) == Render(d2)
            <==> d1.year % 100 == d2.year % 100 && d1.month == d2.month && d1.day == d2.day
  {
    DecodeRender(d1);
    DecodeRender(d2);
  }

  /** A leap year's last two digits form a leap year too, so 29 February survives the century cut. */
  lemma LeapYearKeepsLeapInTwoDigits(year: int)
    requires Calendar.IsLeapYear(year)
    ensures Calendar.IsLeapYear(year % 100)
  {
    var q, yy := year / 100, year % 100;
    assert year == 4 * (25 * q) + yy;
    assert yy == year - 4 * (25 * q);
    assert yy % 4 == 0;
    if yy != 0 {
      assert yy % 100 == yy;
    }
  }

  /** The `YYMMDD` field of a calendar date decodes to a calendar date. */
  lemma DecodedCalendarDateIsCalendarDate(d: Date)
    requires IsCalendarDate(d)
    ensures ParseYYMMDD(Render(d)).Some?
    ensures IsCalendarDate(ParseYYMMDD(Render(d)).value)
  {
    DecodeRender(d);
    if d.month == 2 && Calendar.IsLeapYear(d.year) {
      LeapYearKeepsLeapInTwoDigits(d.year);
    }
  }

  /** The constructor accepts out-of-range fields, and then the rendering is not six characters. */
  lemma UncheckedDateRendersWide()
    ensures Render(Date(2023, 2, 30)) == "230230"
    ensures !IsCalendarDate(Date(2023, 2, 30))
    ensures |Render(Date(2023, 100, 1))| == 7
  {
  }

  /** A negative month or day keeps its sign and gets no zero fill, so the field loses its fixed width. */
  lemma NegativeFieldsKeepSign()
    ensures Render(Date(2023, -5, 1)) == "23-501"
    ensures Render(Date(2023, 1, -50)) == "2301-50"
  {
    assert Digits(5) == "5";
    assert Digits(50) == "50" by {
      assert Digits(5) == "5";
    }
  }
}
