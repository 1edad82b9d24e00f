/** The two calendar decompositions of the command line. */
module Calendar {
  // The closed form of `cli/src/evidence.rs` and the loops of `cli/src/simulate.rs` are both compared
  // with the plain count of days in the proleptic Gregorian calendar (section 5.7 of RFC 3339).

  datatype Date = Date(year: nat, month: nat, day: nat)

  /** Appendix C of RFC 3339. */
  predicate IsLeap(y: nat) {
    (y % 4 == 0 && y % 100 != 0) || y % 400 == 0
  }

  function YearLength(y: nat): nat {
    if IsLeap(y) then 366 else 365
  }

  function MonthLength(y: nat, m: nat): nat {
    if m == 2 then (if IsLeap(y) then 29 else 28)
    else if m == 4 || m == 6 || m == 9 || m == 11 then 30
    else 31
  }

  predicate ValidDate(date: Date) {
    1970 <= date.year && 1 <= date.month <= 12 && 1 <= date.day <= MonthLength(date.year, date.month)
  }

  /** Days from 1970-01-01 to the first day of year `y`. */
  function YearStart(y: nat): nat
    requires 1970 <= y
  {
    if y == 1970 then 0 else YearStart(y - 1) + YearLength(y - 1)
  }

  /** Days from the first day of year `y` to the first day of month `m`. */
  function MonthStart(y: nat, m: nat): nat
    requires 1 <= m <= 13
  {
    if m == 1 then 0 else MonthStart(y, m - 1) + MonthLength(y, m - 1)
  }

  /** Days from 1970-01-01 to a date. */
  function DayNumber(date: Date): nat
    requires ValidDate(date)
  {
    YearStart(date.year) + MonthStart(date.year, date.month) + date.day - 1
  }

  // ----- Dates and day numbers determine each other --------------------------

  lemma YearHasTwelveMonths(y: nat)
    ensures MonthStart(y, 13) == YearLength(y)
  {
    MonthTable(y);
  }

  /** The month starts, written out. */
  lemma MonthTable(y: nat)
    ensures var leap := if IsLeap(y) then 1 else 0;
            && MonthStart(y, 1) == 0 && MonthStart(y, 2) == 31
            && MonthStart(y, 3) == 59 + leap && MonthStart(y, 4) == 90 + leap
            && MonthStart(y, 5) == 120 + leap && MonthStart(y, 6) == 151 + leap
            && MonthStart(y, 7) == 181 + leap && MonthStart(y, 8) == 212 + leap
            && MonthStart(y, 9) == 243 + leap && MonthStart(y, 10) == 273 + leap
            && MonthStart(y, 11) == 304 + leap && MonthStart(y, 12) == 334 + leap
            && MonthStart(y, 13) == 365 + leap
  {
    assert MonthStart(y, 3) == MonthStart(y, 2) + MonthLength(y, 2);
    assert MonthStart(y, 5) == MonthStart(y, 4) + MonthLength(y, 4);
    assert MonthStart(y, 7) == MonthStart(y, 6) + MonthLength(y, 6);
    assert MonthStart(y, 9) == MonthStart(y, 8) + MonthLength(y, 8);
    assert MonthStart(y, 11) == MonthStart(y, 10) + MonthLength(y, 10);
  }

  lemma {:induction false} YearStartGrows(y: nat, z: nat)
    requires 1970 <= y < z
    ensures YearStart(y) + YearLength(y) <= YearStart(z)
  {
    if y + 1 < z {
      YearStartGrows(y, z - 1);
    }
  }

  lemma {:induction false} MonthStartGrows(y: nat, m: nat, n: nat)
    requires 1 <= m < n <= 13
    ensures MonthStart(y, m) + MonthLength(y, m) <= MonthStart(y, n)
  {
    if m + 1 < n {
      MonthStartGrows(y, m, n - 1);
    }
  }

  lemma DateIsInItsYear(date: Date)
    requires ValidDate(date)
    ensures YearStart(date.year) <= DayNumber(date) < YearStart(date.year) + YearLength(date.year)
  {
    MonthStartGrows(date.year, date.month, 13);
    YearHasTwelveMonths(date.year);
  }

  /** Two valid dates with the same day number are the same date. */
  lemma DayNumberIsInjective(d: Date, e: Date)
    requires ValidDate(d) && ValidDate(e) && DayNumber(d) == DayNumber(e)
    ensures d == e
  {
    DateIsInItsYear(d);
    DateIsInItsYear(e);
    if d.year < e.year {
      YearStartGrows(d.year, e.year);
    } else if e.year < d.year {
      YearStartGrows(e.year, d.year);
    } else if d.month < e.month {
      MonthStartGrows(d.year, d.month, e.month);
    } else if e.month < d.month {
      MonthStartGrows(d.year, e.month, d.month);
    }
  }

  // ----- The closed form ------------------------------------------------------

  /** The year of the 400-year cycle that a day of the cycle lies in. */
  function YearOfCycle(doe: nat): int {
    (doe - doe / 1460 + doe / 36524 - doe / 146096) / 365
  }

  /** `days_to_ymd` of `cli/src/evidence.rs` */
  function DaysToYmd(days: nat): Date {
    var z := days + 719468;
    var era := z / 146097;
    var doe := z - era * 146097;
    var yoe := YearOfCycle(doe);
    var y := yoe + era * 400;
    var doy := doe - (365 * yoe + yoe / 4 - yoe / 100);
    var mp := (5 * doy + 2) / 153;
    var d := doy - (153 * mp + 2) / 5 + 1;
    var m := if mp < 10 then mp + 3 else mp - 9;
    Date(if m <= 2 then y + 1 else y, m, d)
  }

  /** Days from 0000-03-01 to the first of March of year `y`. */
  function MarchStart(y: nat): int {
    365 * y + y / 4 - y / 100 + y / 400
  }

  /** The months of a year that starts in March: month `mp` begins on this day of the year. */
  function MarchMonthStart(mp: nat): nat {
    (153 * mp + 2) / 5
  }

  /** A day of the 400-year cycle as centuries, four-year cycles, years and days. */
  ghost predicate Splits(doe: nat, c: nat, q: nat, k: nat, t: nat) {
    && doe == 36524 * c + 1461 * q + 365 * k + t
    && c <= 3 && q <= 24 && k <= 3 && t <= 365
    && (t == 365 ==> k == 3 && (q < 24 || c == 3))
  }

  lemma SplitDayOfEra(doe: nat) returns (c: nat, q: nat, k: nat, t: nat)
    requires doe < 146097
    ensures Splits(doe, c, q, k, t)
  {
    c := if doe / 36524 < 4 then doe / 36524 else 3;
    var r := doe - 36524 * c;
    q := r / 1461;
    var s := r - 1461 * q;
    k := if s / 365 < 4 then s / 365 else 3;
    t := s - 365 * k;
  }

  /** The correction terms cancel the leap days that lie before the day. */
  lemma YearOfEraFormula(doe: nat, c: nat, q: nat, k: nat, t: nat)
    requires Splits(doe, c, q, k, t)
    ensures YearOfCycle(doe) == 100 * c + 4 * q + k
  {
    assert doe / 36524 - doe / 146096 == c by {
      if doe < 146096 {
        assert doe / 146096 == 0 && doe / 36524 == c;
      }
    }
    var extra := 24 * c + q + 365 * k + t;
    assert doe == 1460 * (25 * c + q) + extra;
    var e := if extra >= 1460 then 1 else 0;
    assert doe / 1460 == 25 * c + q + e;
    assert doe - doe / 1460 + c == 365 * (100 * c + 4 * q + k) + (t - e);
  }

  lemma MarchStartInEra(c: nat, q: nat, k: nat)
    requires c <= 3 && q <= 24 && k <= 3
    ensures var yoe := 100 * c + 4 * q + k;
            MarchStart(yoe) == 36524 * c + 1461 * q + 365 * k
  {
    var yoe := 100 * c + 4 * q + k;
    assert yoe / 4 == 25 * c + q && yoe / 100 == c && yoe / 400 == 0;
  }

  /** A March year is as long as the calendar year it ends in. */
  lemma MarchYearLength(y: nat)
    ensures MarchStart(y + 1) == MarchStart(y) + YearLength(y + 1)
  {
    CenturiesAreFourths(y + 1);
    assert (y + 1) / 4 == y / 4 + (if (y + 1) % 4 == 0 then 1 else 0);
    assert (y + 1) / 100 == y / 100 + (if (y + 1) % 100 == 0 then 1 else 0);
    assert (y + 1) / 400 == y / 400 + (if (y + 1) % 400 == 0 then 1 else 0);
  }

  lemma CenturiesAreFourths(n: nat)
    ensures n % 400 == 0 ==> n % 100 == 0
    ensures n % 100 == 0 ==> n % 4 == 0
  {
    assert n % 400 == 0 ==> n == 100 * (4 * (n / 400));
    assert n % 100 == 0 ==> n == 4 * (25 * (n / 100));
  }

  lemma MarchStartOfEra(era: nat, yoe: nat)
    ensures MarchStart(yoe + era * 400) == 146097 * era + MarchStart(yoe)
  {
    var y := yoe + era * 400;
    assert y / 4 == yoe / 4 + 100 * era;
    assert y / 100 == yoe / 100 + 4 * era;
    assert y / 400 == yoe / 400 + era;
  }

  lemma {:induction false} MarchStartGrows(y: nat, z: nat)
    requires y <= z
    ensures MarchStart(y) <= MarchStart(z)
    decreases z
  {
    if y < z {
      MarchStartGrows(y, z - 1);
      MarchYearLength(z - 1);
    }
  }

  lemma {:induction false} YearStartFromMarch(y: nat)
    requires 1970 <= y
    ensures YearStart(y) == MarchStart(y - 1) + 306 - 719468
  {
    if y == 1970 {
    } else {
      YearStartFromMarch(y - 1);
      MarchYearLength(y - 2);
    }
  }

  /** Year and day of the March year a day number falls in. */
  lemma YearOfEra(doe: nat) returns (yoe: nat)
    requires doe < 146097
    ensures yoe == YearOfCycle(doe) < 400
    ensures MarchStart(yoe) == 365 * yoe + yoe / 4 - yoe / 100 <= doe < MarchStart(yoe + 1)
  {
    var c, q, k, t := SplitDayOfEra(doe);
    yoe := 100 * c + 4 * q + k;
    YearOfEraFormula(doe, c, q, k, t);
    MarchStartInEra(c, q, k);
    MarchYearLength(yoe);
    if t == 365 {
      LeapYearsEndCycles(c, q);
    }
  }

  /** Every fourth year of a cycle is leap, but for the last of the first three centuries. */
  lemma LeapYearsEndCycles(c: nat, q: nat)
    requires c <= 3 && q <= 24 && (q < 24 || c == 3)
    ensures IsLeap(100 * c + 4 * q + 4)
  {
    var y := 100 * c + 4 * q + 4;
    assert y == 4 * (25 * c + q + 1);
    if q < 24 {
      assert y % 100 == 4 * q + 4;
    } else {
      assert y == 400;
    }
  }

  lemma MonthOfMarchYear(doy: nat) returns (mp: nat)
    requires doy < 366
    ensures mp == (5 * doy + 2) / 153 <= 11
    ensures MarchMonthStart(mp) <= doy < MarchMonthStart(mp + 1)
  {
    mp := (5 * doy + 2) / 153;
  }

  lemma MarchMonths(y: nat, mp: nat)
    requires mp <= 11
    ensures mp < 10 ==>
              && MonthStart(y, mp + 3) == 59 + (if IsLeap(y) then 1 else 0) + MarchMonthStart(mp)
              && MarchMonthStart(mp + 1) - MarchMonthStart(mp) == MonthLength(y, mp + 3)
    ensures mp >= 10 ==>
              && MonthStart(y, mp - 9) == MarchMonthStart(mp) - 306
              && (mp == 10 ==> MarchMonthStart(11) - MarchMonthStart(10) == MonthLength(y, 1))
              && (mp == 11 ==> 306 + MonthStart(y, 2) + MonthLength(y, 2) == YearLength(y))
  {
    MonthTable(y);
  }

  /** The date of a day of a March year. */
  function FromMarch(y: nat, doy: nat): Date {
    var mp := (5 * doy + 2) / 153;
    if mp < 10 then Date(y, mp + 3, doy - MarchMonthStart(mp) + 1)
    else Date(y + 1, mp - 9, doy - MarchMonthStart(mp) + 1)
  }

  /** The day of the 400-year cycle, and the cycle, seen as a day of a March year. */
  lemma CycleDayToMarchYear(z: nat) returns (y: nat, doy: nat)
    ensures var era := z / 146097;
            var doe := z - era * 146097;
            var yoe := YearOfCycle(doe);
            && y == yoe + era * 400
            && doy == doe - (365 * yoe + yoe / 4 - yoe / 100)
    ensures MarchStart(y) + doy == z && doy < YearLength(y + 1)
  {
    var era := z / 146097;
    var doe := z - era * 146097;
    var yoe := YearOfEra(doe);
    y, doy := yoe + era * 400, doe - MarchStart(yoe);
    MarchStartOfEra(era, yoe);
    MarchStartOfEra(era, yoe + 1);
    MarchYearLength(y);
  }

  /** The closed form finds the March year and its day. */
  lemma DayOfMarchYear(days: nat) returns (y: nat, doy: nat)
    ensures DaysToYmd(days) == FromMarch(y, doy)
    ensures MarchStart(y) + doy == days + 719468 && doy < YearLength(y + 1)
  {
    y, doy := CycleDayToMarchYear(days + 719468);
    CountsFromMarch(y, doy);
  }

  lemma CountsFromMarch(y: nat, doy: nat)
    requires doy < 366
    ensures var mp := (5 * doy + 2) / 153;
            var m := if mp < 10 then mp + 3 else mp - 9;
            && 1 <= m <= 12 && doy >= (153 * mp + 2) / 5
            && Date(if m <= 2 then y + 1 else y, m, doy - (153 * mp + 2) / 5 + 1) == FromMarch(y, doy)
  {
    var mp := MonthOfMarchYear(doy);
  }

  lemma FromMarchInverts(y: nat, doy: nat, days: nat)
    requires MarchStart(y) + doy == days + 719468 && doy < YearLength(y + 1)
    ensures ValidDate(FromMarch(y, doy)) && DayNumber(FromMarch(y, doy)) == days
  {
    var mp := MonthOfMarchYear(doy);
    if mp < 10 {
      SpringDate(y, mp, doy, days);
    } else {
      WinterDate(y, mp, doy, days);
    }
  }

  /** The closed form inverts the day count. */
  lemma DaysToYmdInverts(days: nat)
    ensures ValidDate(DaysToYmd(days)) && DayNumber(DaysToYmd(days)) == days
  {
    var y, doy := DayOfMarchYear(days);
    FromMarchInverts(y, doy, days);
  }

  lemma SpringDate(y: nat, mp: nat, doy: nat, days: nat)
    requires mp < 10 && MarchMonthStart(mp) <= doy < MarchMonthStart(mp + 1)
    requires MarchStart(y) + doy == days + 719468
    ensures var date := Date(y, mp + 3, doy - MarchMonthStart(mp) + 1);
            ValidDate(date) && DayNumber(date) == days
  {
    assert y >= 1970 by {
      if y <= 1969 {
        MarchStartGrows(y, 1969);
      }
    }
    MarchMonths(y, mp);
    YearStartFromMarch(y);
    MarchYearLength(y - 1);
  }

  lemma WinterDate(y: nat, mp: nat, doy: nat, days: nat)
    requires 10 <= mp <= 11 && MarchMonthStart(mp) <= doy < MarchMonthStart(mp + 1)
    requires doy < YearLength(y + 1)
    requires MarchStart(y) + doy == days + 719468
    ensures var date := Date(y + 1, mp - 9, doy - MarchMonthStart(mp) + 1);
            ValidDate(date) && DayNumber(date) == days
  {
    assert y + 1 >= 1970 by {
      if y < 1969 {
        MarchStartGrows(y + 1, 1969);
        MarchYearLength(y);
      }
    }
    MarchMonths(y + 1, mp);
    YearStartFromMarch(y + 1);
  }

  /** And the day count inverts the closed form. */
  lemma DaysToYmdIsOnto(date: Date)
    requires ValidDate(date)
    ensures DaysToYmd(DayNumber(date)) == date
  {
    DaysToYmdInverts(DayNumber(date));
    DayNumberIsInjective(DaysToYmd(DayNumber(date)), date);
  }

  // ----- The loops --------------------------------------------------------------

  method WholeYears(days: nat) returns (y: nat, remaining: nat)
    ensures 1970 <= y && days == YearStart(y) + remaining && remaining < YearLength(y)
  {
    y, remaining := 1970, days;
    while true
      invariant 1970 <= y && days == YearStart(y) + remaining
      decreases remaining
    {
      var daysInYear := if IsLeap(y) then 366 else 365;
      if remaining < daysInYear {
        break;
      }
      remaining := remaining - daysInYear;
      y := y + 1;
    }
  }

  method WholeMonths(y: nat, day: nat) returns (month: nat, remaining: nat)
    requires day < YearLength(y)
    ensures 1 <= month <= 12 && day == MonthStart(y, month) + remaining && remaining < MonthLength(y, month)
  {
    var monthDays := if IsLeap(y) then [31, 29, 31, 30, 31, 30, 31, 31, 30, 31, 30, 31]
                     else [31, 28, 31, 30, 31, 30, 31, 31, 30, 31, 30, 31];
    assert forall m :: 1 <= m <= 12 ==> monthDays[m - 1] == MonthLength(y, m);
    month, remaining := 0, day;
    YearHasTwelveMonths(y);
    for i := 0 to |monthDays|
      invariant month == 0 && day == MonthStart(y, i + 1) + remaining
    {
      if remaining < monthDays[i] {
        month := i + 1;
        break;
      }
      remaining := remaining - monthDays[i];
    }
  }

  /**
   `days_to_ymd` of `cli/src/simulate.rs`: whole years, then whole months.  On every day
   number it agrees with the closed form.
   */
  method DaysToYmdByLoops(days: nat) returns (date: Date)
    ensures ValidDate(date) && DayNumber(date) == days
    ensures date == DaysToYmd(days)
  {
    var y, dayOfYear := WholeYears(days);
    var month, remaining := WholeMonths(y, dayOfYear);
    date := Date(y, month, remaining + 1);
    DaysToYmdInverts(days);
    DayNumberIsInjective(date, DaysToYmd(days));
  }
}
