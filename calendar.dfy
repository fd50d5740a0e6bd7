/**
 * Proleptic Gregorian calendar arithmetic: civil dates and day numbers counted
 * from 1970-01-01, including dates before 1970 (negative day numbers).
 */
module Calendar {
  import opened Arith

  datatype Date = Date(year: int, month: int, day: int)

  predicate IsLeap(y: int) { y % 4 == 0 && (y % 100 != 0 || y % 400 == 0) }

  function YearLength(y: int): int { if IsLeap(y) then 366 else 365 }

  function DaysIn(y: int, m: int): int
    requires 1 <= m <= 12
  {
    if m == 2 then (if IsLeap(y) then 29 else 28)
    else if m == 4 || m == 6 || m == 9 || m == 11 then 30
    else 31
  }

  predicate ValidDate(d: Date)
  {
    1 <= d.month <= 12 && 1 <= d.day <= DaysIn(d.year, d.month)
  }

  /** Days of a common year that lie before the first day of month m (m == 13: the whole year). */
  const CommonDaysBefore: seq<nat> := [0, 31, 59, 90, 120, 151, 181, 212, 243, 273, 304, 334, 365]

  /** Days of year y that lie before the first day of month m (m == 13: the whole year). */
  function DaysBeforeMonth(y: int, m: int): nat
    requires 1 <= m <= 13
  {
    CommonDaysBefore[m - 1] + (if m > 2 && IsLeap(y) then 1 else 0)
  }

  /** The table adds up the month lengths. */
  lemma DaysBeforeNextMonth(y: int, m: int)
    requires 1 <= m <= 12
    ensures DaysBeforeMonth(y, m + 1) == DaysBeforeMonth(y, m) + DaysIn(y, m)
  {
  }

  /** Days from 0001-01-01 to January 1st of year y; floor division makes it hold for y < 1 too. */
  function YearStart(y: int): int
  {
    var k := y - 1;
    365 * k + k / 4 - k / 100 + k / 400
  }

  /** YearStart(1970): the day number of the Unix epoch counted from 0001-01-01. */
  const EpochDays: int := 719162

  const DaysPer400Years: int := 146097
  const DaysPer100Years: int := 36524
  const DaysPer4Years: int := 1461

  /** Days since 1970-01-01 of a civil date. */
  function DaysFromCivil(d: Date): (z: int)
    requires ValidDate(d)
    ensures YearStart(d.year) - EpochDays <= z < YearStart(d.year + 1) - EpochDays
  {
    DateWithinYear(d);
    YearStartNext(d.year);
    YearStart(d.year) + DaysBeforeMonth(d.year, d.month) + d.day - 1 - EpochDays
  }

  /**
   * The civil date of a day number, by splitting the days since 0001-01-01 into
   * 400-year, 100-year, 4-year and 1-year periods.
   */
  function CivilFromDays(z: int): (r: Date)
    ensures ValidDate(r) && DaysFromCivil(r) == z
  {
    var (y, yday) := YearAndDay(z + EpochDays);
    var m := MonthOf(y, yday, 1);
    DaysBeforeNextMonth(y, m);
    Date(y, m, yday - DaysBeforeMonth(y, m) + 1)
  }

  /** The year a day number counted from 0001-01-01 falls in, and the 0-based day within that year. */
  function YearAndDay(n: int): (r: (int, int))
    ensures YearStart(r.0) + r.1 == n && 0 <= r.1 < YearLength(r.0)
  {
    var q := n / DaysPer400Years;
    var r1 := n % DaysPer400Years;
    var c := if r1 / DaysPer100Years == 4 then 3 else r1 / DaysPer100Years;
    var r2 := r1 - DaysPer100Years * c;
    var a := r2 / DaysPer4Years;
    var r3 := r2 % DaysPer4Years;
    var b := if r3 / 365 == 4 then 3 else r3 / 365;
    var yday := r3 - 365 * b;
    PeriodsSplitYear(q, c, a, b, r1, r2, r3, yday);
    (400 * q + 100 * c + 4 * a + b + 1, yday)
  }

  /** The month of year y that contains day yday (0-based) of that year, searching from month m. */
  function MonthOf(y: int, yday: int, m: int): (r: int)
    requires 1 <= m <= 12
    requires DaysBeforeMonth(y, m) <= yday < YearLength(y)
    ensures m <= r <= 12
    ensures DaysBeforeMonth(y, r) <= yday < DaysBeforeMonth(y, r + 1)
    decreases 12 - m
  {
    if yday < DaysBeforeMonth(y, m + 1) then m
    else if m == 12 then (assert false; m)
    else MonthOf(y, yday, m + 1)
  }

  /**
   * The year assembled from the period counts starts at the right day, and the
   * leftover day count lies within that year.
   */
  lemma PeriodsSplitYear(q: int, c: int, a: int, b: int, r1: int, r2: int, r3: int, yday: int)
    requires 0 <= r1 < DaysPer400Years
    requires c == (if r1 / DaysPer100Years == 4 then 3 else r1 / DaysPer100Years)
    requires r2 == r1 - DaysPer100Years * c
    requires a == r2 / DaysPer4Years && r3 == r2 % DaysPer4Years
    requires b == (if r3 / 365 == 4 then 3 else r3 / 365)
    requires yday == r3 - 365 * b
    ensures var y := 400 * q + 100 * c + 4 * a + b + 1;
      YearStart(y) == DaysPer400Years * q + r1 - yday && 0 <= yday < YearLength(y)
  {
    assert 0 <= c <= 3;
    assert 0 <= r2 <= DaysPer100Years;
    assert r2 == DaysPer100Years ==> c == 3;
    assert 0 <= a <= 24;
    assert 0 <= b <= 3;
    var k := 400 * q + 100 * c + 4 * a + b;
    DivModUnique(k, 4, 100 * q + 25 * c + a, b);
    DivModUnique(k, 100, 4 * q + c, 4 * a + b);
    DivModUnique(k, 400, q, 100 * c + 4 * a + b);
    assert YearStart(k + 1) == DaysPer400Years * q + DaysPer100Years * c + DaysPer4Years * a + 365 * b;
    if yday == 365 {
      assert b == 3 && r3 == 1460;
      var y := k + 1;
      if a < 24 {
        DivModUnique(y, 4, 100 * q + 25 * c + a + 1, 0);
        DivModUnique(y, 100, 4 * q + c, 4 * a + 4);
      } else {
        assert c == 3;
        DivModUnique(y, 400, q + 1, 0);
        DivModUnique(y, 4, 100 * q + 100, 0);
      }
      assert IsLeap(y);
    }
  }

  /** Consecutive years start YearLength days apart. */
  lemma YearStartNext(y: int)
    ensures YearStart(y + 1) == YearStart(y) + YearLength(y)
  {
    var k := y - 1;
    DivStep(k, 4);
    DivStep(k, 100);
    DivStep(k, 400);
    if y % 400 == 0 {
      MultipleOfFactor(y, 100, 4);
    }
    if y % 100 == 0 {
      MultipleOfFactor(y, 4, 25);
    }
  }

  /** Year starts increase with the year. */
  lemma {:induction false} YearStartMono(y1: int, y2: int)
    requires y1 < y2
    ensures YearStart(y1 + 1) <= YearStart(y2)
    decreases y2 - y1
  {
    YearStartNext(y2 - 1);
    if y1 + 1 < y2 {
      YearStartMono(y1, y2 - 1);
    }
  }

  /** A valid date falls inside its own year. */
  lemma DateWithinYear(d: Date)
    requires ValidDate(d)
    ensures 0 <= DaysBeforeMonth(d.year, d.month) + d.day - 1 < YearLength(d.year)
  {
    DaysBeforeNextMonth(d.year, d.month);
  }

  /** Two valid dates with the same day number are the same date. */
  lemma DaysFromCivilInjective(d1: Date, d2: Date)
    requires ValidDate(d1) && ValidDate(d2)
    requires DaysFromCivil(d1) == DaysFromCivil(d2)
    ensures d1 == d2
  {
    assert d1.year == d2.year by {
      DateWithinYear(d1);
      DateWithinYear(d2);
      YearStartNext(d1.year);
      YearStartNext(d2.year);
      if d1.year < d2.year {
        YearStartMono(d1.year, d2.year);
      } else if d2.year < d1.year {
        YearStartMono(d2.year, d1.year);
      }
    }
    SameYearSameDate(d1, d2);
  }

  /** Within one year, the day of the year determines month and day. */
  lemma SameYearSameDate(d1: Date, d2: Date)
    requires ValidDate(d1) && ValidDate(d2) && d1.year == d2.year
    requires DaysBeforeMonth(d1.year, d1.month) + d1.day == DaysBeforeMonth(d2.year, d2.month) + d2.day
    ensures d1 == d2
  {
    if d1.month < d2.month {
      DaysBeforeNextMonth(d1.year, d1.month);
      MonthStartsMono(d1.year, d1.month + 1, d2.month);
    } else if d2.month < d1.month {
      DaysBeforeNextMonth(d2.year, d2.month);
      MonthStartsMono(d2.year, d2.month + 1, d1.month);
    }
  }

  lemma MonthStartsMono(y: int, m1: int, m2: int)
    requires 1 <= m1 <= m2 <= 13
    ensures DaysBeforeMonth(y, m1) <= DaysBeforeMonth(y, m2)
  {
  }

  /** Converting a valid date to its day number and back gives the date again. */
  lemma CivilFromDaysFromCivil(d: Date)
    requires ValidDate(d)
    ensures CivilFromDays(DaysFromCivil(d)) == d
  {
    DaysFromCivilInjective(CivilFromDays(DaysFromCivil(d)), d);
  }

  /** Dates with a four-digit year lie between 0000-01-01 and 9999-12-31. */
  lemma FourDigitYearDays(d: Date)
    requires ValidDate(d) && 0 <= d.year <= 9999
    ensures -719528 <= DaysFromCivil(d) < 2932897
  {
    DateWithinYear(d);
    YearStartNext(d.year);
    if d.year > 0 {
      YearStartMono(-1, d.year);
    }
    YearStartMono(d.year, 10000);
    assert YearStart(0) == -366 && YearStart(10000) == 3652059;
  }
}
