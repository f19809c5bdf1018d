/** The proleptic Gregorian calendar over a day count: day 0 is 1970-01-01
    (the JavaScript `Date` epoch), negative days lie before it. Used to name
    the year, month and day of an entry that falls in the absolute-date branch
    of the timestamp formatter. */
module Calendar {

  datatype Date = Date(year: int, month: int, day: int)

  predicate IsLeapYear(y: int) {
    y % 4 == 0 && (y % 100 != 0 || y % 400 == 0)
  }

  function DaysInYear(y: int): int {
    if IsLeapYear(y) then 366 else 365
  }

  function DaysInMonth(y: int, m: int): int
    requires 1 <= m <= 12
  {
    if m == 2 then (if IsLeapYear(y) then 29 else 28)
    else if m == 4 || m == 6 || m == 9 || m == 11 then 30
    else 31
  }

  predicate ValidDate(d: Date) {
    1 <= d.month <= 12 && 1 <= d.day <= DaysInMonth(d.year, d.month)
  }

  /** Days in the months of year `y` that come before month `m`: every
      month has between 28 and 31 days. */
  function DaysBeforeMonth(y: int, m: int): (r: int)
    requires 1 <= m <= 13
    ensures 28 * (m - 1) <= r <= 31 * (m - 1)
  {
    if m == 1 then 0 else DaysBeforeMonth(y, m - 1) + DaysInMonth(y, m - 1)
  }

  /** Month `m` starts where the months before it end. */
  lemma DaysBeforeNextMonth(y: int, m: int)
    requires 1 <= m <= 12
    ensures DaysBeforeMonth(y, m + 1) == DaysBeforeMonth(y, m) + DaysInMonth(y, m)
  {
  }

  /** The months of a year fill exactly the year. */
  lemma MonthsFillYear(y: int)
    ensures DaysBeforeMonth(y, 13) == DaysInYear(y)
  {
    var feb := DaysInMonth(y, 2);
    assert DaysBeforeMonth(y, 2) == 31;
    assert DaysBeforeMonth(y, 3) == 31 + feb;
    assert DaysBeforeMonth(y, 4) == 62 + feb;
    assert DaysBeforeMonth(y, 5) == 92 + feb;
    assert DaysBeforeMonth(y, 6) == 123 + feb;
    assert DaysBeforeMonth(y, 7) == 153 + feb;
    assert DaysBeforeMonth(y, 8) == 184 + feb;
    assert DaysBeforeMonth(y, 9) == 215 + feb;
    assert DaysBeforeMonth(y, 10) == 245 + feb;
    assert DaysBeforeMonth(y, 11) == 276 + feb;
    assert DaysBeforeMonth(y, 12) == 306 + feb;
  }

  lemma {:induction false} DaysBeforeMonthStrictlyIncreasing(y: int, m: int, n: int)
    requires 1 <= m < n <= 13
    ensures DaysBeforeMonth(y, m) < DaysBeforeMonth(y, n)
    decreases n - m
  {
    if m + 1 < n {
      DaysBeforeMonthStrictlyIncreasing(y, m + 1, n);
    }
  }

  /** Leap years before `y`, counted relative to a fixed origin (floors). */
  function LeapsBefore(y: int): int {
    (y - 1) / 4 - (y - 1) / 100 + (y - 1) / 400
  }

  /** Day number of January 1 of year `y`. */
  function YearStart(y: int): int {
    365 * (y - 1970) + LeapsBefore(y) - LeapsBefore(1970)
  }

  /** Consecutive years are exactly one year's length apart. */
  lemma YearStartStep(y: int)
    ensures YearStart(y + 1) == YearStart(y) + DaysInYear(y)
  {
    FloorStep4(y);
    FloorStep100(y);
    FloorStep400(y);
  }

  lemma FloorStep4(y: int)
    ensures y / 4 - (y - 1) / 4 == (if y % 4 == 0 then 1 else 0)
  {
  }

  lemma FloorStep100(y: int)
    ensures y / 100 - (y - 1) / 100 == (if y % 100 == 0 then 1 else 0)
  {
  }

  lemma FloorStep400(y: int)
    ensures y / 400 - (y - 1) / 400 == (if y % 400 == 0 then 1 else 0)
  {
  }

  lemma {:induction false} YearStartStrictlyIncreasing(y: int, z: int)
    requires y < z
    ensures YearStart(y) < YearStart(z)
    decreases z - y
  {
    YearStartStep(y);
    if y + 1 < z {
      YearStartStrictlyIncreasing(y + 1, z);
    }
  }

  /** Day number of a calendar date. */
  function DaysFromCivil(d: Date): int
    requires ValidDate(d)
  {
    YearStart(d.year) + DaysBeforeMonth(d.year, d.month) + d.day - 1
  }

  /** The year containing day `d`, searching upwards from year `y`. */
  function FindYearUp(d: int, y: int): (r: int)
    requires YearStart(y) <= d
    ensures YearStart(r) <= d < YearStart(r + 1)
    decreases d - YearStart(y)
  {
    YearStartStep(y);
    if d < YearStart(y + 1) then y else FindYearUp(d, y + 1)
  }

  /** The year containing day `d`, searching downwards from year `y`. */
  function FindYearDown(d: int, y: int): (r: int)
    requires d < YearStart(y + 1)
    ensures YearStart(r) <= d < YearStart(r + 1)
    decreases YearStart(y + 1) - d
  {
    YearStartStep(y);
    if YearStart(y) <= d then y else FindYearDown(d, y - 1)
  }

  /** The year containing day `d`; the search starts near the answer. */
  function YearOf(d: int): (r: int)
    ensures YearStart(r) <= d < YearStart(r + 1)
  {
    var guess := 1970 + (d * 400) / 146097;
    if YearStart(guess) <= d then FindYearUp(d, guess) else FindYearDown(d, guess - 1)
  }

  /** The month of year `y` holding day-of-year `doy`, searching from month `m`. */
  function MonthOf(y: int, doy: int, m: int): (r: int)
    requires 0 <= doy < DaysInYear(y)
    requires 1 <= m <= 12 && DaysBeforeMonth(y, m) <= doy
    ensures m <= r <= 12
    ensures DaysBeforeMonth(y, r) <= doy < DaysBeforeMonth(y, r + 1)
    decreases 12 - m
  {
    MonthsFillYear(y);
    if m == 12 || doy < DaysBeforeMonth(y, m + 1) then m else MonthOf(y, doy, m + 1)
  }

  /** The calendar date of day number `d`; it is a real date and it names `d`. */
  function CivilFromDays(d: int): (r: Date)
    ensures ValidDate(r)
    ensures DaysFromCivil(r) == d
  {
    var y := YearOf(d);
    YearStartStep(y);
    var doy := d - YearStart(y);
    var m := MonthOf(y, doy, 1);
    Date(y, m, doy - DaysBeforeMonth(y, m) + 1)
  }

  /** Every valid date's day number lies inside its own year. */
  lemma DaysFromCivilWithinYear(x: Date)
    requires ValidDate(x)
    ensures YearStart(x.year) <= DaysFromCivil(x) < YearStart(x.year + 1)
  {
    YearStartStep(x.year);
    DayOfYearBound(x);
  }

  /** A valid date's offset from the start of its year is less than the year's length. */
  lemma DayOfYearBound(x: Date)
    requires ValidDate(x)
    ensures DaysBeforeMonth(x.year, x.month) + x.day - 1 < DaysInYear(x.year)
  {
    MonthsFillYear(x.year);
    DaysBeforeNextMonth(x.year, x.month);
    if x.month < 12 {
      DaysBeforeMonthStrictlyIncreasing(x.year, x.month + 1, 13);
    }
  }

  /** Only year `y` holds day numbers between its start and the next year's. */
  lemma YearOfStartBounds(x: Date, y: int)
    requires ValidDate(x)
    requires YearStart(y) <= DaysFromCivil(x) < YearStart(y + 1)
    ensures x.year == y
  {
    DaysFromCivilWithinYear(x);
    if x.year < y {
      YearStartStrictlyIncreasing(x.year, y);
      if x.year + 1 < y {
        YearStartStrictlyIncreasing(x.year + 1, y);
      }
      assert false;
    } else if y < x.year {
      if y + 1 < x.year {
        YearStartStrictlyIncreasing(y + 1, x.year);
      }
      assert false;
    }
  }

  /** Within one year, only month `m` holds days-of-year between its start and the next month's. */
  lemma MonthOfStartBounds(x: Date, m: int)
    requires ValidDate(x) && 1 <= m <= 12
    requires DaysBeforeMonth(x.year, m) <= DaysBeforeMonth(x.year, x.month) + x.day - 1 < DaysBeforeMonth(x.year, m + 1)
    ensures x.month == m
  {
    var y := x.year;
    DaysBeforeNextMonth(y, x.month);
    if x.month < m {
      DaysBeforeMonthStrictlyIncreasing(y, x.month + 1, m + 1);
      if x.month + 1 < m {
        DaysBeforeMonthStrictlyIncreasing(y, x.month + 1, m);
      }
      assert false;
    } else if m < x.month {
      if m + 1 < x.month {
        DaysBeforeMonthStrictlyIncreasing(y, m + 1, x.month);
      }
      assert false;
    }
  }

  /** Distinct valid dates have distinct day numbers. */
  lemma DaysFromCivilInjective(x: Date, z: Date)
    requires ValidDate(x) && ValidDate(z)
    requires DaysFromCivil(x) == DaysFromCivil(z)
    ensures x == z
  {
    DaysFromCivilWithinYear(z);
    YearOfStartBounds(x, z.year);
    var y := z.year;
    DaysBeforeNextMonth(y, z.month);
    MonthOfStartBounds(x, z.month);
  }

  /** Converting a valid date to its day number and back yields the date. */
  lemma CivilRoundTrip(x: Date)
    requires ValidDate(x)
    ensures CivilFromDays(DaysFromCivil(x)) == x
  {
    DaysFromCivilInjective(CivilFromDays(DaysFromCivil(x)), x);
  }
}
