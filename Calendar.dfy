/**
 * The calendar arithmetic behind the period walk: the month-length rule of
 * `get_last_day_of_month`, and the day-ordinal arithmetic that Python's
 * `datetime + timedelta(weeks=1)` performs, on the proleptic Gregorian
 * calendar from 1 January of year 1.
 */
module Calendar {

  /** Gregorian leap years. For a positive divisor Python's `%` and Dafny's agree on every year. */
  predicate IsLeapYear(year: int)
  {
    year % 4 == 0 && (year % 100 != 0 || year % 400 == 0)
  }

  /**
   * `get_last_day_of_month`: 31 for the long months, 29 or 28 for February,
   * and 30 for every other month number, including numbers outside 1..12,
   * which the source does not reject.
   */
  function LastDayOfMonth(year: int, month: int): (d: int)
    ensures 28 <= d <= 31
  {
    if month in {1, 3, 5, 7, 8, 10, 12} then 31
    else if month != 2 then 30
    else if IsLeapYear(year) then 29
    else 28
  }

  /** A calendar day, as `datetime(year, month, day)` holds it. */
  datatype Date = Date(year: int, month: int, day: int)

  /** The dates `datetime` accepts (its upper year bound is not modelled). */
  predicate ValidDate(d: Date)
  {
    1 <= d.year && 1 <= d.month <= 12 && 1 <= d.day <= LastDayOfMonth(d.year, d.month)
  }

  /** Python's `datetime` comparison `a <= b`: lexicographic on (year, month, day). */
  predicate DateLe(a: Date, b: Date)
  {
    a.year < b.year
    || (a.year == b.year && (a.month < b.month || (a.month == b.month && a.day <= b.day)))
  }

  /** Days of `year` that lie in the months before `month`. */
  function DaysBeforeMonth(year: int, month: int): (n: int)
    ensures 0 <= n
    decreases month
  {
    if month <= 1 then 0 else DaysBeforeMonth(year, month - 1) + LastDayOfMonth(year, month - 1)
  }

  /** The length of a year: 366 days in a leap year, 365 otherwise. */
  function DaysInYear(year: int): int
  {
    if IsLeapYear(year) then 366 else 365
  }

  /** Days from 1 January of year 1 to 1 January of `year`. */
  function DaysBeforeYear(year: int): (n: int)
    ensures 0 <= n
    requires 1 <= year
    decreases year
  {
    if year == 1 then 0 else DaysBeforeYear(year - 1) + DaysInYear(year - 1)
  }

  /** Zero-based day ordinal: `toordinal() - 1` in Python's terms. */
  function DayNumber(d: Date): int
    requires ValidDate(d)
  {
    DaysBeforeYear(d.year) + DaysBeforeMonth(d.year, d.month) + d.day - 1
  }

  /** The twelve month lengths of `get_last_day_of_month` add up to the length of the year. */
  lemma {:induction false} MonthLengthsSum(year: int)
    ensures DaysBeforeMonth(year, 13) == DaysInYear(year)
  {
    assert DaysBeforeMonth(year, 3) == 31 + LastDayOfMonth(year, 2);
    assert DaysBeforeMonth(year, 6) == DaysBeforeMonth(year, 3) + 92;
    assert DaysBeforeMonth(year, 9) == DaysBeforeMonth(year, 6) + 92;
    assert DaysBeforeMonth(year, 13) == DaysBeforeMonth(year, 9) + 122;
  }

  /** February has 29 days exactly in leap years; the rule on four sample years. */
  lemma {:induction false} FebruaryLength(year: int)
    ensures LastDayOfMonth(year, 2) == 29 <==> IsLeapYear(year)
    ensures LastDayOfMonth(2000, 2) == 29 && LastDayOfMonth(1900, 2) == 28
    ensures LastDayOfMonth(2024, 2) == 29 && LastDayOfMonth(2023, 2) == 28
  {
  }

  /**
   * The seven long months have 31 days; every other month number except 2,
   * the four short months and the out-of-range numbers alike, has 30.
   */
  lemma {:induction false} MonthLengths(year: int, month: int)
    ensures month in {1, 3, 5, 7, 8, 10, 12} ==> LastDayOfMonth(year, month) == 31
    ensures month !in {1, 2, 3, 5, 7, 8, 10, 12} ==> LastDayOfMonth(year, month) == 30
    ensures LastDayOfMonth(year, 4) == 30 && LastDayOfMonth(year, 11) == 30
    ensures LastDayOfMonth(year, 0) == 30 && LastDayOfMonth(year, 13) == 30
  {
  }

  lemma {:induction false} DivStep(y: int, k: int)
    requires 1 <= y && (k == 4 || k == 100 || k == 400)
    ensures y / k - (y - 1) / k == if y % k == 0 then 1 else 0
  {
    if k == 4 {
    } else if k == 100 {
    } else {
    }
  }

  /**
   * The ordinal of 1 January agrees with the closed form that counts every
   * fourth year, minus centuries, plus every fourth century.
   */
  lemma {:induction false} DaysBeforeYearClosedForm(year: int)
    requires 1 <= year
    ensures DaysBeforeYear(year) == 365 * (year - 1) + (year - 1) / 4 - (year - 1) / 100 + (year - 1) / 400
    decreases year
  {
    if year > 1 {
      DaysBeforeYearClosedForm(year - 1);
      LeapCount(year - 1);
    }
  }

  /** One year's length, as the growth of the closed form's three counts. */
  lemma {:induction false} LeapCount(y: int)
    requires 1 <= y
    ensures DaysInYear(y) == 365 + (y / 4 - (y - 1) / 4) - (y / 100 - (y - 1) / 100) + (y / 400 - (y - 1) / 400)
  {
    DivStep(y, 4);
    DivStep(y, 100);
    DivStep(y, 400);
    if y % 400 == 0 {
      assert y % 100 == 0 && y % 4 == 0 by {
        assert y == 400 * (y / 400);
        assert y == 100 * (4 * (y / 400));
        assert y == 4 * (100 * (y / 400));
      }
    } else if y % 100 == 0 {
      assert y % 4 == 0 by {
        assert y == 100 * (y / 100);
        assert y == 4 * (25 * (y / 100));
      }
    }
  }

  lemma {:induction false} DaysBeforeMonthMonotone(year: int, m: int, n: int)
    requires m <= n
    ensures DaysBeforeMonth(year, m) <= DaysBeforeMonth(year, n)
    decreases n - m
  {
    if m < n {
      DaysBeforeMonthMonotone(year, m, n - 1);
    }
  }

  lemma {:induction false} DaysBeforeYearMonotone(y: int, z: int)
    requires 1 <= y <= z
    ensures DaysBeforeYear(y) <= DaysBeforeYear(z)
    decreases z - y
  {
    if y < z {
      DaysBeforeYearMonotone(y, z - 1);
    }
  }

  /** A valid date's ordinal lies inside its own year. */
  lemma {:induction false} DayNumberInYear(d: Date)
    requires ValidDate(d)
    ensures DaysBeforeYear(d.year) <= DayNumber(d) < DaysBeforeYear(d.year) + DaysInYear(d.year)
  {
    DaysBeforeMonthMonotone(d.year, d.month + 1, 13);
    MonthLengthsSum(d.year);
  }

  /** A valid date's day-of-year offset lies inside its own month. */
  lemma {:induction false} DayNumberInMonth(d: Date)
    requires ValidDate(d)
    ensures DaysBeforeMonth(d.year, d.month) <= DayNumber(d) - DaysBeforeYear(d.year) < DaysBeforeMonth(d.year, d.month + 1)
  {
  }

  /** A date of an earlier year has a smaller ordinal. */
  lemma {:induction false} EarlierYearFirst(a: Date, b: Date)
    requires ValidDate(a) && ValidDate(b) && a.year < b.year
    ensures DayNumber(a) < DayNumber(b)
  {
    DayNumberInYear(a);
    DaysBeforeYearMonotone(a.year + 1, b.year);
    DayNumberInYear(b);
  }

  /** A date of an earlier month of the same year has a smaller ordinal. */
  lemma {:induction false} EarlierMonthFirst(a: Date, b: Date)
    requires ValidDate(a) && ValidDate(b) && a.year == b.year && a.month < b.month
    ensures DayNumber(a) < DayNumber(b)
  {
    DayNumberInMonth(a);
    DaysBeforeMonthMonotone(a.year, a.month + 1, b.month);
  }

  /** `datetime` order and ordinal order agree on valid dates, in both directions. */
  lemma {:induction false} DateLeIsDayNumberLe(a: Date, b: Date)
    requires ValidDate(a) && ValidDate(b)
    ensures DateLe(a, b) <==> DayNumber(a) <= DayNumber(b)
  {
    if a.year < b.year {
      EarlierYearFirst(a, b);
    } else if b.year < a.year {
      EarlierYearFirst(b, a);
    } else if a.month < b.month {
      EarlierMonthFirst(a, b);
    } else if b.month < a.month {
      EarlierMonthFirst(b, a);
    }
  }

  /** Two valid dates with the same ordinal are the same date. */
  lemma {:induction false} DayNumberInjective(a: Date, b: Date)
    requires ValidDate(a) && ValidDate(b) && DayNumber(a) == DayNumber(b)
    ensures a == b
  {
    DateLeIsDayNumberLe(a, b);
    DateLeIsDayNumberLe(b, a);
  }

  /** The day `n` days into `month` of `year` (moving into later months as needed). */
  function DateInYear(year: int, month: int, n: int): (d: Date)
    requires 1 <= year && 1 <= month <= 12
    requires 0 <= n < DaysInYear(year) - DaysBeforeMonth(year, month)
    ensures ValidDate(d) && d.year == year
    ensures DaysBeforeMonth(year, d.month) + d.day - 1 == DaysBeforeMonth(year, month) + n
    decreases 12 - month
  {
    MonthLengthsSum(year);
    if n < LastDayOfMonth(year, month) then Date(year, month, n + 1)
    else DateInYear(year, month + 1, n - LastDayOfMonth(year, month))
  }

  /** The date whose ordinal is `DaysBeforeYear(year) + n`. */
  function DateFromYear(year: int, n: int): (d: Date)
    requires 1 <= year && 0 <= n
    ensures ValidDate(d) && DayNumber(d) == DaysBeforeYear(year) + n
    decreases n
  {
    if n < DaysInYear(year) then DateInYear(year, 1, n)
    else DateFromYear(year + 1, n - DaysInYear(year))
  }

  /** Python's `date.fromordinal(n + 1)`: the inverse of `DayNumber`. */
  function FromDayNumber(n: int): (d: Date)
    requires 0 <= n
    ensures ValidDate(d) && DayNumber(d) == n
  {
    DateFromYear(1, n)
  }

  /** Every valid date is recovered from its ordinal. */
  lemma {:induction false} FromDayNumberOfDayNumber(d: Date)
    requires ValidDate(d)
    ensures FromDayNumber(DayNumber(d)) == d
  {
    DayNumberInjective(FromDayNumber(DayNumber(d)), d);
  }

  /** `d + timedelta(days=k)`: move `k` days along the ordinal line. */
  function AddDays(d: Date, k: int): (r: Date)
    requires ValidDate(d) && 0 <= DayNumber(d) + k
    ensures ValidDate(r) && DayNumber(r) == DayNumber(d) + k
  {
    FromDayNumber(DayNumber(d) + k)
  }

  /**
   * The schoolbook rule for moving forward by at most four weeks: stay in
   * the month while it lasts, otherwise roll into the next month, and out of
   * December into January of the next year.
   */
  function StepForward(d: Date, k: int): Date
  {
    var last := LastDayOfMonth(d.year, d.month);
    if d.day + k <= last then Date(d.year, d.month, d.day + k)
    else if d.month == 12 then Date(d.year + 1, 1, d.day + k - last)
    else Date(d.year, d.month + 1, d.day + k - last)
  }

  /** The schoolbook rule moves a valid date `k` days along the ordinal line, for every step of up to 28 days. */
  lemma {:induction false} StepForwardDayNumber(d: Date, k: int)
    requires ValidDate(d) && 0 <= k <= 28
    ensures ValidDate(StepForward(d, k)) && DayNumber(StepForward(d, k)) == DayNumber(d) + k
  {
    var s := StepForward(d, k);
    assert ValidDate(s);
    if d.day + k > LastDayOfMonth(d.year, d.month) && d.month == 12 {
      MonthLengthsSum(d.year);
    }
  }

  /** Ordinal arithmetic agrees with the schoolbook rule for every step of up to 28 days. */
  lemma {:induction false} AddDaysIsStepForward(d: Date, k: int)
    requires ValidDate(d) && 0 <= k <= 28
    ensures AddDays(d, k) == StepForward(d, k)
  {
    StepForwardDayNumber(d, k);
    DayNumberInjective(AddDays(d, k), StepForward(d, k));
  }
}
