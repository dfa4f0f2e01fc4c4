/** The proleptic Gregorian calendar as JavaScript's `Date` sees it in local
    time: dates, day numbers counted from 1970-01-01, weekdays, day stepping
    and the normalising constructor `new Date(year, monthIndex, day)`. */
module Calendar {

  /** A calendar date; `month` is 1-based (January is 1). */
  datatype Date = Date(year: int, month: int, day: int)

  predicate IsLeapYear(y: int) {
    y % 4 == 0 && (y % 100 != 0 || y % 400 == 0)
  }

  function DaysInMonth(y: int, m: int): (n: int)
    requires 1 <= m <= 12
    ensures 28 <= n <= 31
  {
    if m == 2 then (if IsLeapYear(y) then 29 else 28)
    else if m == 4 || m == 6 || m == 9 || m == 11 then 30
    else 31
  }

  predicate Valid(d: Date) {
    1 <= d.month <= 12 && 1 <= d.day <= DaysInMonth(d.year, d.month)
  }

  function DaysInYear(y: int): int {
    if IsLeapYear(y) then 366 else 365
  }

  /** Days of year `y` before the first of month `m`; `m == 13` gives the whole year. */
  function DaysBeforeMonth(y: int, m: int): (n: int)
    requires 1 <= m <= 13
    ensures n >= 0
    decreases m
  {
    if m == 1 then 0 else DaysBeforeMonth(y, m - 1) + DaysInMonth(y, m - 1)
  }

  lemma MonthStep(y: int, m: int)
    requires 1 <= m <= 12
    ensures DaysBeforeMonth(y, m + 1) == DaysBeforeMonth(y, m) + DaysInMonth(y, m)
  {
  }

  /** The twelve months add up to the year's length. */
  lemma YearOfMonths(y: int)
    ensures DaysBeforeMonth(y, 13) == DaysInYear(y)
  {
    var leap := if IsLeapYear(y) then 1 else 0;
    assert DaysBeforeMonth(y, 2) == 31;
    assert DaysBeforeMonth(y, 3) == 59 + leap;
    assert DaysBeforeMonth(y, 4) == 90 + leap;
    assert DaysBeforeMonth(y, 5) == 120 + leap;
    assert DaysBeforeMonth(y, 6) == 151 + leap;
    assert DaysBeforeMonth(y, 7) == 181 + leap;
    assert DaysBeforeMonth(y, 8) == 212 + leap;
    assert DaysBeforeMonth(y, 9) == 243 + leap;
    assert DaysBeforeMonth(y, 10) == 273 + leap;
    assert DaysBeforeMonth(y, 11) == 304 + leap;
    assert DaysBeforeMonth(y, 12) == 334 + leap;
  }

  /** Days from 1970-01-01 to the first of January of year `y` (negative
      before 1970), counted year by year. */
  function DaysBeforeYear(y: int): int
    decreases if y < 1970 then 1970 - y else y - 1970
  {
    if y == 1970 then 0
    else if y > 1970 then DaysBeforeYear(y - 1) + DaysInYear(y - 1)
    else DaysBeforeYear(y + 1) - DaysInYear(y)
  }

  lemma YearStep(y: int)
    ensures DaysBeforeYear(y + 1) == DaysBeforeYear(y) + DaysInYear(y)
  {
  }

  /** Days from 1970-01-01 to `d`: the order of local-midnight timestamps. */
  function DayNumber(d: Date): int
    requires 1 <= d.month <= 12
  {
    DaysBeforeYear(d.year) + DaysBeforeMonth(d.year, d.month) + d.day - 1
  }

  /** `getDay()`: 0 is Sunday, 6 is Saturday; 1970-01-01 was a Thursday (4). */
  function Weekday(d: Date): (w: int)
    requires 1 <= d.month <= 12
    ensures 0 <= w < 7
  {
    (DayNumber(d) + 4) % 7
  }

  /** The calendar order of dates, field by field. */
  predicate LexLess(a: Date, b: Date) {
    a.year < b.year
    || (a.year == b.year && a.month < b.month)
    || (a.year == b.year && a.month == b.month && a.day < b.day)
  }

  lemma {:induction false} YearsMonotone(y1: int, y2: int)
    requires y1 <= y2
    ensures DaysBeforeYear(y1) + 365 * (y2 - y1) <= DaysBeforeYear(y2)
    decreases y2 - y1
  {
    if y1 < y2 {
      YearsMonotone(y1, y2 - 1);
      YearStep(y2 - 1);
    }
  }

  lemma {:induction false} MonthsMonotone(y: int, m1: int, m2: int)
    requires 1 <= m1 <= m2 <= 13
    ensures DaysBeforeMonth(y, m1) <= DaysBeforeMonth(y, m2)
    decreases m2 - m1
  {
    if m1 < m2 {
      MonthsMonotone(y, m1, m2 - 1);
    }
  }

  /** A valid date lies within its year's block of day numbers. */
  lemma DayNumberInYear(d: Date)
    requires Valid(d)
    ensures DaysBeforeYear(d.year) <= DayNumber(d) < DaysBeforeYear(d.year + 1)
  {
    MonthStep(d.year, d.month);
    MonthsMonotone(d.year, d.month + 1, 13);
    YearOfMonths(d.year);
    YearStep(d.year);
  }

  /** Day numbers follow the calendar order. */
  lemma DayNumberMonotone(a: Date, b: Date)
    requires Valid(a) && Valid(b) && LexLess(a, b)
    ensures DayNumber(a) < DayNumber(b)
  {
    if a.year < b.year {
      DayNumberInYear(a);
      DayNumberInYear(b);
      YearsMonotone(a.year + 1, b.year);
    } else if a.month < b.month {
      MonthStep(a.year, a.month);
      MonthsMonotone(a.year, a.month + 1, b.month);
    }
  }

  /** Distinct valid dates have distinct day numbers. */
  lemma DayNumberInjective(a: Date, b: Date)
    requires Valid(a) && Valid(b) && DayNumber(a) == DayNumber(b)
    ensures a == b
  {
    if LexLess(a, b) {
      DayNumberMonotone(a, b);
    } else if LexLess(b, a) {
      DayNumberMonotone(b, a);
    }
  }

  /** Comparing local-midnight timestamps is comparing dates in calendar order. */
  lemma DayNumberOrderIsCalendarOrder(a: Date, b: Date)
    requires Valid(a) && Valid(b)
    ensures DayNumber(a) < DayNumber(b) <==> LexLess(a, b)
  {
    if LexLess(a, b) {
      DayNumberMonotone(a, b);
    } else if LexLess(b, a) {
      DayNumberMonotone(b, a);
    }
  }

  /** The following calendar day, rolling over month and year ends. */
  function NextDay(d: Date): (r: Date)
    requires Valid(d)
    ensures Valid(r)
  {
    if d.day < DaysInMonth(d.year, d.month) then Date(d.year, d.month, d.day + 1)
    else if d.month < 12 then Date(d.year, d.month + 1, 1)
    else Date(d.year + 1, 1, 1)
  }

  lemma NextDayNumber(d: Date)
    requires Valid(d)
    ensures DayNumber(NextDay(d)) == DayNumber(d) + 1
  {
    if d.day == DaysInMonth(d.year, d.month) {
      if d.month < 12 {
        MonthEndNumber(d.year, d.month);
      } else {
        NewYearsEveNumber(d.year + 1);
      }
    }
  }

  /** The preceding calendar day, rolling back over month and year starts. */
  function PrevDay(d: Date): (r: Date)
    requires Valid(d)
    ensures Valid(r)
  {
    if d.day > 1 then Date(d.year, d.month, d.day - 1)
    else if d.month > 1 then Date(d.year, d.month - 1, DaysInMonth(d.year, d.month - 1))
    else Date(d.year - 1, 12, 31)
  }

  lemma PrevDayNumber(d: Date)
    requires Valid(d)
    ensures DayNumber(PrevDay(d)) == DayNumber(d) - 1
  {
    if d.day == 1 && d.month > 1 {
      MonthEndNumber(d.year, d.month - 1);
    } else if d.day == 1 {
      NewYearsEveNumber(d.year);
    }
  }

  /** The last day of month `m` comes just before the first day of month `m + 1`. */
  lemma MonthEndNumber(y: int, m: int)
    requires 1 <= m < 12
    ensures DayNumber(Date(y, m, DaysInMonth(y, m))) == DayNumber(Date(y, m + 1, 1)) - 1
  {
    MonthStep(y, m);
  }

  /** The last day of a year comes just before the first day of the next. */
  lemma NewYearsEveNumber(y: int)
    ensures DayNumber(Date(y - 1, 12, 31)) == DayNumber(Date(y, 1, 1)) - 1
  {
    YearStep(y - 1);
    MonthStep(y - 1, 12);
    YearOfMonths(y - 1);
  }

  /** The date `n` days after `d` (before it when `n` is negative). */
  function AddDays(d: Date, n: int): (r: Date)
    requires Valid(d)
    ensures Valid(r)
    decreases if n < 0 then -n else n
  {
    if n == 0 then d
    else if n > 0 then AddDays(NextDay(d), n - 1)
    else AddDays(PrevDay(d), n + 1)
  }

  /** Moving `n` days moves the day number by exactly `n`. */
  lemma {:induction false} AddDaysNumber(d: Date, n: int)
    requires Valid(d)
    ensures DayNumber(AddDays(d, n)) == DayNumber(d) + n
    decreases if n < 0 then -n else n
  {
    if n > 0 {
      NextDayNumber(d);
      AddDaysNumber(NextDay(d), n - 1);
    } else if n < 0 {
      PrevDayNumber(d);
      AddDaysNumber(PrevDay(d), n + 1);
    }
  }

  /** Moving `n` days and then `-n` days returns to the same date. */
  lemma AddDaysInverse(d: Date, n: int)
    requires Valid(d)
    ensures AddDays(AddDays(d, n), -n) == d
  {
    AddDaysNumber(d, n);
    AddDaysNumber(AddDays(d, n), -n);
    DayNumberInjective(AddDays(AddDays(d, n), -n), d);
  }

  /** Moving `a` days and then `b` days is moving `a + b` days. */
  lemma AddDaysAdditive(d: Date, a: int, b: int)
    requires Valid(d)
    ensures AddDays(AddDays(d, a), b) == AddDays(d, a + b)
  {
    AddDaysNumber(d, a);
    AddDaysNumber(AddDays(d, a), b);
    AddDaysNumber(d, a + b);
    DayNumberInjective(AddDays(AddDays(d, a), b), AddDays(d, a + b));
  }

  /** One step of `AddDays` is `NextDay`, and `PrevDay` undoes it. */
  lemma NextPrevInverse(d: Date)
    requires Valid(d)
    ensures AddDays(d, 1) == NextDay(d)
    ensures PrevDay(NextDay(d)) == d && NextDay(PrevDay(d)) == d
  {
    NextDayNumber(d);
    PrevDayNumber(d);
    PrevDayNumber(NextDay(d));
    NextDayNumber(PrevDay(d));
    DayNumberInjective(PrevDay(NextDay(d)), d);
    DayNumberInjective(NextDay(PrevDay(d)), d);
  }

  /** The weekday advances by `n` modulo 7. */
  lemma WeekdayAddDays(d: Date, n: int)
    requires Valid(d)
    ensures Weekday(AddDays(d, n)) == (Weekday(d) + n) % 7
  {
    var e := AddDays(d, n);
    AddDaysNumber(d, n);
    WeekdayShift(e, d, n);
  }

  lemma WeekdayShift(e: Date, d: Date, n: int)
    requires 1 <= e.month <= 12 && 1 <= d.month <= 12
    requires DayNumber(e) == DayNumber(d) + n
    ensures Weekday(e) == (Weekday(d) + n) % 7
  {
    ModSevenShift(DayNumber(e), DayNumber(d), n);
  }

  lemma ModSevenShift(a: int, b: int, n: int)
    requires a == b + n
    ensures (a + 4) % 7 == ((b + 4) % 7 + n) % 7
  {
    var q := (b + 4) / 7;
    assert a + 4 == ((b + 4) % 7 + n) + 7 * q;
  }

  /** A month index carried into the year one twelve-month step at a time:
      the year and an index in 0..11. */
  function CarryMonths(y: int, monthIndex: int): (r: (int, int))
    ensures 0 <= r.1 < 12
    decreases if monthIndex < 0 then 12 - monthIndex else monthIndex
  {
    if monthIndex < 0 then CarryMonths(y - 1, monthIndex + 12)
    else if monthIndex >= 12 then CarryMonths(y + 1, monthIndex - 12)
    else (y, monthIndex)
  }

  /** The carry is floor division by twelve and its remainder. */
  lemma {:induction false} CarryMonthsArithmetic(y: int, monthIndex: int)
    ensures CarryMonths(y, monthIndex) == (y + monthIndex / 12, monthIndex % 12)
    decreases if monthIndex < 0 then 12 - monthIndex else monthIndex
  {
    var q, r := monthIndex / 12, monthIndex % 12;
    assert monthIndex == 12 * q + r && 0 <= r < 12;
    if monthIndex < 0 {
      CarryMonthsArithmetic(y - 1, monthIndex + 12);
      assert monthIndex + 12 == 12 * (q + 1) + r;
      assert (monthIndex + 12) / 12 == q + 1 && (monthIndex + 12) % 12 == r;
    } else if monthIndex >= 12 {
      CarryMonthsArithmetic(y + 1, monthIndex - 12);
      assert monthIndex - 12 == 12 * (q - 1) + r;
      assert (monthIndex - 12) / 12 == q - 1 && (monthIndex - 12) % 12 == r;
    }
  }

  /** `new Date(year, monthIndex, day)` in local time: a year in 0..99 means
      1900 + year, the month index carries into the year, and the day counts
      from the first of that month (0 is the last day of the previous month). */
  function MakeDate(year: int, monthIndex: int, day: int): (r: Date)
    ensures Valid(r)
  {
    var fullYear := if 0 <= year <= 99 then 1900 + year else year;
    var ym := CarryMonths(fullYear, monthIndex);
    AddDays(Date(ym.0, ym.1 + 1, 1), day - 1)
  }

  /** Day 1 of a month index: the index carries whole years into the year. */
  lemma MakeDateFirstOfMonth(y: int, monthIndex: int)
    requires !(0 <= y <= 99)
    ensures var ym := CarryMonths(y, monthIndex); MakeDate(y, monthIndex, 1) == Date(ym.0, ym.1 + 1, 1)
  {
    var ym := CarryMonths(y, monthIndex);
    assert AddDays(Date(ym.0, ym.1 + 1, 1), 0) == Date(ym.0, ym.1 + 1, 1);
  }

  /** Every valid date is its month's first day moved `day - 1` days. */
  lemma CountFromFirst(d: Date)
    requires Valid(d)
    ensures AddDays(Date(d.year, d.month, 1), d.day - 1) == d
  {
    AddDaysNumber(Date(d.year, d.month, 1), d.day - 1);
    DayNumberInjective(AddDays(Date(d.year, d.month, 1), d.day - 1), d);
  }

  /** A year in 0..99 is read as 1900 + year. */
  lemma MakeDateTwoDigitYear(y: int, monthIndex: int, day: int)
    requires 0 <= y <= 99
    ensures MakeDate(y, monthIndex, day) == MakeDate(1900 + y, monthIndex, day)
  {
  }

  /** A valid date whose year is not in 0..99 is rebuilt as itself. */
  lemma MakeDateOfValid(d: Date)
    requires Valid(d) && !(0 <= d.year <= 99)
    ensures MakeDate(d.year, d.month - 1, d.day) == d
  {
    var first := Date(d.year, d.month, 1);
    assert CarryMonths(d.year, d.month - 1) == (d.year, d.month - 1);
    CountFromFirst(d);
  }

  /** Day 0 of the month after `m` is the last day of month `m`. */
  lemma MakeDateDayZero(y: int, m: int)
    requires 1 <= m <= 12 && !(0 <= y <= 99)
    ensures MakeDate(y, m, 0) == Date(y, m, DaysInMonth(y, m))
  {
    var ym := CarryMonths(y, m);
    assert ym == if m < 12 then (y, m) else (y + 1, 0) by {
      if m == 12 {
        assert CarryMonths(y + 1, 0) == (y + 1, 0);
      }
    }
    var first := Date(ym.0, ym.1 + 1, 1);
    assert MakeDate(y, m, 0) == AddDays(first, -1) == AddDays(PrevDay(first), 0);
  }

  /** `d.setDate(dayOfMonth)` on a copy of `d`: the day counts from the first
      of `d`'s month and overflows into neighbouring months. */
  function SetDate(d: Date, dayOfMonth: int): (r: Date)
    requires Valid(d)
    ensures Valid(r)
  {
    AddDays(Date(d.year, d.month, 1), dayOfMonth - 1)
  }

  /** Setting the day of month to `d.day + n` moves `n` calendar days. */
  lemma SetDateMovesDays(d: Date, n: int)
    requires Valid(d)
    ensures SetDate(d, d.day + n) == AddDays(d, n)
  {
    var first := Date(d.year, d.month, 1);
    CountFromFirst(d);
    AddDaysAdditive(first, d.day - 1, n);
    assert d.day - 1 + n == d.day + n - 1;
  }
}
