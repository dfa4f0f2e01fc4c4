/** The date helpers of `src/lib/date.ts`: `YYYY-MM-DD` keys, their parser,
    the working-day test, `addDays`, week and month enumeration. */
module DateKeys {
  import opened Wrappers
  import opened Strings
  import opened Calendar

  /** `pad`: `String(v).padStart(2, "0")`. */
  function Pad2(v: nat): (s: string)
    ensures AllDigits(s) && |s| >= 2
    ensures v < 100 ==> |s| == 2
  {
    var s := NatToString(v);
    if |s| < 2 then "0" + s else s
  }

  lemma {:induction false} DigitsValueLeadingZero(s: string)
    requires AllDigits(s)
    ensures AllDigits("0" + s) && DigitsValue("0" + s) == DigitsValue(s)
    decreases |s|
  {
    if |s| > 0 {
      var t := "0" + s;
      assert t[..|t| - 1] == "0" + s[..|s| - 1];
      DigitsValueLeadingZero(s[..|s| - 1]);
    }
  }

  lemma Pad2Value(v: nat)
    ensures DigitsValue(Pad2(v)) == v
    ensures ParseNumber(Pad2(v)) == Some(v)
  {
    DigitsValueOfNatToString(v);
    DigitsValueLeadingZero(NatToString(v));
  }

  /** `toDateKey`: year, 1-based month and day joined by dashes. */
  function ToDateKey(d: Date): (k: string)
    requires Valid(d)
    ensures |k| >= 7 && k[|k| - 6] == '-' && k[|k| - 3] == '-'
  {
    IntToString(d.year) + "-" + Pad2(d.month) + "-" + Pad2(d.day)
  }

  /** A date key is the year, a dash, two digits of month, a dash and two digits of day. */
  lemma DateKeyFormat(d: Date)
    requires Valid(d)
    ensures var k := ToDateKey(d);
      && |k| >= 7
      && k[..|k| - 6] == IntToString(d.year)
      && k[|k| - 6] == '-' && k[|k| - 3] == '-'
      && AllDigits(k[|k| - 5..|k| - 3]) && DigitsValue(k[|k| - 5..|k| - 3]) == d.month
      && AllDigits(k[|k| - 2..]) && DigitsValue(k[|k| - 2..]) == d.day
  {
    var k := ToDateKey(d);
    Pad2Value(d.month);
    Pad2Value(d.day);
    assert k[|k| - 5..|k| - 3] == Pad2(d.month);
    assert k[|k| - 2..] == Pad2(d.day);
    assert k[..|k| - 6] == IntToString(d.year);
  }

  /** The three dash-separated fields of a key, read back as numbers. */
  function ParseFields(s: string): (r: Option<seq<int>>)
    ensures r.Some? ==> |r.value| == 3
  {
    var parts := Split(s, '-');
    if |parts| < 3 then None
    else match (ParseNumber(parts[0]), ParseNumber(parts[1]), ParseNumber(parts[2]))
      case (Some(y), Some(m), Some(d)) => Some([y, m, d])
      case _ => None
  }

  /** `parseDateKey`: `new Date(year, month - 1, day)` from the fields; `None`
      stands for JavaScript's invalid date (a missing or non-numeric field). */
  function ParseDateKey(s: string): (r: Option<Date>)
    ensures r.Some? <==> ParseFields(s).Some?
    ensures r.Some? ==> Valid(r.value)
  {
    match ParseFields(s)
    case None => None
    case Some(f) => Some(MakeDate(f[0], f[1] - 1, f[2]))
  }

  lemma NoDashInDigits(s: string)
    requires AllDigits(s)
    ensures '-' !in s
  {
  }

  /** Reading a key back yields its fields, before any date normalisation. */
  lemma ParseFieldsOfKey(d: Date)
    requires Valid(d) && d.year >= 0
    ensures ParseFields(ToDateKey(d)) == Some([d.year, d.month, d.day])
  {
    var y, m, dd := IntToString(d.year), Pad2(d.month), Pad2(d.day);
    NoDashInDigits(y);
    NoDashInDigits(m);
    NoDashInDigits(dd);
    assert ToDateKey(d) == y + ['-'] + (m + ['-'] + dd);
    SplitAtSeparator(y, '-', m + ['-'] + dd);
    SplitAtSeparator(m, '-', dd);
    SplitNoSeparator(dd, '-');
    assert Split(ToDateKey(d), '-') == [y, m, dd];
    ParseNumberOfNatToString(d.year);
    Pad2Value(d.month);
    Pad2Value(d.day);
  }

  /** Round trip: parsing a key gives back the same calendar day. */
  lemma ParseDateKeyRoundTrip(d: Date)
    requires Valid(d) && d.year >= 100
    ensures ParseDateKey(ToDateKey(d)) == Some(d)
  {
    ParseFieldsOfKey(d);
    MakeDateOfValid(d);
  }

  /** Distinct dates have distinct keys. */
  lemma DateKeyInjective(a: Date, b: Date)
    requires Valid(a) && Valid(b)
    ensures ToDateKey(a) == ToDateKey(b) <==> a == b
  {
    if ToDateKey(a) == ToDateKey(b) {
      DateKeyFormat(a);
      DateKeyFormat(b);
      IntToStringInjective(a.year, b.year);
    }
  }

  /** For a year in 0..99 the key parses into 1900 + year, as `new Date` reads it;
      0099-12-31 comes back as 1999-12-31. */
  lemma ParseDateKeyTwoDigitYear(d: Date)
    requires Valid(d) && 0 <= d.year <= 99
    ensures ParseDateKey(ToDateKey(d)) == Some(MakeDate(1900 + d.year, d.month - 1, d.day))
    ensures d == Date(99, 12, 31) ==> ParseDateKey(ToDateKey(d)) == Some(Date(1999, 12, 31))
  {
    ParseFieldsOfKey(d);
    MakeDateTwoDigitYear(d.year, d.month - 1, d.day);
    if d == Date(99, 12, 31) {
      MakeDateOfValid(Date(1999, 12, 31));
    }
  }

  /** `isWorkingDay`: Monday to Friday. */
  predicate IsWorkingDay(d: Date): (working: bool)
    requires Valid(d)
    ensures working <==> 1 <= Weekday(d) <= 5
  {
    Weekday(d) != 0 && Weekday(d) != 6
  }

  /** `addDays`: `setDate(getDate() + days)` on a copy; it lands `days`
      calendar days away, across month and year ends. */
  function ShiftDays(d: Date, days: int): (r: Date)
    requires Valid(d)
    ensures Valid(r) && r == AddDays(d, days)
  {
    SetDateMovesDays(d, days);
    SetDate(d, d.day + days)
  }

  /** `getWeekDates`: keys of `start` and the six days after it, each built
      with `setDate(start.getDate() + i)`. */
  function GetWeekDates(start: Date): (keys: seq<string>)
    requires Valid(start)
    ensures |keys| == 7
  {
    seq(7, i requires 0 <= i < 7 => ToDateKey(SetDate(start, start.day + i)))
  }

  lemma WeekDateAt(start: Date, i: int)
    requires Valid(start) && 0 <= i < 7
    ensures GetWeekDates(start)[i] == ToDateKey(AddDays(start, i))
  {
    SetDateMovesDays(start, i);
  }

  /** The week starts at `start` and every next key is the next calendar day. */
  lemma WeekDatesConsecutive(start: Date)
    requires Valid(start)
    ensures var keys := GetWeekDates(start);
      && keys[0] == ToDateKey(start)
      && (forall i :: 0 <= i < 7 ==> keys[i] == ToDateKey(AddDays(start, i)))
      && (forall i :: 0 <= i < 6 ==> keys[i + 1] == ToDateKey(NextDay(AddDays(start, i))))
  {
    var keys := GetWeekDates(start);
    forall i | 0 <= i < 7
      ensures keys[i] == ToDateKey(AddDays(start, i))
    {
      WeekDateAt(start, i);
    }
    forall i | 0 <= i < 6
      ensures keys[i + 1] == ToDateKey(NextDay(AddDays(start, i)))
    {
      WeekDateAt(start, i + 1);
      AddDaysAdditive(start, i, 1);
      NextPrevInverse(AddDays(start, i));
    }
  }

  /** The `YYYY-MM` month value used by the history page. */
  function MonthValue(year: int, month: int): string
    requires 1 <= month <= 12
  {
    IntToString(year) + "-" + Pad2(month)
  }

  /** `monthValue.split("-").map(Number)`: year and 1-based month, or `None`
      when either is missing or not a number. */
  function ParseMonthValue(v: string): (r: Option<(int, int)>)
  {
    var parts := Split(v, '-');
    if |parts| < 2 then None
    else match (ParseNumber(parts[0]), ParseNumber(parts[1]))
      case (Some(y), Some(m)) => Some((y, m))
      case _ => None
  }

  lemma ParseMonthValueRoundTrip(y: int, m: int)
    requires y >= 0 && 1 <= m <= 12
    ensures ParseMonthValue(MonthValue(y, m)) == Some((y, m))
  {
    var ys, ms := IntToString(y), Pad2(m);
    NoDashInDigits(ys);
    NoDashInDigits(ms);
    assert MonthValue(y, m) == ys + ['-'] + ms;
    SplitAtSeparator(ys, '-', ms);
    SplitNoSeparator(ms, '-');
    ParseNumberOfNatToString(y);
    Pad2Value(m);
  }

  datatype MonthRange = MonthRange(start: Date, end: Date)

  /** `getMonthRange`: the first and the last day of the month, or `None` for
      an invalid month value (JavaScript's invalid dates). */
  function GetMonthRange(monthValue: string): (r: Option<MonthRange>)
    ensures r.Some? ==> Valid(r.value.start) && Valid(r.value.end)
  {
    match ParseMonthValue(monthValue)
    case None => None
    case Some((y, m)) => Some(MonthRange(MakeDate(y, m - 1, 1), MakeDate(y, m, 0)))
  }

  /** For a well-formed month the range runs from day 1 to the month's last
      day, which for February is 29 exactly in leap years. */
  lemma MonthRangeBounds(y: int, m: int)
    requires y >= 100 && 1 <= m <= 12
    ensures GetMonthRange(MonthValue(y, m)) == Some(MonthRange(Date(y, m, 1), Date(y, m, DaysInMonth(y, m))))
    ensures m == 2 ==> (DaysInMonth(y, m) == 29 <==> IsLeapYear(y))
  {
    ParseMonthValueRoundTrip(y, m);
    MakeDateOfValid(Date(y, m, 1));
    MakeDateDayZero(y, m);
  }

  /** The month before `(y, m)`, wrapping from January to December of the previous year. */
  function PrevMonth(ym: (int, int)): (int, int) {
    if ym.1 <= 1 then (ym.0 - 1, 12) else (ym.0, ym.1 - 1)
  }

  /** `i` months back from `(y, m)`, stepping one month at a time. */
  function MonthsBack(y: int, m: int, i: nat): (int, int) {
    if i == 0 then (y, m) else PrevMonth(MonthsBack(y, m, i - 1))
  }

  /** The number of options `getMonthOptions` gives when called without a count. */
  const DefaultMonthOptionCount: nat := 6

  /** `getMonthOptions(count)` values: month `i` is `new Date(year, month - i, 1)`. */
  function GetMonthOptions(count: nat, now: Date): (values: seq<string>)
    requires Valid(now)
    ensures |values| == count
  {
    seq(count, i requires 0 <= i < count => MonthOption(now, i))
  }

  /** Option `i`: the month of `new Date(now.getFullYear(), now.getMonth() - i, 1)`. */
  function MonthOption(now: Date, i: nat): (v: string)
    requires Valid(now)
    ensures exists y, m :: 1 <= m <= 12 && v == MonthValue(y, m)
  {
    MonthValueOf(MakeDate(now.year, now.month - 1 - i, 1))
  }

  /** The `YYYY-MM` value of the month `d` falls in. */
  function MonthValueOf(d: Date): string
    requires Valid(d)
  {
    MonthValue(d.year, d.month)
  }

  lemma {:induction false} MonthsBackArithmetic(y: int, m: int, i: nat)
    requires 1 <= m <= 12
    ensures MonthsBack(y, m, i) == (y + (m - 1 - i) / 12, (m - 1 - i) % 12 + 1)
  {
    if i > 0 {
      MonthsBackArithmetic(y, m, i - 1);
      var k := m - 1 - (i - 1);
      var q, r := k / 12, k % 12;
      assert k == 12 * q + r && 0 <= r < 12;
      if r == 0 {
        assert k - 1 == 12 * (q - 1) + 11;
        assert (k - 1) / 12 == q - 1 && (k - 1) % 12 == 11;
      } else {
        assert k - 1 == 12 * q + (r - 1);
        assert (k - 1) / 12 == q && (k - 1) % 12 == r - 1;
      }
    }
  }

  /** Stepping back month by month agrees with carrying the month index. */
  lemma MonthsBackCarry(y: int, m: int, i: nat)
    requires 1 <= m <= 12
    ensures var c := CarryMonths(y, m - 1 - i); MonthsBack(y, m, i) == (c.0, c.1 + 1)
  {
    MonthsBackArithmetic(y, m, i);
    CarryMonthsArithmetic(y, m - 1 - i);
  }

  /** Option `i` is the first day of the month `i` months back. */
  lemma MonthOptionDate(now: Date, i: nat)
    requires Valid(now) && !(0 <= now.year <= 99)
    ensures var ym := MonthsBack(now.year, now.month, i);
      MakeDate(now.year, now.month - 1 - i, 1) == Date(ym.0, ym.1, 1)
  {
    MonthsBackCarry(now.year, now.month, i);
    MakeDateFirstOfMonth(now.year, now.month - 1 - i);
  }

  lemma MonthOptionAt(count: nat, now: Date, i: nat)
    requires Valid(now) && !(0 <= now.year <= 99) && i < count
    ensures var ym := MonthsBack(now.year, now.month, i);
      1 <= ym.1 <= 12 && GetMonthOptions(count, now)[i] == MonthValue(ym.0, ym.1)
  {
    assert GetMonthOptions(count, now)[i] == MonthOption(now, i);
    MonthOptionValue(now, i);
  }

  lemma MonthOptionValue(now: Date, i: nat)
    requires Valid(now) && !(0 <= now.year <= 99)
    ensures var ym := MonthsBack(now.year, now.month, i);
      1 <= ym.1 <= 12 && MonthOption(now, i) == MonthValue(ym.0, ym.1)
  {
    var ym := MonthsBack(now.year, now.month, i);
    var d := MakeDate(now.year, now.month - 1 - i, 1);
    MonthOptionOfDate(now, i);
    MonthOptionDate(now, i);
    MonthValueOfFirst(d, ym.0, ym.1);
  }

  lemma MonthOptionOfDate(now: Date, i: nat)
    requires Valid(now)
    ensures MonthOption(now, i) == MonthValueOf(MakeDate(now.year, now.month - 1 - i, 1))
  {
  }

  lemma MonthValueOfFirst(d: Date, y: int, m: int)
    requires Valid(d) && d == Date(y, m, 1)
    ensures 1 <= m <= 12 && MonthValueOf(d) == MonthValue(y, m)
  {
  }

  /** The options start at the current month and each one is the month before
      the previous one, the year wrapping at January. */
  lemma MonthOptionsStepBack(count: nat, now: Date)
    requires Valid(now) && !(0 <= now.year <= 99)
    ensures var values := GetMonthOptions(count, now);
      && (count > 0 ==> values[0] == MonthValue(now.year, now.month))
      && forall i :: 0 <= i < count ==>
           var ym := MonthsBack(now.year, now.month, i);
           1 <= ym.1 <= 12 && values[i] == MonthValue(ym.0, ym.1)
  {
    forall i | 0 <= i < count
      ensures var ym := MonthsBack(now.year, now.month, i);
        1 <= ym.1 <= 12 && GetMonthOptions(count, now)[i] == MonthValue(ym.0, ym.1)
    {
      MonthOptionAt(count, now, i);
    }
    if count > 0 {
      MonthOptionAt(count, now, 0);
    }
  }
}
