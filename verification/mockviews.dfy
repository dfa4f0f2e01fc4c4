/** The read-only views of `src/lib/api/index.ts`: the current week, a
    month's history and the admin overview rows, each day normalised. */
module MockViews {
  import opened Wrappers
  import opened Seqs
  import opened Calendar
  import opened DateKeys
  import opened Attendance
  import opened MockStore

  /** Days back from `today` to that week's Monday: `(getDay() + 6) % 7`. */
  function MondayOffset(today: Date): (n: int)
    requires Valid(today)
    ensures 0 <= n < 7
    ensures Weekday(AddDays(today, -n)) == 1
  {
    var w := Weekday(today);
    WeekdayAddDays(today, -((w + 6) % 7));
    MondayArithmetic(w);
    (w + 6) % 7
  }

  lemma MondayArithmetic(w: int)
    requires 0 <= w < 7
    ensures (w + -((w + 6) % 7)) % 7 == 1
  {
  }

  /** `addDays(today, -mondayOffset)`: the Monday of `today`'s week. */
  function Monday(today: Date): (m: Date)
    requires Valid(today)
    ensures Valid(m) && Weekday(m) == 1
  {
    ShiftDays(today, -MondayOffset(today))
  }

  /** Day `i` (0 = Monday) of the week containing `today`: `addDays(monday, i)`. */
  function WeekDate(today: Date, i: int): (d: Date)
    requires Valid(today)
    ensures Valid(d)
  {
    ShiftDays(Monday(today), i)
  }

  /** `mockGetWeek`: the seven days from this week's Monday to Sunday. */
  function GetWeek(st: State, userId: string, today: Date): (r: Reply<seq<AttendanceDay>>)
    requires Valid(today)
    ensures r.state == EnsureMockData(st)
    ensures |r.value| == 7
    ensures forall i :: 0 <= i < 7 ==>
      r.value[i] == GetUserDay(st, userId, ToDateKey(WeekDate(today, i)), today).value
  {
    var st1 := EnsureMockData(st);
    EnsureMockDataIdempotent(st);
    Reply(seq(7, i requires 0 <= i < 7 => GetUserDay(st1, userId, ToDateKey(WeekDate(today, i)), today).value), st1)
  }

  /** The week runs Monday to Sunday on consecutive days and contains today. */
  lemma WeekIsMondayToSunday(st: State, userId: string, today: Date)
    requires Valid(today)
    ensures var week := GetWeek(st, userId, today).value;
      && (exists i :: 0 <= i < 7 && week[i].date == ToDateKey(today))
      && (forall i :: 0 <= i < 7 ==> week[i].date == ToDateKey(WeekDate(today, i)))
      && (forall i :: 0 <= i < 7 ==> Weekday(WeekDate(today, i)) == (i + 1) % 7)
      && (forall i :: 0 <= i < 6 ==> WeekDate(today, i + 1) == NextDay(WeekDate(today, i)))
  {
    var off := MondayOffset(today);
    WeekContainsToday(today);
    var week := GetWeek(st, userId, today).value;
    assert week[off].date == ToDateKey(today);
    forall i | 0 <= i < 7
      ensures Weekday(WeekDate(today, i)) == (i + 1) % 7
    {
      WeekDateWeekday(today, i);
    }
    forall i | 0 <= i < 6
      ensures WeekDate(today, i + 1) == NextDay(WeekDate(today, i))
    {
      WeekDateNext(today, i);
    }
  }

  /** The first five days of the week are its working days. */
  lemma WeekWorkingDays(today: Date)
    requires Valid(today)
    ensures forall i :: 0 <= i < 7 ==> (IsWorkingDay(WeekDate(today, i)) <==> i < 5)
  {
    forall i | 0 <= i < 7
      ensures IsWorkingDay(WeekDate(today, i)) <==> i < 5
    {
      WeekDayWorking(today, i);
    }
  }

  lemma WeekDayWorking(today: Date, i: int)
    requires Valid(today) && 0 <= i < 7
    ensures IsWorkingDay(WeekDate(today, i)) <==> i < 5
  {
    var d := WeekDate(today, i);
    WeekDateWeekday(today, i);
    WorkingWeekday(d, i);
  }

  lemma WorkingWeekday(d: Date, i: int)
    requires Valid(d) && 0 <= i < 7 && Weekday(d) == (i + 1) % 7
    ensures IsWorkingDay(d) <==> i < 5
  {
  }

  /** Day `i` of the week falls on weekday `i + 1` (Sunday, 0, last). */
  lemma WeekDateWeekday(today: Date, i: int)
    requires Valid(today) && 0 <= i < 7
    ensures Weekday(WeekDate(today, i)) == (i + 1) % 7
  {
    WeekdayAddDays(Monday(today), i);
  }

  /** Today is day `MondayOffset(today)` of its own week. */
  lemma WeekContainsToday(today: Date)
    requires Valid(today)
    ensures WeekDate(today, MondayOffset(today)) == today
  {
    AddDaysInverse(today, -MondayOffset(today));
  }

  /** Consecutive days of the week are consecutive calendar days. */
  lemma WeekDateNext(today: Date, i: int)
    requires Valid(today)
    ensures WeekDate(today, i + 1) == NextDay(WeekDate(today, i))
  {
    AddDaysAdditive(Monday(today), i, 1);
    NextPrevInverse(WeekDate(today, i));
  }

  /** `mockGetHistory`: one normalised day per day of the month named by
      `monthValue`; nothing is read when the value is not a month. */
  function GetHistory(st: State, userId: string, monthValue: string, today: Date): (r: Reply<seq<AttendanceDay>>)
    requires Valid(today)
    ensures ParseMonthValue(monthValue).None? ==> r == Reply([], st)
    ensures ParseMonthValue(monthValue).Some? ==> r.state == EnsureMockData(st)
  {
    match ParseMonthValue(monthValue)
    case None => Reply([], st)
    case Some((year, month)) =>
      var st1 := EnsureMockData(st);
      Reply(MonthEntries(st1, userId, year, month, today), st1)
  }

  /** The loop of `mockGetHistory`: days 1 to `new Date(year, month, 0).getDate()`. */
  function MonthEntries(st: State, userId: string, year: int, month: int, today: Date): (days: seq<AttendanceDay>)
    requires Valid(today)
    ensures |days| == MakeDate(year, month, 0).day
  {
    var end := MakeDate(year, month, 0);
    seq(end.day, i requires 0 <= i < end.day => HistoryDay(st, userId, year, month, i + 1, today))
  }

  /** The entry for day `day` of the month: `getUserDay` on `new Date(year, month - 1, day)`. */
  function HistoryDay(st: State, userId: string, year: int, month: int, day: int, today: Date): (r: AttendanceDay)
    requires Valid(today)
    ensures r.date == ToDateKey(MakeDate(year, month - 1, day))
  {
    GetUserDay(st, userId, ToDateKey(MakeDate(year, month - 1, day)), today).value
  }

  /** The history of a `YYYY-MM` month has one entry for each of its 28 to 31
      days, in order, each as `getUserDay` reads it. */
  lemma HistoryCoversMonth(st: State, userId: string, y: int, m: int, today: Date)
    requires Valid(today) && y >= 100 && 1 <= m <= 12
    ensures var days := GetHistory(st, userId, MonthValue(y, m), today).value;
      && |days| == DaysInMonth(y, m)
      && 28 <= |days| <= 31
      && forall i :: 0 <= i < |days| ==>
           days[i] == GetUserDay(st, userId, ToDateKey(Date(y, m, i + 1)), today).value
  {
    HistoryOfMonthValue(st, userId, y, m, today);
    MakeDateDayZero(y, m);
    var days := GetHistory(st, userId, MonthValue(y, m), today).value;
    forall i | 0 <= i < |days|
      ensures days[i] == GetUserDay(st, userId, ToDateKey(Date(y, m, i + 1)), today).value
    {
      MonthEntryAt(st, userId, y, m, today, i);
    }
  }

  /** A `YYYY-MM` value reads the entries of that month from the seeded state. */
  lemma HistoryOfMonthValue(st: State, userId: string, y: int, m: int, today: Date)
    requires Valid(today) && y >= 100 && 1 <= m <= 12
    ensures GetHistory(st, userId, MonthValue(y, m), today).value
      == MonthEntries(EnsureMockData(st), userId, y, m, today)
  {
    ParseMonthValueRoundTrip(y, m);
  }

  /** Entry i of a month is what `getUserDay` reads for day i + 1. */
  lemma MonthEntryAt(st: State, userId: string, y: int, m: int, today: Date, i: int)
    requires Valid(today) && y >= 100 && 1 <= m <= 12 && 0 <= i < DaysInMonth(y, m)
    ensures |MonthEntries(EnsureMockData(st), userId, y, m, today)| == DaysInMonth(y, m)
    ensures MonthEntries(EnsureMockData(st), userId, y, m, today)[i]
      == GetUserDay(st, userId, ToDateKey(Date(y, m, i + 1)), today).value
  {
    var entries := MonthEntries(EnsureMockData(st), userId, y, m, today);
    MakeDateDayZero(y, m);
    assert entries[i] == HistoryDay(EnsureMockData(st), userId, y, m, i + 1, today);
    HistoryDayOfDate(st, userId, Date(y, m, i + 1), today);
  }

  /** The entry for a day of a month is what `getUserDay` reads for that date. */
  lemma HistoryDayOfDate(st: State, userId: string, d: Date, today: Date)
    requires Valid(today) && Valid(d) && d.year >= 100
    ensures HistoryDay(EnsureMockData(st), userId, d.year, d.month, d.day, today)
      == GetUserDay(st, userId, ToDateKey(d), today).value
  {
    MakeDateOfValid(d);
    GetUserDaySeeded(st, userId, ToDateKey(d), today);
  }

  function RowOf(u: User, day: AttendanceDay): AdminRow {
    AdminRow(u.id, u.fullName, day.inTime, day.outTime, day.status)
  }

  /** `mockGetAdminRows`: one row per active user, in list order. */
  function GetAdminRows(st: State, dateKey: string, today: Date): (r: Reply<seq<AdminRow>>)
    requires Valid(today)
    ensures r.state == EnsureMockData(st)
    ensures var active := ActiveUsers(GetUsers(st).value);
      && |r.value| == |active|
      && (forall i :: 0 <= i < |active| ==> r.value[i].userId == active[i].id)
      && forall i :: 0 <= i < |active| ==>
           r.value[i] == RowOf(active[i], GetUserDay(st, active[i].id, dateKey, today).value)
  {
    var users := GetUsers(st);
    var active := ActiveUsers(users.value);
    EnsureMockDataIdempotent(st);
    Reply(seq(|active|, i requires 0 <= i < |active| =>
      RowOf(active[i], GetUserDay(users.state, active[i].id, dateKey, today).value)), users.state)
  }

  /** Every active user of `users`, and only those, has a row in `rows`. */
  predicate RowsCoverActive(rows: seq<AdminRow>, users: seq<User>) {
    && (forall u :: u in users && u.active ==> exists i :: 0 <= i < |rows| && rows[i].userId == u.id)
    && (forall i :: 0 <= i < |rows| ==> exists u :: u in users && u.active && rows[i].userId == u.id)
  }

  /** The admin rows cover exactly the active users. */
  lemma AdminRowsMatchUsers(st: State, dateKey: string, today: Date)
    requires Valid(today)
    ensures RowsCoverActive(GetAdminRows(st, dateKey, today).value, GetUsers(st).value)
  {
    RowsFollowUsers(GetAdminRows(st, dateKey, today).value, GetUsers(st).value);
  }

  lemma RowsFollowUsers(rows: seq<AdminRow>, users: seq<User>)
    requires |rows| == |ActiveUsers(users)|
    requires forall i :: 0 <= i < |rows| ==> rows[i].userId == ActiveUsers(users)[i].id
    ensures RowsCoverActive(rows, users)
  {
    var active := ActiveUsers(users);
    forall u | u in users && u.active
      ensures exists i :: 0 <= i < |rows| && rows[i].userId == u.id
    {
      var i :| 0 <= i < |active| && active[i] == u;
      assert rows[i].userId == u.id;
    }
    forall i | 0 <= i < |rows|
      ensures exists u :: u in users && u.active && rows[i].userId == u.id
    {
      assert active[i] in active;
    }
  }

  /** A row's status is the status derived for that user and date. */
  lemma AdminRowsStatus(st: State, dateKey: string, today: Date)
    requires Valid(today)
    ensures var rows := GetAdminRows(st, dateKey, today).value;
      forall i :: 0 <= i < |rows| ==>
        rows[i].status == ComputeStatus(dateKey, LookupDay(AttendanceOf(st), rows[i].userId, dateKey), today)
  {
    var rows := GetAdminRows(st, dateKey, today).value;
    var active := ActiveUsers(GetUsers(st).value);
    forall i | 0 <= i < |rows|
      ensures rows[i].status == ComputeStatus(dateKey, LookupDay(AttendanceOf(st), rows[i].userId, dateKey), today)
    {
      var day := GetUserDay(st, active[i].id, dateKey, today).value;
      assert rows[i] == RowOf(active[i], day);
    }
  }
}
