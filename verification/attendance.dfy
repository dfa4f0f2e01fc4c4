/** The attendance domain of `src/lib/api/index.ts`: users, raw day records,
    and the status derived from a day's punches on every read. */
module Attendance {
  import opened Wrappers
  import opened Seqs
  import opened Calendar
  import opened DateKeys

  datatype Role = Employee | Admin

  datatype User = User(id: string, fullName: string, email: string, role: Role, active: bool)

  datatype Status = Ok | Late | Absent | Incomplete

  /** A timestamp read in local time: its calendar date and the milliseconds
      since local midnight. */
  datatype Instant = Instant(date: Date, msOfDay: int)

  /** 09:10:00.000 as milliseconds since midnight. */
  const LateCutoffMs: int := (9 * 60 + 10) * 60 * 1000

  /** A day record; as stored, `status` is whatever was current when it was
      written and is never read back. */
  datatype AttendanceDay = AttendanceDay(date: string, inTime: Option<Instant>, outTime: Option<Instant>, status: Status)

  datatype AdminRow = AdminRow(userId: string, fullName: string, inTime: Option<Instant>, outTime: Option<Instant>, status: Status)

  /** No record, or a record with neither punch. */
  predicate NoPunches(day: Option<AttendanceDay>) {
    day.None? || (day.value.inTime.None? && day.value.outTime.None?)
  }

  predicate BothPunches(day: Option<AttendanceDay>) {
    day.Some? && day.value.inTime.Some? && day.value.outTime.Some?
  }

  /** `computeStatus`: the status of the day keyed `dateKey` given its stored
      record (if any) and the current local date. */
  function ComputeStatus(dateKey: string, day: Option<AttendanceDay>, today: Date): (s: Status)
    requires Valid(today)
    ensures s == Absent ==>
      && NoPunches(day) && dateKey != ToDateKey(today)
      && ParseDateKey(dateKey).Some? && IsWorkingDay(ParseDateKey(dateKey).value)
      && (today.year >= 100 ==> DayNumber(ParseDateKey(dateKey).value) < DayNumber(today))
    ensures s == Late ==> BothPunches(day) && day.value.inTime.value.msOfDay > LateCutoffMs
    ensures s == Ok ==> BothPunches(day) && day.value.inTime.value.msOfDay <= LateCutoffMs
  {
    var todayKey := ToDateKey(today);
    if NoPunches(day) then
      if dateKey == todayKey then Incomplete
      else
        match (ParseDateKey(dateKey), ParseDateKey(todayKey))
        case (Some(d), Some(t)) =>
          TodayKeyParses(today);
          if DayNumber(d) < DayNumber(t) && IsWorkingDay(d) then Absent else Incomplete
        case _ => Incomplete
    else if day.value.inTime.Some? && day.value.outTime.None? then Incomplete
    else if day.value.inTime.None? then Incomplete
    else if day.value.inTime.value.msOfDay > LateCutoffMs then Late
    else Ok
  }

  lemma TodayKeyParses(today: Date)
    requires Valid(today)
    ensures today.year >= 100 ==> ParseDateKey(ToDateKey(today)) == Some(today)
  {
    if today.year >= 100 {
      ParseDateKeyRoundTrip(today);
    }
  }

  /** `normalizeDay`: the record as returned to callers, status recomputed. */
  function NormalizeDay(dateKey: string, day: Option<AttendanceDay>, today: Date): (r: AttendanceDay)
    requires Valid(today)
    ensures r.date == dateKey
    ensures r.inTime == (if day.Some? then day.value.inTime else None)
    ensures r.outTime == (if day.Some? then day.value.outTime else None)
    ensures r.status == ComputeStatus(dateKey, day, today)
  {
    AttendanceDay(
      dateKey,
      if day.Some? then day.value.inTime else None,
      if day.Some? then day.value.outTime else None,
      ComputeStatus(dateKey, day, today))
  }

  /** A day without punches: in progress today, absent on an earlier working
      day, and otherwise (weekend or future) incomplete. */
  lemma StatusWithoutPunches(d: Date, day: Option<AttendanceDay>, today: Date)
    requires Valid(d) && Valid(today) && d.year >= 100 && today.year >= 100
    requires NoPunches(day)
    ensures ComputeStatus(ToDateKey(d), day, today) ==
      if d == today then Incomplete
      else if DayNumber(d) < DayNumber(today) && IsWorkingDay(d) then Absent
      else Incomplete
  {
    DateKeyInjective(d, today);
    ParseDateKeyRoundTrip(d);
    ParseDateKeyRoundTrip(today);
  }

  /** A key that does not parse as a date never yields `Absent`. */
  lemma StatusOfUnparsableKey(dateKey: string, day: Option<AttendanceDay>, today: Date)
    requires Valid(today) && ParseDateKey(dateKey).None?
    ensures ComputeStatus(dateKey, day, today) != Absent
  {
  }

  /** Exactly one punch is incomplete, whatever the date. */
  lemma StatusWithOnePunch(dateKey: string, day: AttendanceDay, today: Date)
    requires Valid(today)
    requires day.inTime.Some? != day.outTime.Some?
    ensures ComputeStatus(dateKey, Some(day), today) == Incomplete
  {
  }

  /** Both punches: late exactly when check-in is after 09:10:00.000 on its own
      date; neither the key, the check-out time nor today matters. */
  lemma StatusWithBothPunches(k1: string, a: AttendanceDay, t1: Date, k2: string, b: AttendanceDay, t2: Date)
    requires Valid(t1) && Valid(t2)
    requires a.inTime.Some? && a.outTime.Some? && b.outTime.Some? && b.inTime == a.inTime
    ensures ComputeStatus(k1, Some(a), t1) == ComputeStatus(k2, Some(b), t2)
    ensures ComputeStatus(k1, Some(a), t1) == Late <==> a.inTime.value.msOfDay > LateCutoffMs
    ensures ComputeStatus(k1, Some(a), t1) == Ok <==> a.inTime.value.msOfDay <= LateCutoffMs
  {
  }

  function At(d: Date, h: int, m: int, s: int, ms: int): Instant {
    Instant(d, ((h * 60 + m) * 60 + s) * 1000 + ms)
  }

  /** 08:59 and exactly 09:10:00.000 are on time; 09:10:00.001 and 09:11 are late. */
  lemma LateCutoffBoundary(k: string, d: Date, today: Date, out: Instant)
    requires Valid(today)
    ensures ComputeStatus(k, Some(AttendanceDay(k, Some(At(d, 8, 59, 0, 0)), Some(out), Incomplete)), today) == Ok
    ensures ComputeStatus(k, Some(AttendanceDay(k, Some(At(d, 9, 10, 0, 0)), Some(out), Incomplete)), today) == Ok
    ensures ComputeStatus(k, Some(AttendanceDay(k, Some(At(d, 9, 10, 0, 1)), Some(out), Incomplete)), today) == Late
    ensures ComputeStatus(k, Some(AttendanceDay(k, Some(At(d, 9, 11, 0, 0)), Some(out), Incomplete)), today) == Late
  {
  }

  /** The stored `status` and `date` of a record are never consulted: the
      returned day depends only on the key, the punches and today. */
  lemma NormalizeIgnoresStoredStatus(k: string, a: AttendanceDay, b: AttendanceDay, today: Date)
    requires Valid(today) && a.inTime == b.inTime && a.outTime == b.outTime
    ensures NormalizeDay(k, Some(a), today) == NormalizeDay(k, Some(b), today)
  {
  }

  /** Normalising a normalised day changes nothing, and a missing record reads
      as a record with no punches. */
  lemma NormalizeIdempotent(k: string, day: Option<AttendanceDay>, today: Date)
    requires Valid(today)
    ensures NormalizeDay(k, Some(NormalizeDay(k, day, today)), today) == NormalizeDay(k, day, today)
    ensures NormalizeDay(k, None, today) == NormalizeDay(k, Some(AttendanceDay(k, None, None, Ok)), today)
  {
  }

  /** `users.filter((user) => user.active)`. */
  function ActiveUsers(users: seq<User>): (r: seq<User>)
    ensures |r| <= |users|
    ensures forall u :: u in r <==> u in users && u.active
    ensures IsSubsequence(r, users)
    ensures forall u {:trigger multiset(r)[u]} :: multiset(r)[u] == if u.active then multiset(users)[u] else 0
    decreases |users|
  {
    if |users| == 0 then []
    else
      assert users == [users[0]] + users[1..];
      if users[0].active then [users[0]] + ActiveUsers(users[1..])
      else ActiveUsers(users[1..])
  }

  /** The active count of a list is its head's contribution plus its tail's. */
  lemma ActiveUsersCons(users: seq<User>)
    requires |users| > 0
    ensures |ActiveUsers(users)| == |ActiveUsers(users[1..])| + if users[0].active then 1 else 0
  {
  }
}
