/** The mock persistence layer of `src/lib/api/index.ts`: three storage
    slots read with a fallback, the demo seed written on first use, per-user
    per-day records, and the two-punch QR scan. */
module MockStore {
  import opened Wrappers
  import opened Calendar
  import opened DateKeys
  import opened Attendance

  /** What a storage key holds: nothing, text that does not parse, or a value. */
  datatype Slot<T> = Missing | Corrupt | Stored(value: T)

  /** `readJson`: the stored value, or the fallback when the key is missing or corrupt. */
  function ReadJson<T>(slot: Slot<T>, fallback: T): (r: T)
    ensures slot.Stored? ==> r == slot.value
    ensures !slot.Stored? ==> r == fallback
  {
    match slot
    case Stored(v) => v
    case _ => fallback
  }

  type DayMap = map<string, AttendanceDay>

  /** userId -> dateKey -> stored day record. */
  type AttendanceStore = map<string, DayMap>

  datatype Session = Session(token: string, user: User)

  /** The persisted state: the users, attendance and auth keys. */
  datatype State = State(users: Slot<seq<User>>, attendance: Slot<AttendanceStore>, auth: Slot<Session>)

  /** An operation's answer together with the state it leaves behind. */
  datatype Reply<T> = Reply(value: T, state: State)

  datatype Error =
    | MissingCredentials
    | InvalidCredentials
    | DemoUnavailable
    | MissingCode
    | InvalidCode
    | AlreadyCompleted

  /** The text each error is thrown with. */
  function Message(e: Error): (m: string)
    ensures |m| > 0 && m[|m| - 1] == '.'
  {
    match e
    case MissingCredentials => "Email and password are required."
    case InvalidCredentials => "Invalid credentials."
    case DemoUnavailable => "Demo user unavailable."
    case MissingCode => "QR code is required."
    case InvalidCode => "Invalid QR code."
    case AlreadyCompleted => "Already completed for today."
  }

  /** Each error has its own text. */
  lemma MessagesDistinct(e1: Error, e2: Error)
    ensures Message(e1) == Message(e2) <==> e1 == e2
  {
  }

  const DemoUsers: seq<User> := [
    User("user-employee", "Demo Employee", "employee@demo.local", Employee, true),
    User("user-admin", "Demo Admin", "admin@demo.local", Admin, true)
  ]

  /** The attendance map as read back with an empty fallback. */
  function AttendanceOf(st: State): AttendanceStore {
    ReadJson(st.attendance, map[])
  }

  /** `ensureMockData`: seed the demo users when the user list reads as empty,
      and write an empty attendance map when it reads as empty. */
  function EnsureMockData(st: State): (r: State)
    ensures r.users.Stored? && |r.users.value| > 0
    ensures |ReadJson(st.users, [])| > 0 ==> r.users == st.users
    ensures |ReadJson(st.users, [])| == 0 ==> r.users == Stored(DemoUsers)
    ensures r.attendance == Stored(AttendanceOf(st))
    ensures r.auth == st.auth
  {
    var st1 := if |ReadJson(st.users, [])| == 0 then st.(users := Stored(DemoUsers)) else st;
    if |ReadJson(st1.attendance, map[])| == 0 then st1.(attendance := Stored(map[])) else st1
  }

  /** Seeding twice is seeding once. */
  lemma EnsureMockDataIdempotent(st: State)
    ensures EnsureMockData(EnsureMockData(st)) == EnsureMockData(st)
  {
  }

  /** `getUsers`: the stored users after seeding (never empty). */
  function GetUsers(st: State): (r: Reply<seq<User>>)
    ensures r.state == EnsureMockData(st)
    ensures |r.value| > 0
    ensures |ReadJson(st.users, [])| > 0 ==> r.value == st.users.value
    ensures |ReadJson(st.users, [])| == 0 ==> r.value == DemoUsers
  {
    var st1 := EnsureMockData(st);
    Reply(ReadJson(st1.users, DemoUsers), st1)
  }

  /** `getAttendanceStore`: the stored attendance map after seeding. */
  function GetAttendanceStore(st: State): (r: Reply<AttendanceStore>)
    ensures r.state == EnsureMockData(st)
    ensures r.value == AttendanceOf(st)
  {
    var st1 := EnsureMockData(st);
    Reply(ReadJson(st1.attendance, map[]), st1)
  }

  /** `store[userId]?.[dateKey]`. */
  function LookupDay(store: AttendanceStore, userId: string, dateKey: string): (r: Option<AttendanceDay>)
    ensures r.Some? <==> userId in store && dateKey in store[userId]
    ensures r.Some? ==> r.value == store[userId][dateKey]
  {
    if userId in store && dateKey in store[userId] then Some(store[userId][dateKey]) else None
  }

  /** `getUserDay`: the stored record for the key, or none, normalised. */
  function GetUserDay(st: State, userId: string, dateKey: string, today: Date): (r: Reply<AttendanceDay>)
    requires Valid(today)
    ensures r.state == EnsureMockData(st)
    ensures r.value.date == dateKey
    ensures var stored := LookupDay(AttendanceOf(st), userId, dateKey);
      && r.value.inTime == (if stored.Some? then stored.value.inTime else None)
      && r.value.outTime == (if stored.Some? then stored.value.outTime else None)
      && r.value.status == ComputeStatus(dateKey, stored, today)
  {
    var a := GetAttendanceStore(st);
    Reply(NormalizeDay(dateKey, LookupDay(a.value, userId, dateKey), today), a.state)
  }

  /** Reading after seeding reads the same record and seeds nothing more. */
  lemma GetUserDaySeeded(st: State, userId: string, dateKey: string, today: Date)
    requires Valid(today)
    ensures GetUserDay(EnsureMockData(st), userId, dateKey, today) == GetUserDay(st, userId, dateKey, today)
  {
    EnsureMockDataIdempotent(st);
  }

  /** `setUserDay`: store `day` under `(userId, day.date)`, keeping every other record. */
  function SetUserDay(st: State, userId: string, day: AttendanceDay): (r: State)
    ensures r.users == EnsureMockData(st).users && r.auth == st.auth
    ensures r.attendance.Stored?
    ensures LookupDay(AttendanceOf(r), userId, day.date) == Some(day)
    ensures forall u, k :: (u, k) != (userId, day.date) ==>
      LookupDay(AttendanceOf(r), u, k) == LookupDay(AttendanceOf(st), u, k)
  {
    var a := GetAttendanceStore(st);
    var userDays := if userId in a.value then a.value[userId] else map[];
    a.state.(attendance := Stored(a.value[userId := userDays[day.date := day]]))
  }

  /** The punch a successful scan adds to the day `before` held: the check-in
      when there was none (keeping any check-out), otherwise the check-out,
      keeping the check-in. */
  predicate ScanStep(before: Option<AttendanceDay>, now: Instant, after: AttendanceDay) {
    var inTime := if before.Some? then before.value.inTime else None;
    var outTime := if before.Some? then before.value.outTime else None;
    if inTime.None? then after.inTime == Some(now) && after.outTime == outTime
    else after.inTime == inTime && after.outTime == Some(now)
  }

  /** `mockScanQr` at local time `now` against the configured office code:
      first scan of the day sets the check-in, the second the check-out, a
      third is refused. */
  function ScanQr(st: State, userId: string, code: string, now: Instant, officeCode: string)
    : (r: Reply<Result<AttendanceDay, Error>>)
    requires Valid(now.date)
    ensures code == "" ==> r == Reply(Failure(MissingCode), st)
    ensures code != "" && code != officeCode ==> r == Reply(Failure(InvalidCode), st)
    ensures r.value == Failure(AlreadyCompleted) ==> r.state == EnsureMockData(st)
    ensures r.value.Failure? ==> AttendanceOf(r.state) == AttendanceOf(st)
    ensures r.state.auth == st.auth
    ensures r.state.users == if code == "" || code != officeCode then st.users else EnsureMockData(st).users
    ensures forall u, k :: (u, k) != (userId, ToDateKey(now.date)) ==>
      LookupDay(AttendanceOf(r.state), u, k) == LookupDay(AttendanceOf(st), u, k)
    ensures r.value.Success? ==>
      && r.value.value.date == ToDateKey(now.date)
      && LookupDay(AttendanceOf(r.state), userId, ToDateKey(now.date)).Some?
      && var stored := LookupDay(AttendanceOf(r.state), userId, ToDateKey(now.date)).value;
         stored.inTime == r.value.value.inTime && stored.outTime == r.value.value.outTime
    ensures r.value.Success? ==> r.value.value == GetUserDay(r.state, userId, ToDateKey(now.date), now.date).value
    ensures code != "" && code == officeCode ==>
      var before := LookupDay(AttendanceOf(st), userId, ToDateKey(now.date));
      && (r.value == Failure(AlreadyCompleted) <==> BothPunches(before))
      && (r.value.Success? <==> !BothPunches(before))
      && (r.value.Success? ==> ScanStep(before, now, r.value.value))
  {
    if code == "" then Reply(Failure(MissingCode), st)
    else if code != officeCode then Reply(Failure(InvalidCode), st)
    else
      var dateKey := ToDateKey(now.date);
      var current := GetUserDay(st, userId, dateKey, now.date);
      if current.value.inTime.None? then
        var updated := current.value.(inTime := Some(now));
        Reply(Success(NormalizeDay(dateKey, Some(updated), now.date)), SetUserDay(current.state, userId, updated))
      else if current.value.outTime.None? then
        var updated := current.value.(outTime := Some(now));
        Reply(Success(NormalizeDay(dateKey, Some(updated), now.date)), SetUserDay(current.state, userId, updated))
      else
        Reply(Failure(AlreadyCompleted), current.state)
  }

  /** A fresh day: the first scan checks in (incomplete), the second checks out
      keeping the check-in (on time or late by the cutoff), the third is refused
      and changes nothing. */
  lemma ScanSequence(st: State, userId: string, office: string, t1: Instant, t2: Instant, t3: Instant)
    requires office != "" && Valid(t1.date) && t2.date == t1.date && t3.date == t1.date
    requires NoPunches(LookupDay(AttendanceOf(st), userId, ToDateKey(t1.date)))
    ensures var key := ToDateKey(t1.date);
      var r1 := ScanQr(st, userId, office, t1, office);
      var r2 := ScanQr(r1.state, userId, office, t2, office);
      var r3 := ScanQr(r2.state, userId, office, t3, office);
      && r1.value == Success(AttendanceDay(key, Some(t1), None, Incomplete))
      && r2.value == Success(AttendanceDay(key, Some(t1), Some(t2), if t1.msOfDay > LateCutoffMs then Late else Ok))
      && r3.value == Failure(AlreadyCompleted)
      && r3.state == r2.state
  {
    var key := ToDateKey(t1.date);
    var r1 := ScanQr(st, userId, office, t1, office);
    var d1 := LookupDay(AttendanceOf(r1.state), userId, key).value;
    assert d1.inTime == Some(t1) && d1.outTime == None;
    var r2 := ScanQr(r1.state, userId, office, t2, office);
    var d2 := LookupDay(AttendanceOf(r2.state), userId, key).value;
    assert d2.inTime == Some(t1) && d2.outTime == Some(t2);
    assert r2.state.users.Stored? && |r2.state.users.value| > 0;
    assert EnsureMockData(r2.state) == r2.state;
  }
}
