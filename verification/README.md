# Check-in attendance: a Dafny model of the mock data layer

The application is an office check-in tool. Employees scan an office QR code to
punch in and out. They see their week and month of attendance. Administrators
see a daily overview and manage employees. In its mock mode, every read and
write goes through `src/lib/api/index.ts` over three storage keys: the user
list, the attendance records and the session. The dates come from
`src/lib/date.ts`.

This project models that core as pure functions over an immutable state:

- `Calendar`: the proleptic Gregorian calendar as JavaScript's `Date` sees it
  in local time. It covers day numbers counted from 1970-01-01, weekdays, day
  stepping with month and year rollover, and the normalising constructor
  `new Date(year, monthIndex, day)`, including its 0..99 → 1900+ year rule.
- `DateKeys`: `toDateKey`, `parseDateKey`, `isWorkingDay`, `addDays`,
  `getWeekDates`, `getMonthRange` and the values of `getMonthOptions`.
- `Attendance`: users, day records, and the status derived on every read
  (`computeStatus`, `normalizeDay`). It includes the 09:10:00.000 late cutoff.
- `MockStore`: the state, written as three slots. Each slot is missing, holds
  unparsable text, or holds a value. This module also has `readJson`,
  `ensureMockData`, `getUsers`, `getUserDay`/`setUserDay` and the two-punch
  `mockScanQr`.
- `MockViews`: `mockGetWeek`, `mockGetHistory`, `mockGetAdminRows`.
- `MockUsers`: `mockUpsertUser`, `mockToggleUser`.
- `MockSession`: `getSession`/`saveSession`, `mockLogin`, `mockDemoLogin`,
  `mockLogout`.
- `AdminOverview`: the summary counts, the status tabs and the row filter of
  `app/admin/page.tsx`.
- `AdminEmployees`: the active count, the user search, the save validation
  and the new-employee form of `app/admin/employees/page.tsx`.
- Helpers: `Wrappers` (`Option`, `Result`), `Strings` (the JavaScript string
  operations the source uses, on ASCII) and `Seqs` (`find`, `findIndex`,
  `filter`).

Every operation takes the state. Those that answer the caller return a
`Reply`, which pairs the answer with the state left behind. Those that only
write return the new `State`: `EnsureMockData`, `SetUserDay`, `SaveSession`
and `Logout`. `GetSession` only reads and returns an `Option`. The following
are parameters:

- the clock: an `Instant` holds a local calendar date and milliseconds since
  local midnight. Each operation takes one such reading (`now` or `today`);
- the session token;
- the configured office code;
- `resolveRoleFromEmail`.

A thrown error is a `Failure` carrying an `Error`. Its message text is given
by `MockStore.Message`.

## Model

| member | source | states |
|---|---|---|
| `Calendar.MakeDate` | src/lib/date.ts:9 | `new Date(year, monthIndex, day)` always yields a real calendar date, whatever the overflow; its values are pinned by the lemmas below |
| `Calendar.SetDate` | src/lib/date.ts:63 | `setDate` on a copy yields a real calendar date; `Calendar.SetDateMovesDays` says which |
| `Calendar.AddDaysInverse` | src/lib/date.ts:61-65 | moving n days and then -n days returns to the same calendar date |
| `Calendar.AddDaysAdditive` | src/lib/date.ts:61-65 | moving a days then b days is moving a + b days, across month and year ends |
| `Calendar.NextPrevInverse` | src/lib/date.ts:61-65 | one day forward is the next calendar day, and the previous and next day undo each other |
| `Calendar.AddDaysNumber` | src/lib/date.ts:61-65 | moving n days changes the day count from the epoch by exactly n |
| `Calendar.WeekdayAddDays` | src/lib/date.ts:56-59 | `getDay` advances by n modulo 7 when the date moves n days |
| `Calendar.DayNumberOrderIsCalendarOrder` | src/lib/api/index.ts:138 | comparing local midnights (`date < today`) is the field-by-field calendar order |
| `Calendar.DayNumberInjective` | src/lib/api/index.ts:138 | distinct valid dates have distinct local midnights |
| `Calendar.SetDateMovesDays` | src/lib/date.ts:61-65 | `setDate(getDate() + n)` on a copy lands n calendar days away, whatever month it overflows into |
| `Calendar.MakeDateOfValid` | src/lib/date.ts:7-10 | `new Date(y, m - 1, d)` of a real calendar day (year outside 0..99) is that day |
| `Calendar.MakeDateDayZero` | src/lib/date.ts:49-54 | day 0 of the following month is the last day of the month |
| `Calendar.MakeDateTwoDigitYear` | src/lib/date.ts:9 | a year field in 0..99 is read as 1900 + year |
| `Calendar.CarryMonthsArithmetic` | src/lib/date.ts:40 | a month index outside 0..11 carries whole years: floor division by 12 and its remainder |
| `DateKeys.Pad2` | src/lib/date.ts:1 | `padStart(2, "0")` gives at least two digits, exactly two below 100; `Pad2Value` reads them back |
| `DateKeys.ToDateKey` | src/lib/date.ts:3-5 | a key ends in a dash, two characters, a dash and two characters after the year |
| `DateKeys.ParseDateKey` | src/lib/date.ts:7-10 | a date exactly when the key has three numeric dash-separated fields, and then a real calendar date |
| `DateKeys.IsWorkingDay` | src/lib/date.ts:56-59 | working exactly on weekdays 1 to 5, Monday to Friday |
| `DateKeys.DateKeyFormat` | src/lib/date.ts:1-5 | a key is the year, a dash, the 1-based month in two digits, a dash, the day in two digits |
| `DateKeys.ParseFieldsOfKey` | src/lib/date.ts:7-10 | splitting a key on dashes and reading numbers gives back year, month and day |
| `DateKeys.ParseDateKeyRoundTrip` | src/lib/date.ts:3-10 | parsing the key of a date gives back the same calendar day |
| `DateKeys.ParseDateKeyTwoDigitYear` | src/lib/date.ts:7-10 | a key whose year is in 0..99 parses as `new Date(1900 + year, month - 1, day)`; 0099-12-31 comes back as 1999-12-31 |
| `DateKeys.DateKeyInjective` | src/lib/date.ts:1-5 | two dates share a key exactly when they are the same date |
| `DateKeys.ShiftDays` | src/lib/date.ts:61-65 | `addDays` is the calendar move by n days and yields a real date |
| `DateKeys.GetWeekDates` | src/lib/date.ts:27-35 | the week has exactly seven keys |
| `DateKeys.WeekDatesConsecutive` | src/lib/date.ts:27-35 | the first key is `start`'s, key i is i days later, and each key is the next calendar day after the previous one |
| `DateKeys.ParseMonthValueRoundTrip` | src/lib/date.ts:49-50 | a `YYYY-MM` value splits and reads back as its year and month |
| `DateKeys.GetMonthRange` | src/lib/date.ts:49-54 | a month value either gives an invalid range or two real dates |
| `DateKeys.MonthRangeBounds` | src/lib/date.ts:49-54 | the range runs from day 1 to the month's last day; February ends on the 29th exactly in leap years |
| `DateKeys.GetMonthOptions` | src/lib/date.ts:37-47 | there are exactly `count` options |
| `DateKeys.MonthOption` | src/lib/date.ts:40-41 | every option is a `YYYY-MM` month value with a month in 1..12 |
| `DateKeys.MonthOptionsStepBack` | src/lib/date.ts:37-47 | option 0 is the current month and option i is i months back, the year wrapping at January |
| `DateKeys.MonthsBackCarry` | src/lib/date.ts:40 | stepping back month by month agrees with `new Date`'s carry of a negative month index |
| `Attendance.ComputeStatus` | src/lib/api/index.ts:133-149 | ABSENT only for a parsable, earlier working day without punches; LATE and OK only with both punches, split by the cutoff |
| `Attendance.StatusWithoutPunches` | src/lib/api/index.ts:136-142 | no punches: incomplete today, absent on an earlier weekday, incomplete on a weekend or in the future |
| `Attendance.StatusOfUnparsableKey` | src/lib/api/index.ts:135-141 | a key that is not a date never makes a day absent |
| `Attendance.StatusWithOnePunch` | src/lib/api/index.ts:143-144 | exactly one punch is incomplete, whatever the date |
| `Attendance.StatusWithBothPunches` | src/lib/api/index.ts:145-148 | with both punches the status depends only on the check-in: late exactly when after 09:10:00.000 on its own day |
| `Attendance.LateCutoffBoundary` | src/lib/api/index.ts:146-148 | 08:59 and 09:10:00.000 are on time; 09:10:00.001 and 09:11 are late |
| `Attendance.TodayKeyParses` | src/lib/api/index.ts:134-138 | today's key parses back to today |
| `Attendance.NormalizeDay` | src/lib/api/index.ts:151-159 | the returned day carries the key, the stored punches (missing ones as none) and the status computed from them and today |
| `Attendance.NormalizeIgnoresStoredStatus` | src/lib/api/index.ts:151-159 | the stored status is never read: records with the same punches normalise alike |
| `Attendance.NormalizeIdempotent` | src/lib/api/index.ts:151-159 | normalising twice is normalising once, and a missing record reads as one without punches |
| `Attendance.ActiveUsers` | src/lib/api/index.ts:265 | the active users are exactly the users with `active` set, in list order, each as often as in the list |
| `MockStore.ReadJson` | src/lib/api/index.ts:82-90 | the stored value when it parses, the fallback when the key is missing or corrupt |
| `MockStore.EnsureMockData` | src/lib/api/index.ts:96-108 | an empty or unreadable user list is replaced by the two demo users, the attendance map is written, the session is untouched |
| `MockStore.EnsureMockDataIdempotent` | src/lib/api/index.ts:96-108 | seeding twice is seeding once |
| `MockStore.GetUsers` | src/lib/api/index.ts:110-113 | the user list read after seeding is never empty: the stored list, or the demo users |
| `MockStore.GetAttendanceStore` | src/lib/api/index.ts:119-125 | the attendance map read after seeding is the stored one, or empty |
| `MockStore.Message` | src/lib/api/index.ts:189-237 | every thrown text is a non-empty sentence ending in a period |
| `MockStore.MessagesDistinct` | src/lib/api/index.ts:189-237 | distinct errors are thrown with distinct texts |
| `MockStore.LookupDay` | src/lib/api/index.ts:163 | a record only when the user has an entry and that entry has the date |
| `MockStore.GetUserDay` | src/lib/api/index.ts:161-165 | the day read has the asked key, the stored punches (none when nothing is stored) and the status derived from the stored record |
| `MockStore.GetUserDaySeeded` | src/lib/api/index.ts:161-165 | reading from a seeded state reads the same day |
| `MockStore.SetUserDay` | src/lib/api/index.ts:167-173 | the record is stored under its user and date, and every other record is kept |
| `MockStore.ScanQr` | src/lib/api/index.ts:220-238 | code errors change nothing; with the right code it is refused exactly when today's stored record has both punches, else it sets the check-in if none was stored and the check-out otherwise, keeping the other punch; only that record changes, the users are the seeded ones and the session is kept; a success answers the day as it then reads back |
| `MockStore.ScanSequence` | src/lib/api/index.ts:225-237 | on a fresh day: check-in (incomplete), then check-out (on time or late), then refusal with no change |
| `MockViews.MondayOffset` | src/lib/api/index.ts:242-244 | the offset is 0..6 and lands on a Monday |
| `MockViews.Monday` | src/lib/api/index.ts:244 | the week starts on a real date that is a Monday |
| `MockViews.WeekDate` | src/lib/api/index.ts:244-246 | day i of the week is a real calendar date; `MockViews.WeekDateWeekday` and `MockViews.WeekDateNext` place it in the week |
| `MockViews.GetWeek` | src/lib/api/index.ts:240-249 | seven days, day i being the day read for the key i days after Monday |
| `MockViews.WeekIsMondayToSunday` | src/lib/api/index.ts:240-249 | the week holds today, runs Monday to Sunday and its days are consecutive |
| `MockViews.WeekWorkingDays` | src/lib/date.ts:56-59 | of the seven week days exactly the first five are working days |
| `MockViews.WeekDayWorking` | src/lib/date.ts:56-59 | day i of the week is a working day exactly when i < 5 |
| `MockViews.WeekDateWeekday` | src/lib/api/index.ts:245-246 | day i of the week falls on weekday i + 1 modulo 7 |
| `MockViews.WeekContainsToday` | src/lib/api/index.ts:242-246 | today is day `mondayOffset` of its own week |
| `MockViews.WeekDateNext` | src/lib/api/index.ts:245-246 | consecutive days of the week are consecutive calendar days |
| `MockViews.GetHistory` | src/lib/api/index.ts:251-262 | a value that is not a month reads nothing and changes nothing |
| `MockViews.MonthEntries` | src/lib/api/index.ts:254-260 | one entry per day up to the day of `new Date(year, month, 0)` |
| `MockViews.HistoryCoversMonth` | src/lib/api/index.ts:251-262 | a `YYYY-MM` month has 28 to 31 entries, one per day in order, each as `getUserDay` reads it |
| `MockViews.HistoryDay` | src/lib/api/index.ts:257-259 | the entry for day `day` carries the key of `new Date(year, month - 1, day)` |
| `MockViews.HistoryDayOfDate` | src/lib/api/index.ts:257-259 | the entry for a day of the month is the record read for that date |
| `MockViews.GetAdminRows` | src/lib/api/index.ts:264-276 | one row per active user in list order, carrying that user's day as read |
| `MockViews.AdminRowsMatchUsers` | src/lib/api/index.ts:265-266 | every active user has a row and every row belongs to an active user |
| `MockViews.AdminRowsStatus` | src/lib/api/index.ts:267-273 | each row's status is the status derived from the stored record for that user and date |
| `MockUsers.Upsert` | src/lib/api/index.ts:280-285 | the user is in the list afterwards; it replaces the first user with its id in place, or is appended |
| `MockUsers.UpsertIdempotent` | src/lib/api/index.ts:280-285 | upserting the same user twice is upserting it once |
| `MockUsers.UpsertUser` | src/lib/api/index.ts:278-288 | the call answers with its argument, saves the edited list and keeps attendance and session |
| `MockUsers.UpsertUserThenList` | src/lib/api/index.ts:278-288 | the listed users then hold the upserted user, and repeating the call changes nothing |
| `MockUsers.ToggleList` | src/lib/api/index.ts:292-294 | only `active` changes, and it flips exactly on users with the id |
| `MockUsers.ToggleListInvolution` | src/lib/api/index.ts:292-294 | toggling twice restores the list |
| `MockUsers.ToggleListUnknownId` | src/lib/api/index.ts:292-294 | an id nobody carries leaves the list as it was |
| `MockUsers.ToggleShiftsActiveCount` | src/lib/api/index.ts:292-294 | with one user carrying the id, the number of active users moves by one |
| `MockUsers.ToggleUser` | src/lib/api/index.ts:290-297 | saves the toggled list; answers none exactly for an unknown id, else the first such user toggled |
| `MockUsers.ToggleUserUnknownId` | src/lib/api/index.ts:290-297 | an unknown id answers none and leaves the seeded state |
| `MockUsers.ToggleUserTwice` | src/lib/api/index.ts:290-297 | toggling the same id twice restores the seeded state |
| `MockSession.GetSession` | src/lib/api/index.ts:175-177 | the stored session, none when the key is missing or corrupt |
| `MockSession.SaveSession` | src/lib/api/index.ts:179-185 | writes or removes only the session key |
| `MockSession.SessionRoundTrip` | src/lib/api/index.ts:175-185 | the session saved is the session read back |
| `MockSession.SignIn` | src/lib/api/index.ts:194-202 | fails exactly when no user passes the test; otherwise stores a session for the first user that does |
| `MockSession.Login` | src/lib/api/index.ts:189-203 | an empty e-mail or password is refused; invalid credentials exactly when no active user has the e-mail ignoring case; a success exactly when both are given and such a user exists, and then the first such user is signed in and only the session is written after seeding |
| `MockSession.LoginIgnoresPassword` | src/lib/api/index.ts:191-196 | any two non-empty passwords give the same outcome |
| `MockSession.LoginIgnoresCase` | src/lib/api/index.ts:194-196 | e-mails that differ only in letter case give the same outcome |
| `MockSession.LoginUpperCaseOnEmptyStore` | src/lib/api/index.ts:189-203 | on an empty store `ADMIN@DEMO.LOCAL` signs in the seeded admin |
| `MockSession.DemoLogin` | src/lib/api/index.ts:205-214 | fails exactly when no active user has the role; otherwise the first such user is signed in and only the session is written after seeding |
| `MockSession.DemoLoginOnEmptyStore` | src/lib/api/index.ts:205-214 | on an empty store the employee and admin demo logins find the two seeded users |
| `MockSession.Logout` | src/lib/api/index.ts:216-218 | no session afterwards, users and attendance unchanged |
| `MockSession.LoginThenLogout` | src/lib/api/index.ts:189-218 | after a login and a logout there is no session and the login's seeding stays |
| `AdminOverview.CountStatus` | app/admin/page.tsx:49-58 | a status count never exceeds the number of rows |
| `AdminOverview.CountsPartitionRows` | app/admin/page.tsx:49-58 | the four status counts add up to the number of rows |
| `AdminOverview.Summarize` | app/admin/page.tsx:49-58 | total is the number of rows, each card counts the rows with its status, and the cards sum to the total |
| `AdminOverview.StatusFilterFor` | app/admin/page.tsx:25-31 | present, late, absent and incomplete select their status; "all" and unknown values select none |
| `AdminOverview.FilterRows` | app/admin/page.tsx:62-70 | an order-preserving subsequence holding exactly the rows whose name contains the search and whose status passes the tab, each as often as in the input |
| `AdminOverview.FilterRowsShowsAll` | app/admin/page.tsx:62-70 | a blank search with no status filter shows every row |
| `AdminOverview.TabShowsSummaryCount` | app/admin/page.tsx:49-70 | with a blank search a status tab shows as many rows as its summary card counts |
| `AdminEmployees.ActiveCount` | app/admin/employees/page.tsx:90-93 | the number of positions holding an active user; equal to the list length exactly when all are active, zero exactly when none is |
| `AdminEmployees.FilterUsers` | app/admin/employees/page.tsx:95-103 | a blank search keeps the list; otherwise exactly the users whose name or e-mail contains the search, in order, each as often as in the list |
| `AdminEmployees.SaveForm` | app/admin/employees/page.tsx:72-83 | an empty name or e-mail is refused with no change; otherwise the user is upserted with the role derived from the e-mail, and attendance and the session are left as seeding leaves them |
| `AdminEmployees.SaveIgnoresFormRole` | app/admin/employees/page.tsx:77-80 | the form's own role field never reaches the saved user |
| `AdminEmployees.NewForm` | app/admin/employees/page.tsx:65-70 | a new form has an id of `user-` and digits, empty name and e-mail, role employee, active |
| `AdminEmployees.NewFormIdsDiffer` | app/admin/employees/page.tsx:66 | forms opened at different instants get different ids |
| `AdminEmployees.SaveNewFormRefused` | app/admin/employees/page.tsx:30-36 | saving an untouched new form is refused and changes nothing |

## Left out

- The remote API path (`realFetch` and the `config.useMockApi` dispatch of `api`, src/lib/api/index.ts:301-376) is network I/O and is not modelled.
- `mockListUsers` (src/lib/api/index.ts:299) is `getUsers` and is modelled by `MockStore.GetUsers`.
- The storage wrapper (`window.localStorage` or the in-memory record) and JSON text are not modelled. Each key is a slot that is missing, corrupt or holds a value of the right type.
- A stored value that parses but has the wrong shape is not modelled. The literal `null` under the users key is one example; the source would then fail on `.length`.
- `createToken` uses `Math.random`, so the token is a parameter.
- The real clock is not modelled: `new Date()` is a parameter. Time zones, daylight-saving shifts and the UTC ISO strings the source stores are left out. A punch is a local date and milliseconds since local midnight.
- The source reads the clock afresh wherever it calls `new Date()`. `mockScanQr` reads it for the key, inside `getUserDay`, for the punch and inside `normalizeDay`. The views read it once per day they normalise. Each modelled operation takes a single reading instead, so an operation that straddles midnight is not modelled.
- Locale formatting (`formatTime`, `formatDate`, the month labels of `getMonthOptions`) is presentation and is not modelled.
- The configured office code and `resolveRoleFromEmail` are parameters. The latter's body is not part of this model.
- `Number(...)` is modelled only for what keys and month values contain. A run of decimal digits (empty gives 0) is a number; anything else is NaN. Signs, whitespace, exponents and fractions are left out.
- `toLowerCase` is modelled on ASCII letters only.
- JavaScript's date range limit (±8.64e15 ms) is not modelled: years are unbounded.
- React rendering, routing, providers, the camera scanner and concurrent writers from several tabs are not modelled.
- `DateKeys.ParseDateKeyRoundTrip`: requires a year of at least 100, because `new Date` reads a year in 0..99 as 1900 + year (stated by `DateKeys.ParseDateKeyTwoDigitYear`). Keys of negative years are built and parsed as JavaScript does them, where the empty field before the leading `-` reads as 0. They do not round-trip, and no lemma states what they parse to.
- `DateKeys.MonthOptionsStepBack`: requires a current year outside 0..99, for the same reason.
- `MockViews.HistoryCoversMonth`: requires a year of at least 100, for the same reason.
- `Attendance.ComputeStatus`: the "earlier than today" part of the ABSENT case is stated only when today's year is at least 100, for the same reason.
- `MockUsers.ToggleShiftsActiveCount`: requires the id to be carried by exactly one user. The source does not enforce unique ids; with duplicates the count moves by the balance of the flipped users.
- `getMonthOptions` defaults its count to 6 (`DateKeys.DefaultMonthOptionCount`). The model always takes the count as an argument, because the optional argument itself is not modelled.
