/** The pure logic of the admin overview page `app/admin/page.tsx`: the
    status summary over the day's rows, the status tabs and the row filter. */
module AdminOverview {
  import opened Wrappers
  import opened Strings
  import opened Seqs
  import opened Attendance

  /** The four status cards and the total. */
  datatype Summary = Summary(total: nat, ok: nat, late: nat, absent: nat, incomplete: nat)

  /** The number of rows with status `s`. */
  function CountStatus(rows: seq<AdminRow>, s: Status): (n: nat)
    ensures n <= |rows|
    decreases |rows|
  {
    if |rows| == 0 then 0
    else (if rows[0].status == s then 1 else 0) + CountStatus(rows[1..], s)
  }

  /** Counting a prefix one row longer adds that row's contribution. */
  lemma {:induction false} CountStatusExtend(rows: seq<AdminRow>, i: nat, s: Status)
    requires i < |rows|
    ensures CountStatus(rows[..i + 1], s) == CountStatus(rows[..i], s) + (if rows[i].status == s then 1 else 0)
    decreases i
  {
    if i > 0 {
      assert rows[..i + 1][1..] == rows[1..][..i];
      assert rows[..i][1..] == rows[1..][..i - 1];
      CountStatusExtend(rows[1..], i - 1, s);
    }
  }

  /** Every row has exactly one of the four statuses. */
  lemma {:induction false} CountsPartitionRows(rows: seq<AdminRow>)
    ensures CountStatus(rows, Ok) + CountStatus(rows, Late) + CountStatus(rows, Absent)
      + CountStatus(rows, Incomplete) == |rows|
    decreases |rows|
  {
    if |rows| > 0 {
      CountsPartitionRows(rows[1..]);
    }
  }

  /** One step of the `reduce`: count the row in the total and under its status. */
  function Tally(acc: Summary, s: Status): Summary {
    var acc1 := acc.(total := acc.total + 1);
    match s
    case Ok => acc1.(ok := acc1.ok + 1)
    case Late => acc1.(late := acc1.late + 1)
    case Absent => acc1.(absent := acc1.absent + 1)
    case Incomplete => acc1.(incomplete := acc1.incomplete + 1)
  }

  /** `summary`: the rows folded from all-zero counters. */
  method Summarize(rows: seq<AdminRow>) returns (sum: Summary)
    ensures sum.total == |rows|
    ensures sum.ok == CountStatus(rows, Ok) && sum.late == CountStatus(rows, Late)
    ensures sum.absent == CountStatus(rows, Absent) && sum.incomplete == CountStatus(rows, Incomplete)
    ensures sum.ok + sum.late + sum.absent + sum.incomplete == sum.total
  {
    sum := Summary(0, 0, 0, 0, 0);
    var i := 0;
    while i < |rows|
      invariant i <= |rows|
      invariant sum.total == i
      invariant sum.ok == CountStatus(rows[..i], Ok) && sum.late == CountStatus(rows[..i], Late)
      invariant sum.absent == CountStatus(rows[..i], Absent)
      invariant sum.incomplete == CountStatus(rows[..i], Incomplete)
    {
      CountStatusExtend(rows, i, Ok);
      CountStatusExtend(rows, i, Late);
      CountStatusExtend(rows, i, Absent);
      CountStatusExtend(rows, i, Incomplete);
      sum := Tally(sum, rows[i].status);
      i := i + 1;
    }
    assert rows[..i] == rows;
    CountsPartitionRows(rows);
  }

  /** A tab of the page: its value, its caption and the status it keeps, if any. */
  datatype StatusTab = StatusTab(value: string, caption: string, filter: Option<Status>)

  const StatusTabs: seq<StatusTab> := [
    StatusTab("all", "All", None),
    StatusTab("present", "Present", Some(Ok)),
    StatusTab("late", "Late", Some(Late)),
    StatusTab("absent", "Absent", Some(Absent)),
    StatusTab("incomplete", "Incomplete", Some(Incomplete))
  ]

  function TabHasValue(tab: string): StatusTab -> bool {
    (t: StatusTab) => t.value == tab
  }

  /** `statusTabs.find(item => item.value === tab)?.filter`: "all" and values
      that name no tab keep every status. */
  function StatusFilterFor(tab: string): (r: Option<Status>)
    ensures r == (if tab == "present" then Some(Ok)
      else if tab == "late" then Some(Late)
      else if tab == "absent" then Some(Absent)
      else if tab == "incomplete" then Some(Incomplete)
      else None)
  {
    assert StatusTabs[0].value == "all" && StatusTabs[1].value == "present";
    assert StatusTabs[2].value == "late" && StatusTabs[3].value == "absent";
    assert StatusTabs[4].value == "incomplete";
    match Find(StatusTabs, TabHasValue(tab))
    case None => None
    case Some(t) => t.filter
  }

  /** The test `filteredRows` applies to one row. */
  predicate RowMatches(row: AdminRow, normalized: string, statusFilter: Option<Status>) {
    Contains(Lower(row.fullName), normalized) && (statusFilter.None? || row.status == statusFilter.value)
  }

  function RowTest(normalized: string, statusFilter: Option<Status>): AdminRow -> bool {
    (row: AdminRow) => RowMatches(row, normalized, statusFilter)
  }

  /** `filteredRows`: the rows whose lower-cased name contains the trimmed,
      lower-cased search and whose status passes the tab's filter, in order. */
  function FilterRows(rows: seq<AdminRow>, search: string, tab: string): (r: seq<AdminRow>)
    ensures IsSubsequence(r, rows)
    ensures forall i :: 0 <= i < |r| ==> r[i] in rows && RowMatches(r[i], Lower(Trim(search)), StatusFilterFor(tab))
    ensures forall i :: 0 <= i < |rows| && RowMatches(rows[i], Lower(Trim(search)), StatusFilterFor(tab)) ==> rows[i] in r
    ensures forall row {:trigger multiset(r)[row]} :: multiset(r)[row] == if RowMatches(row, Lower(Trim(search)), StatusFilterFor(tab))
                                              then multiset(rows)[row] else 0
  {
    Filter(rows, RowTest(Lower(Trim(search)), StatusFilterFor(tab)))
  }

  /** A blank search on the "all" tab, or on any value that names no tab, shows every row. */
  lemma FilterRowsShowsAll(rows: seq<AdminRow>, search: string, tab: string)
    requires forall i :: 0 <= i < |search| ==> IsSpace(search[i])
    requires StatusFilterFor(tab).None?
    ensures FilterRows(rows, search, tab) == rows
  {
    TrimEmptyIffBlank(search);
    forall i | 0 <= i < |rows|
      ensures RowTest(Lower(Trim(search)), None)(rows[i])
    {
      ContainsEmpty(Lower(rows[i].fullName));
    }
  }

  /** With a blank search, a status tab shows as many rows as its summary card counts. */
  lemma TabShowsSummaryCount(rows: seq<AdminRow>, search: string, tab: string)
    requires forall i :: 0 <= i < |search| ==> IsSpace(search[i])
    requires StatusFilterFor(tab).Some?
    ensures |FilterRows(rows, search, tab)| == CountStatus(rows, StatusFilterFor(tab).value)
  {
    TrimEmptyIffBlank(search);
    assert Lower(Trim(search)) == "";
    TabMatchesSummary(rows, StatusFilterFor(tab).value);
  }

  lemma {:induction false} TabMatchesSummary(rows: seq<AdminRow>, s: Status)
    ensures |Filter(rows, RowTest("", Some(s)))| == CountStatus(rows, s)
    decreases |rows|
  {
    if |rows| > 0 {
      ContainsEmpty(Lower(rows[0].fullName));
      TabMatchesSummary(rows[1..], s);
    }
  }
}
