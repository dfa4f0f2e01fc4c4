/** The pure logic of the employee administration page
    `app/admin/employees/page.tsx`: the active count, the search filter, the
    save validation and the form a new employee starts from. */
module AdminEmployees {
  import opened Wrappers
  import opened Strings
  import opened Seqs
  import opened Attendance
  import opened MockStore
  import opened MockUsers

  /** `activeCount`: how many users are active. */
  function ActiveCount(users: seq<User>): (n: nat)
    ensures n == |ActiveIndices(users)|
    ensures n <= |users|
    ensures n == |users| <==> AllActive(users)
    ensures n == 0 <==> NoneActive(users)
  {
    ActiveCountBounds(users);
    ActiveCountIndices(users);
    |ActiveUsers(users)|
  }

  /** The positions of the active users. */
  function ActiveIndices(users: seq<User>): set<int> {
    set i | 0 <= i < |users| && users[i].active
  }

  /** Filtering a concatenation filters each part. */
  lemma {:induction false} ActiveUsersAppend(a: seq<User>, b: seq<User>)
    ensures ActiveUsers(a + b) == ActiveUsers(a) + ActiveUsers(b)
    decreases |a|
  {
    if |a| == 0 {
      assert a + b == b;
    } else {
      assert (a + b)[1..] == a[1..] + b;
      ActiveUsersAppend(a[1..], b);
    }
  }

  /** The active users are as many as their positions. */
  lemma {:induction false} ActiveCountIndices(users: seq<User>)
    ensures |ActiveUsers(users)| == |ActiveIndices(users)|
    decreases |users|
  {
    if |users| > 0 {
      var init, last := users[..|users| - 1], users[|users| - 1];
      assert users == init + [last];
      ActiveCountIndices(init);
      ActiveUsersSnoc(init, last);
      ActiveIndicesSnoc(init, last);
    }
  }

  lemma ActiveUsersSnoc(init: seq<User>, last: User)
    ensures |ActiveUsers(init + [last])| == |ActiveUsers(init)| + if last.active then 1 else 0
  {
    ActiveUsersAppend(init, [last]);
    assert [last][1..] == [];
  }

  lemma ActiveIndicesSnoc(init: seq<User>, last: User)
    ensures |ActiveIndices(init + [last])| == |ActiveIndices(init)| + if last.active then 1 else 0
  {
    var users := init + [last];
    var k := |init|;
    var before := ActiveIndices(init);
    assert k !in before;
    assert ActiveIndices(users) == before + (if last.active then {k} else {}) by {
      forall i | 0 <= i < k
        ensures users[i] == init[i]
      {
      }
    }
  }

  predicate AllActive(users: seq<User>) {
    forall i :: 0 <= i < |users| ==> users[i].active
  }

  predicate NoneActive(users: seq<User>) {
    forall i :: 0 <= i < |users| ==> !users[i].active
  }

  lemma {:induction false} ActiveCountBounds(users: seq<User>)
    ensures |ActiveUsers(users)| == |users| <==> AllActive(users)
    ensures |ActiveUsers(users)| == 0 <==> NoneActive(users)
    decreases |users|
  {
    if |users| > 0 {
      ActiveCountBounds(users[1..]);
      ActiveUsersCons(users);
      ActivityCons(users);
    }
  }

  lemma ActivityCons(users: seq<User>)
    requires |users| > 0
    ensures AllActive(users) <==> users[0].active && AllActive(users[1..])
    ensures NoneActive(users) <==> !users[0].active && NoneActive(users[1..])
  {
    var tail := users[1..];
    forall i | 1 <= i < |users|
      ensures users[i] == tail[i - 1]
    {
    }
  }

  /** The test `filteredUsers` applies to one user. */
  predicate UserMatches(u: User, normalized: string) {
    Contains(Lower(u.fullName), normalized) || Contains(Lower(u.email), normalized)
  }

  function UserTest(normalized: string): User -> bool {
    (u: User) => UserMatches(u, normalized)
  }

  /** `filteredUsers`: every user for a blank search, otherwise the users
      whose lower-cased name or e-mail contains the trimmed, lower-cased search. */
  function FilterUsers(users: seq<User>, search: string): (r: seq<User>)
    ensures (forall i :: 0 <= i < |search| ==> IsSpace(search[i])) ==> r == users
    ensures IsSubsequence(r, users)
    ensures forall i :: 0 <= i < |r| ==> r[i] in users && UserMatches(r[i], Lower(Trim(search)))
    ensures forall i :: 0 <= i < |users| && UserMatches(users[i], Lower(Trim(search))) ==> users[i] in r
    ensures forall u {:trigger multiset(r)[u]} :: multiset(r)[u] == if UserMatches(u, Lower(Trim(search))) then multiset(users)[u] else 0
  {
    TrimEmptyIffBlank(search);
    var normalized := Lower(Trim(search));
    if normalized == "" then
      SubsequenceReflexive(users);
      forall i | 0 <= i < |users|
        ensures UserMatches(users[i], normalized)
      {
        ContainsEmpty(Lower(users[i].fullName));
      }
      users
    else Filter(users, UserTest(normalized))
  }

  /** The error `handleSave` shows. */
  const MissingFieldsMessage := "Full name and email are required."

  /** `handleSave`: refuse a form with an empty name or e-mail, otherwise
      upsert it with the role derived from the e-mail; `resolveRole` stands
      for `resolveRoleFromEmail`. */
  function SaveForm(st: State, form: User, resolveRole: string -> Role): (r: Reply<Result<User, string>>)
    ensures form.fullName == "" || form.email == "" ==> r == Reply(Failure(MissingFieldsMessage), st)
    ensures form.fullName != "" && form.email != "" ==>
      && r.value.Success?
      && r.value.value == form.(role := resolveRole(form.email))
      && r.state.users == Stored(Upsert(GetUsers(st).value, r.value.value))
      && r.state.attendance == EnsureMockData(st).attendance
      && r.state.auth == st.auth
  {
    if form.fullName == "" || form.email == "" then Reply(Failure(MissingFieldsMessage), st)
    else
      var saved := UpsertUser(st, form.(role := resolveRole(form.email)));
      Reply(Success(saved.value), saved.state)
  }

  /** The saved user's role ignores the form's own role field. */
  lemma SaveIgnoresFormRole(st: State, form: User, role: Role, resolveRole: string -> Role)
    ensures SaveForm(st, form.(role := role), resolveRole) == SaveForm(st, form, resolveRole)
  {
  }

  /** `defaultForm` as `handleAdd` opens it: the id is `user-` and the clock in milliseconds. */
  function NewForm(nowMs: nat): (f: User)
    ensures |f.id| > 5 && f.id[..5] == "user-" && AllDigits(f.id[5..])
    ensures f.fullName == "" && f.email == "" && f.role == Employee && f.active
  {
    var f := User("user-" + NatToString(nowMs), "", "", Employee, true);
    assert f.id[5..] == NatToString(nowMs);
    f
  }

  /** Forms opened at different instants get different ids. */
  lemma NewFormIdsDiffer(t1: nat, t2: nat)
    requires t1 != t2
    ensures NewForm(t1).id != NewForm(t2).id
  {
    DigitsValueOfNatToString(t1);
    DigitsValueOfNatToString(t2);
    assert NewForm(t1).id[5..] == NatToString(t1);
    assert NewForm(t2).id[5..] == NatToString(t2);
  }

  /** Saving an untouched new form is refused and changes nothing. */
  lemma SaveNewFormRefused(st: State, nowMs: nat, resolveRole: string -> Role)
    ensures SaveForm(st, NewForm(nowMs), resolveRole) == Reply(Failure(MissingFieldsMessage), st)
  {
  }
}
