/** The user-administration calls of the mock layer in `src/lib/api/index.ts`:
    `mockUpsertUser` and `mockToggleUser` over the stored user list. */
module MockUsers {
  import opened Wrappers
  import opened Seqs
  import opened Attendance
  import opened MockStore

  /** The `item.id === id` test the list searches use. */
  function HasId(id: string): User -> bool {
    (u: User) => u.id == id
  }

  /** Some user in the list carries `id`. */
  predicate HasUserId(users: seq<User>, id: string) {
    exists j :: 0 <= j < |users| && users[j].id == id
  }

  /** `i` is the first position of a user carrying `id`. */
  predicate FirstWithId(users: seq<User>, id: string, i: int) {
    0 <= i < |users| && users[i].id == id && forall j :: 0 <= j < i ==> users[j].id != id
  }

  /** The list edit of `mockUpsertUser`: replace the first user with the same
      id in place, or append when there is none. */
  function Upsert(users: seq<User>, user: User): (r: seq<User>)
    ensures user in r
    ensures |r| == if HasUserId(users, user.id) then |users| else |users| + 1
    ensures !HasUserId(users, user.id) ==> r == users + [user]
    ensures forall i :: FirstWithId(users, user.id, i) ==>
      |r| == |users| && r[i] == user && forall j :: 0 <= j < |users| && j != i ==> r[j] == users[j]
  {
    match FindFirst(users, HasId(user.id))
    case Some(i) =>
      assert FirstWithId(users, user.id, i);
      var r := users[i := user];
      assert r[i] == user;
      r
    case None => users + [user]
  }

  /** The first user with a given id is unique. */
  lemma FirstWithIdUnique(users: seq<User>, id: string, i: int, k: int)
    requires FirstWithId(users, id, i) && FirstWithId(users, id, k)
    ensures i == k
  {
  }

  /** Upserting the same user twice is upserting it once. */
  lemma UpsertIdempotent(users: seq<User>, user: User)
    ensures Upsert(Upsert(users, user), user) == Upsert(users, user)
  {
    var once := Upsert(users, user);
    if HasUserId(users, user.id) {
      var i :| FirstWithId(users, user.id, i) by {
        var k :| 0 <= k < |users| && users[k].id == user.id;
        var f := FindFirst(users, HasId(user.id));
        assert f.Some?;
        assert FirstWithId(users, user.id, f.value);
      }
      assert FirstWithId(once, user.id, i) by {
        forall j | 0 <= j < i
          ensures once[j].id != user.id
        {
          assert once[j] == users[j];
        }
      }
      assert HasUserId(once, user.id);
      assert Upsert(once, user) == once[i := user];
      assert once[i := user] == once;
    } else {
      assert once == users + [user];
      assert FirstWithId(once, user.id, |users|);
      assert HasUserId(once, user.id);
      assert Upsert(once, user) == once[|users| := user];
      assert once[|users| := user] == once;
    }
  }

  /** `mockUpsertUser`: the list after seeding, edited and saved; the call
      answers with its argument. */
  function UpsertUser(st: State, user: User): (r: Reply<User>)
    ensures r.value == user
    ensures r.state.users == Stored(Upsert(GetUsers(st).value, user))
    ensures r.state.attendance == EnsureMockData(st).attendance && r.state.auth == st.auth
  {
    var users := GetUsers(st);
    Reply(user, users.state.(users := Stored(Upsert(users.value, user))))
  }

  /** After an upsert the list read back holds the user, and a second upsert
      of the same user changes nothing. */
  lemma UpsertUserThenList(st: State, user: User)
    ensures user in GetUsers(UpsertUser(st, user).state).value
    ensures UpsertUser(UpsertUser(st, user).state, user).state == UpsertUser(st, user).state
  {
    var st1 := UpsertUser(st, user).state;
    assert GetUsers(st1).value == Upsert(GetUsers(st).value, user);
    UpsertIdempotent(GetUsers(st).value, user);
    EnsureMockDataIdempotent(st);
  }

  /** One element of the `map` in `mockToggleUser`. */
  function ToggleOne(u: User, id: string): User {
    if u.id == id then u.(active := !u.active) else u
  }

  /** The list edit of `mockToggleUser`: flip `active` on every user with `id`. */
  function ToggleList(users: seq<User>, id: string): (r: seq<User>)
    ensures |r| == |users|
    ensures forall i :: 0 <= i < |users| ==>
      && r[i].(active := users[i].active) == users[i]
      && (r[i].active != users[i].active <==> users[i].id == id)
    decreases |users|
  {
    if |users| == 0 then []
    else [ToggleOne(users[0], id)] + ToggleList(users[1..], id)
  }

  /** Toggling twice restores the list. */
  lemma ToggleListInvolution(users: seq<User>, id: string)
    ensures ToggleList(ToggleList(users, id), id) == users
  {
  }

  /** An id nobody carries leaves the list as it was. */
  lemma ToggleListUnknownId(users: seq<User>, id: string)
    requires !HasUserId(users, id)
    ensures ToggleList(users, id) == users
  {
  }

  /** With exactly one user carrying `id`, a toggle moves the active count by one. */
  lemma {:induction false} ToggleShiftsActiveCount(users: seq<User>, id: string, k: nat)
    requires k < |users| && users[k].id == id
    requires forall j :: 0 <= j < |users| && j != k ==> users[j].id != id
    ensures |ActiveUsers(ToggleList(users, id))| == |ActiveUsers(users)| + (if users[k].active then -1 else 1)
    decreases |users|
  {
    ToggledCountCons(users, id);
    ActiveUsersCons(users);
    var tail := users[1..];
    if k == 0 {
      assert !HasUserId(tail, id) by {
        forall j | 0 <= j < |tail|
          ensures tail[j].id != id
        {
          assert tail[j] == users[j + 1];
        }
      }
      ToggleListUnknownId(tail, id);
    } else {
      forall j | 0 <= j < |tail| && j != k - 1
        ensures tail[j].id != id
      {
        assert tail[j] == users[j + 1];
      }
      ToggleShiftsActiveCount(tail, id, k - 1);
    }
  }

  /** The active count of a toggled list: the toggled head's contribution plus the toggled tail's. */
  lemma ToggledCountCons(users: seq<User>, id: string)
    requires |users| > 0
    ensures |ActiveUsers(ToggleList(users, id))|
      == |ActiveUsers(ToggleList(users[1..], id))| + if ToggleOne(users[0], id).active then 1 else 0
  {
    var t := ToggleList(users, id);
    assert t[1..] == ToggleList(users[1..], id);
    assert t[0] == ToggleOne(users[0], id);
    ActiveUsersCons(t);
  }

  /** `mockToggleUser`: save the toggled list and answer with the first user
      carrying `id` after the toggle, or none. */
  function ToggleUser(st: State, id: string): (r: Reply<Option<User>>)
    ensures r.state.users == Stored(ToggleList(GetUsers(st).value, id))
    ensures r.state.attendance == EnsureMockData(st).attendance && r.state.auth == st.auth
    ensures r.value.None? <==> !HasUserId(GetUsers(st).value, id)
    ensures r.value.Some? ==> forall i :: FirstWithId(GetUsers(st).value, id, i) ==>
      r.value.value == GetUsers(st).value[i].(active := !GetUsers(st).value[i].active)
  {
    var users := GetUsers(st);
    var updated := ToggleList(users.value, id);
    var found := Find(updated, HasId(id));
    assert found.Some? ==> forall i :: FirstWithId(users.value, id, i) ==> found.value == updated[i] by {
      if found.Some? {
        var f := FindFirst(updated, HasId(id)).value;
        forall i | FirstWithId(users.value, id, i)
          ensures found.value == updated[i]
        {
          assert FirstWithId(users.value, id, f);
          FirstWithIdUnique(users.value, id, i, f);
        }
      }
    }
    assert HasUserId(users.value, id) ==> found.Some? by {
      if HasUserId(users.value, id) {
        var k :| 0 <= k < |users.value| && users.value[k].id == id;
        assert HasId(id)(updated[k]);
      }
    }
    Reply(found, users.state.(users := Stored(updated)))
  }

  /** Toggling an unknown id answers none and leaves the seeded state unchanged. */
  lemma ToggleUserUnknownId(st: State, id: string)
    requires !HasUserId(GetUsers(st).value, id)
    ensures ToggleUser(st, id) == Reply(None, EnsureMockData(st))
  {
    ToggleListUnknownId(GetUsers(st).value, id);
  }

  /** Toggling the same id twice restores the seeded state. */
  lemma ToggleUserTwice(st: State, id: string)
    ensures ToggleUser(ToggleUser(st, id).state, id).state == EnsureMockData(st)
  {
    var st1 := ToggleUser(st, id).state;
    assert GetUsers(st1).value == ToggleList(GetUsers(st).value, id);
    ToggleListInvolution(GetUsers(st).value, id);
    EnsureMockDataIdempotent(st);
  }
}
