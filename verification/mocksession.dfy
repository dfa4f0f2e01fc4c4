/** The session calls of the mock layer in `src/lib/api/index.ts`: the stored
    session, e-mail login (the password is never compared), demo login by
    role, and logout. */
module MockSession {
  import opened Wrappers
  import opened Strings
  import opened Seqs
  import opened Attendance
  import opened MockStore

  /** `getSession`: the stored session, or none when the key is missing or corrupt. */
  function GetSession(st: State): (r: Option<Session>)
    ensures r.Some? <==> st.auth.Stored?
    ensures r.Some? ==> r.value == st.auth.value
  {
    match st.auth
    case Stored(s) => Some(s)
    case _ => None
  }

  /** `saveSession`: write the session, or remove the key for none. */
  function SaveSession(st: State, session: Option<Session>): (r: State)
    ensures r.users == st.users && r.attendance == st.attendance
    ensures session.None? ==> r.auth.Missing?
  {
    match session
    case None => st.(auth := Missing)
    case Some(s) => st.(auth := Stored(s))
  }

  /** What is saved is what is read back. */
  lemma SessionRoundTrip(st: State, session: Option<Session>)
    ensures GetSession(SaveSession(st, session)) == session
  {
  }

  /** The user test of `mockLogin`: active, with the e-mail equal ignoring case. */
  function LoginMatch(email: string): User -> bool {
    (u: User) => u.active && Lower(u.email) == Lower(email)
  }

  /** The user test of `mockDemoLogin`: active, with the role asked for. */
  function RoleMatch(role: Role): User -> bool {
    (u: User) => u.active && u.role == role
  }

  /** `u` is the first user of the list that passes `p`. */
  predicate IsFirstMatch(users: seq<User>, p: User -> bool, u: User) {
    exists i :: 0 <= i < |users| && users[i] == u && p(u) && forall j :: 0 <= j < i ==> !p(users[j])
  }

  lemma FindIsFirstMatch(users: seq<User>, p: User -> bool)
    requires Find(users, p).Some?
    ensures IsFirstMatch(users, p, Find(users, p).value)
  {
    var i := FindFirst(users, p).value;
    assert users[i] == Find(users, p).value;
  }

  /** Sign in as the first user passing `p`, or fail with `notFound`. */
  function SignIn(st: State, p: User -> bool, token: string, notFound: Error): (r: Reply<Result<Session, Error>>)
    ensures r.value.Failure? ==> r == Reply(Failure(notFound), EnsureMockData(st))
    ensures r.value.Failure? <==> forall u :: u in GetUsers(st).value ==> !p(u)
    ensures r.value.Success? ==>
      && r.value.value.token == token
      && IsFirstMatch(GetUsers(st).value, p, r.value.value.user)
      && r.state == SaveSession(EnsureMockData(st), Some(r.value.value))
  {
    var users := GetUsers(st);
    match Find(users.value, p)
    case None => Reply(Failure(notFound), users.state)
    case Some(u) =>
      FindIsFirstMatch(users.value, p);
      var session := Session(token, u);
      Reply(Success(session), SaveSession(users.state, Some(session)))
  }

  /** `mockLogin`: seed, reject an empty e-mail or password, then sign in as
      the first active user whose e-mail matches ignoring case; `token`
      stands for the random token. */
  function Login(st: State, email: string, password: string, token: string): (r: Reply<Result<Session, Error>>)
    ensures email == "" || password == "" ==> r == Reply(Failure(MissingCredentials), EnsureMockData(st))
    ensures r.value.Failure? ==> r.state == EnsureMockData(st)
    ensures r.value == Failure(InvalidCredentials) <==>
      && email != "" && password != ""
      && forall u :: u in GetUsers(st).value ==> !(u.active && Lower(u.email) == Lower(email))
    ensures r.value.Success? ==>
      && var s := r.value.value;
      && s.token == token && s.user.active && Lower(s.user.email) == Lower(email)
      && IsFirstMatch(GetUsers(st).value, LoginMatch(email), s.user)
      && GetSession(r.state) == Some(s)
    ensures r.value.Success? <==>
      email != "" && password != "" && exists u :: u in GetUsers(st).value && LoginMatch(email)(u)
    ensures r.value.Success? ==> r.state == SaveSession(EnsureMockData(st), Some(r.value.value))
  {
    var st1 := EnsureMockData(st);
    EnsureMockDataIdempotent(st);
    if email == "" || password == "" then Reply(Failure(MissingCredentials), st1)
    else
      var r := SignIn(st1, LoginMatch(email), token, InvalidCredentials);
      assert r.value.Success? ==> LoginMatch(email)(r.value.value.user);
      r
  }

  /** The password plays no part beyond being non-empty. */
  lemma LoginIgnoresPassword(st: State, email: string, p1: string, p2: string, token: string)
    requires p1 != "" && p2 != ""
    ensures Login(st, email, p1, token) == Login(st, email, p2, token)
  {
  }

  /** E-mails that differ only in letter case sign in the same user. */
  lemma LoginIgnoresCase(st: State, e1: string, e2: string, password: string, token: string)
    requires e1 != "" && e2 != "" && Lower(e1) == Lower(e2)
    ensures Login(st, e1, password, token) == Login(st, e2, password, token)
  {
    assert LoginMatch(e1) == LoginMatch(e2);
  }

  /** On an empty store an upper-case e-mail signs in the seeded admin. */
  lemma LoginUpperCaseOnEmptyStore(token: string)
    ensures var empty := State(Missing, Missing, Missing);
      Login(empty, "ADMIN@DEMO.LOCAL", "any", token).value == Success(Session(token, DemoUsers[1]))
  {
    var empty := State(Missing, Missing, Missing);
    assert GetUsers(EnsureMockData(empty)).value == DemoUsers;
    var admin := "admin@demo.local";
    LowerAdminEmail();
    assert Lower(DemoUsers[1].email) == admin;
    assert Lower(DemoUsers[0].email)[0] != admin[0];
    assert !LoginMatch("ADMIN@DEMO.LOCAL")(DemoUsers[0]) && LoginMatch("ADMIN@DEMO.LOCAL")(DemoUsers[1]);
    assert Find(DemoUsers, LoginMatch("ADMIN@DEMO.LOCAL")) == Some(DemoUsers[1]);
  }

  /** Lower-casing the upper-case demo admin e-mail gives the stored one. */
  lemma LowerAdminEmail()
    ensures Lower("ADMIN@DEMO.LOCAL") == "admin@demo.local"
  {
    var admin := "admin@demo.local";
    forall i | 0 <= i < |admin|
      ensures Lower("ADMIN@DEMO.LOCAL")[i] == admin[i]
    {
    }
  }

  /** `mockDemoLogin`: seed, then sign in as the first active user with the role. */
  function DemoLogin(st: State, role: Role, token: string): (r: Reply<Result<Session, Error>>)
    ensures r.value.Failure? ==> r == Reply(Failure(DemoUnavailable), EnsureMockData(st))
    ensures r.value.Failure? <==> forall u :: u in GetUsers(st).value ==> !(u.active && u.role == role)
    ensures r.value.Success? ==>
      && var s := r.value.value;
      && s.token == token && s.user.active && s.user.role == role
      && IsFirstMatch(GetUsers(st).value, RoleMatch(role), s.user)
      && GetSession(r.state) == Some(s)
    ensures r.value.Success? ==> r.state == SaveSession(EnsureMockData(st), Some(r.value.value))
  {
    var st1 := EnsureMockData(st);
    EnsureMockDataIdempotent(st);
    var r := SignIn(st1, RoleMatch(role), token, DemoUnavailable);
    assert r.value.Success? ==> RoleMatch(role)(r.value.value.user);
    r
  }

  /** On an empty store the demo logins find the two seeded users. */
  lemma DemoLoginOnEmptyStore(token: string)
    ensures var empty := State(Missing, Missing, Missing);
      && DemoLogin(empty, Employee, token).value == Success(Session(token, DemoUsers[0]))
      && DemoLogin(empty, Admin, token).value == Success(Session(token, DemoUsers[1]))
  {
    var empty := State(Missing, Missing, Missing);
    assert GetUsers(empty).value == DemoUsers;
    assert RoleMatch(Employee)(DemoUsers[0]);
    assert !RoleMatch(Admin)(DemoUsers[0]) && RoleMatch(Admin)(DemoUsers[1]);
  }

  /** `mockLogout`: remove the stored session; nothing else changes. */
  function Logout(st: State): (r: State)
    ensures GetSession(r) == None
    ensures r.users == st.users && r.attendance == st.attendance
  {
    SaveSession(st, None)
  }

  /** After a login, a logout leaves no session and the login's seeding in place. */
  lemma LoginThenLogout(st: State, email: string, password: string, token: string)
    ensures var r := Login(st, email, password, token);
      && GetSession(Logout(r.state)) == None
      && Logout(r.state).users == EnsureMockData(st).users
  {
  }
}
