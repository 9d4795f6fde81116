/** The identity-provider configuration (platform/auth.ts): the Credentials provider's
    `authorize` callback, which signs in by email code and creates the user on first
    sign-in, and the `signIn` callback. */
module AuthConfig {
  import opened Base
  import opened Decimal
  import CodeStore
  import Verification
  import Users

  /** The two tables `authorize` works on. */
  datatype State = State(codes: CodeStore.Store, users: Users.Table)

  /** The submitted credentials; a field may be absent. */
  datatype Credentials = Credentials(email: Option<string>, code: Option<string>)

  /** The user object handed back to the framework: the id rendered as a string. */
  datatype SessionUser = SessionUser(id: string, email: string)

  datatype Authorization = Authorization(user: Option<SessionUser>, state: State)

  /** JavaScript truthiness of an optional string field: present and non-empty. */
  predicate Present(field: Option<string>) {
    field.Some? && field.value != ""
  }

  /** The users table after signing in `email` at `now`, and the id signed in: the existing
      row found by email, marked verified if it was not; otherwise a new row with the email,
      no name, verified now. */
  function FindOrCreate(users: Users.Table, email: string, now: Time): (out: Users.Created)
    ensures Users.GetUserByEmail(users, email).Some? ==>
      var u := Users.GetUserByEmail(users, email).value;
      && out.id == u.id
      && out.table == (if u.emailVerified.None? then Users.UpdateUserEmailVerified(users, u.id, now) else users)
    ensures Users.GetUserByEmail(users, email).None? ==>
      && out.table.rows == users.rows + [Users.User(out.id, email, None, Some(now))]
      && (Users.WellFormed(users) ==> Users.WellFormed(out.table) && forall u | u in users.rows :: u.id != out.id)
  {
    match Users.GetUserByEmail(users, email)
    case None => Users.CreateUser(users, email, None, now)
    case Some(u) =>
      var users' := if u.emailVerified.None? then Users.UpdateUserEmailVerified(users, u.id, now) else users;
      Users.Created(u.id, users')
  }

  /** `authorize`. Missing email or code: null, nothing touched. A store failure (`dbUp`
      false): null, nothing touched. A failed code check: null, with the attempt counted
      in the code table and the users table unchanged. Otherwise the user is found or
      created and returned with the credential email and the id as a string. */
  function Authorize(st: State, cred: Credentials, now: Time, dbUp: bool): (out: Authorization)
    ensures !Present(cred.email) || !Present(cred.code) || !dbUp ==> out == Authorization(None, st)
    ensures out.state.users != st.users ==> out.user.Some?
    ensures out.user.None? && Present(cred.email) && Present(cred.code) && dbUp ==>
      out.state == st.(codes := Verification.VerifyCode(st.codes, cred.email.value, cred.code.value, now).store)
    ensures out.user.Some? <==>
      Present(cred.email) && Present(cred.code) && dbUp &&
      Verification.VerifyCode(st.codes, cred.email.value, cred.code.value, now).result.Verified?
    ensures out.user.Some? ==>
      && out.user.value.email == cred.email.value
      && AllDigits(out.user.value.id)
      && Value(out.user.value.id) == FindOrCreate(st.users, cred.email.value, now).id
      && out.state == State(Verification.VerifyCode(st.codes, cred.email.value, cred.code.value, now).store,
                            FindOrCreate(st.users, cred.email.value, now).table)
  {
    if !Present(cred.email) || !Present(cred.code) then Authorization(None, st)
    else if !dbUp then Authorization(None, st)
    else
      var email := cred.email.value;
      var v := Verification.VerifyCode(st.codes, email, cred.code.value, now);
      if !v.result.Verified? then Authorization(None, st.(codes := v.store))
      else
        var signedIn := FindOrCreate(st.users, email, now);
        ValueOfRender(signedIn.id);
        Authorization(Some(SessionUser(Render(signedIn.id), email)), State(v.store, signedIn.table))
  }

  /** After a successful `authorize`, the users table holds a row for the email, and the
      returned id names a row of it carrying that email. */
  lemma AuthorizeFindsOrCreatesUser(st: State, cred: Credentials, now: Time, dbUp: bool)
    requires Users.WellFormed(st.users)
    requires Authorize(st, cred, now, dbUp).user.Some?
    ensures var out := Authorize(st, cred, now, dbUp);
      && Users.WellFormed(out.state.users)
      && Users.GetUserByEmail(out.state.users, cred.email.value).Some?
      && Users.GetUserById(out.state.users, Value(out.user.value.id)).Some?
      && Users.GetUserById(out.state.users, Value(out.user.value.id)).value.email == cred.email.value
      && Users.GetUserById(out.state.users, Value(out.user.value.id)).value.emailVerified.Some?
  {
    var email := cred.email.value;
    var existing := Users.GetUserByEmail(st.users, email);
    var signedIn := FindOrCreate(st.users, email, now);
    if existing.Some? {
      var u := existing.value;
      if u.emailVerified.None? {
        VerifiedUpdateKeepsRow(st.users, u, now);
      }
    } else {
      assert signedIn.table.rows[|st.users.rows|] == Users.User(signedIn.id, email, None, Some(now));
    }
  }

  /** Marking a row of a well-formed table verified keeps the table well formed and the row
      findable by its id and email, now verified. */
  lemma VerifiedUpdateKeepsRow(users: Users.Table, u: Users.User, now: Time)
    requires Users.WellFormed(users) && u in users.rows
    ensures var t' := Users.UpdateUserEmailVerified(users, u.id, now);
      && Users.WellFormed(t')
      && u.(emailVerified := Some(now)) in t'.rows
  {
    var t' := Users.UpdateUserEmailVerified(users, u.id, now);
    var after := u.(emailVerified := Some(now));
    forall v | v in t'.rows
      ensures v == after || (v in users.rows && v.id != u.id)
    {
      var i :| 0 <= i < |t'.rows| && t'.rows[i] == v;
      var w := users.rows[i];
      assert w in users.rows;
      Users.UpdateVerifiedRow(users, u.id, now, i);
    }
    var k :| 0 <= k < |users.rows| && users.rows[k] == u;
    Users.UpdateVerifiedRow(users, u.id, now, k);
    forall v1, v2 | v1 in t'.rows && v2 in t'.rows && v1.id == v2.id
      ensures v1 == v2
    {
      if v1 != after && v2 != after {
        assert v1 in users.rows && v2 in users.rows;
      }
    }
    assert forall v | v in t'.rows :: v.id < t'.nextId;
  }

  /** The `signIn` callback: a GitHub sign-in without an email is let through to be
      handled by the page, and so is every other sign-in. */
  function SignInCallback(provider: Option<string>, userEmail: Option<string>): (allowed: bool)
    ensures allowed
  {
    if provider == Some("github") && !Present(userEmail) then true else true
  }
}
