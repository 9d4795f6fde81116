/** The server actions behind the login and bind-email forms (platform/lib/actions/auth.ts):
    the order of their checks and how each failure is reported. */
module Actions {
  import opened Base
  import opened Messages
  import opened NumberParsing
  import opened Validations
  import CodeStore
  import Verification
  import VerificationProps
  import Users
  import opened AuthConfig

  /** `{ success: true, requiresRedirect? }` or `{ success: false, error: { message } }`. */
  datatype ActionResult = Succeeded(requiresRedirect: bool) | Failed(message: ErrorKey)

  /** A call of the mail dispatcher: the recipient and the plaintext code. */
  datatype Mail = Mail(to: string, code: string)

  /** The outcome of `sendVerificationCode`: the result, the code table afterwards, and
      the mail handed to the dispatcher, if any. */
  datatype Sent = Sent(result: ActionResult, codes: CodeStore.Store, mail: Option<Mail>)

  /** `sendVerificationCode`. `draw` is the random choice of the code generator, `dbUp`
      whether the store can be reached, `delivered` the answer of the mail dispatcher. */
  function SendVerificationCode(codes: CodeStore.Store, email: string, isEmail: string -> bool,
                                now: Time, draw: nat, dbUp: bool, delivered: bool): (out: Sent)
    requires draw < Verification.DrawRange
    ensures var issue := Verification.CreateVerificationCode(codes, email, now, draw);
      && (out.result == Succeeded(false) <==>
           Validate(SendCodeSchema, Form(email, ""), isEmail).None? && dbUp && issue.result.Issued? && delivered)
      && (Validate(SendCodeSchema, Form(email, ""), isEmail).Some? ==>
           out == Sent(Failed(Validate(SendCodeSchema, Form(email, ""), isEmail).value), codes, None))
      && (Validate(SendCodeSchema, Form(email, ""), isEmail).None? && !dbUp ==>
           out == Sent(Failed(SendCodeFailed), codes, None))
      && (Validate(SendCodeSchema, Form(email, ""), isEmail).None? && dbUp && issue.result.IssueFailed? ==>
           out == Sent(Failed(issue.result.error), issue.store, None))
      && (Validate(SendCodeSchema, Form(email, ""), isEmail).None? && dbUp && issue.result.Issued? ==>
           out.mail == Some(Mail(email, issue.result.code)) && out.codes == issue.store
           && (!delivered ==> out.result == Failed(EmailSendFailed)))
  {
    match Validate(SendCodeSchema, Form(email, ""), isEmail)
    case Some(message) => Sent(Failed(message), codes, None)
    case None =>
      if !dbUp then Sent(Failed(SendCodeFailed), codes, None)
      else
        var issue := Verification.CreateVerificationCode(codes, email, now, draw);
        match issue.result
        case IssueFailed(error) => Sent(Failed(error), issue.store, None)
        case Issued(code) =>
          var mail := Mail(email, code);
          if !delivered then Sent(Failed(EmailSendFailed), issue.store, Some(mail))
          else Sent(Succeeded(false), issue.store, Some(mail))
  }

  /** A code whose mail could not be delivered stays usable: the row is not rolled back, and
      presenting the code within five minutes signs the address in. */
  lemma UndeliveredCodeStillVerifies(codes: CodeStore.Store, email: string, isEmail: string -> bool,
                                     t: Time, draw: nat, t': Time)
    requires draw < Verification.DrawRange && VerificationProps.WellFormed(codes, t)
    requires t <= t' < t + Verification.ExpiryMs
    requires SendVerificationCode(codes, email, isEmail, t, draw, true, false).mail.Some?
    ensures var out := SendVerificationCode(codes, email, isEmail, t, draw, true, false);
      && out.result == Failed(EmailSendFailed)
      && Verification.VerifyCode(out.codes, email, out.mail.value.code, t').result.Verified?
  {
    VerificationProps.IssueThenVerify(codes, email, t, draw, t');
  }

  /** What `signIn("credentials", ...)` reports: no error, an error kind, or a throw. */
  datatype SignInResult = SignedIn | SignInError(kind: string) | SignInThrew

  /** The framework's credentials flow: `authorize` returning null is a `CredentialsSignin`
      failure, which the framework either returns as the result's `error` or throws, as
      `throwsOnFailure` says. */
  function SignInWithCredentials(st: State, email: string, code: string, now: Time, dbUp: bool,
                                 throwsOnFailure: bool): (out: (SignInResult, State))
    ensures out.1 == Authorize(st, Credentials(Some(email), Some(code)), now, dbUp).state
    ensures out.0 == SignedIn <==> Authorize(st, Credentials(Some(email), Some(code)), now, dbUp).user.Some?
    ensures out.0 != SignedIn ==> out.0 == (if throwsOnFailure then SignInThrew else SignInError("CredentialsSignin"))
  {
    var a := Authorize(st, Credentials(Some(email), Some(code)), now, dbUp);
    if a.user.Some? then (SignedIn, a.state)
    else if throwsOnFailure then (SignInThrew, a.state)
    else (SignInError("CredentialsSignin"), a.state)
  }

  /** How `verifyCode` reports a sign-in: `CredentialsSignin` becomes `codeInvalid`, any
      other error or a throw becomes `loginFailed`, and success asks for a redirect. An empty
      error string is falsy and counts as success. */
  function SignInMessage(r: SignInResult): (res: ActionResult)
    ensures res == Succeeded(true) <==> r.SignedIn? || r == SignInError("")
    ensures res == Failed(CodeInvalid) <==> r == SignInError("CredentialsSignin")
    ensures res == Failed(LoginFailed) <==> r.SignInThrew? || (r.SignInError? && r.kind != "" && r.kind != "CredentialsSignin")
  {
    match r
    case SignInThrew => Failed(LoginFailed)
    case SignedIn => Succeeded(true)
    case SignInError(kind) =>
      if kind == "" then Succeeded(true)
      else if kind == "CredentialsSignin" then Failed(CodeInvalid)
      else Failed(LoginFailed)
  }

  datatype Outcome = Outcome(result: ActionResult, state: State)

  /** `verifyCode`: validate the form, then sign in with the credentials. */
  function VerifyCode(st: State, email: string, code: string, isEmail: string -> bool, now: Time, dbUp: bool,
                      throwsOnFailure: bool): (out: Outcome)
    ensures Validate(VerifyCodeSchema, Form(email, code), isEmail).Some? ==>
      out == Outcome(Failed(Validate(VerifyCodeSchema, Form(email, code), isEmail).value), st)
    ensures out.result == Succeeded(true) <==>
      && Validate(VerifyCodeSchema, Form(email, code), isEmail).None?
      && Authorize(st, Credentials(Some(email), Some(code)), now, dbUp).user.Some?
    ensures out.result.Failed? && Validate(VerifyCodeSchema, Form(email, code), isEmail).None? ==>
      out.result == Failed(if throwsOnFailure then LoginFailed else CodeInvalid)
    ensures out.state.users != st.users ==> out.result == Succeeded(true)
  {
    match Validate(VerifyCodeSchema, Form(email, code), isEmail)
    case Some(message) => Outcome(Failed(message), st)
    case None =>
      var (signIn, st') := SignInWithCredentials(st, email, code, now, dbUp, throwsOnFailure);
      Outcome(SignInMessage(signIn), st')
  }

  /** Every reason the code check can fail for (expired, locked, too many attempts, wrong
      code) reaches the form as the same message: `codeInvalid` when the framework returns
      the failure, `loginFailed` when it throws it. */
  lemma VerifyCollapsesFailureReasons(st: State, email: string, code: string, isEmail: string -> bool, now: Time)
    requires Validate(VerifyCodeSchema, Form(email, code), isEmail).None?
    requires Verification.VerifyCode(st.codes, email, code, now).result.VerifyFailed?
    ensures VerifyCode(st, email, code, isEmail, now, true, false).result == Failed(CodeInvalid)
    ensures VerifyCode(st, email, code, isEmail, now, true, true).result == Failed(LoginFailed)
  {
  }

  /** `bindEmail`: validate; require a signed-in user; refuse an email another user holds
      before looking at the code; verify the code; only then move the email to the user.
      `userId` is the caller's string, read with `parseInt`. */
  function BindEmail(st: State, email: string, code: string, userId: Option<string>,
                     isEmail: string -> bool, now: Time, dbUp: bool): (out: Outcome)
    ensures Validate(BindEmailSchema, Form(email, code), isEmail).Some? ==>
      out == Outcome(Failed(Validate(BindEmailSchema, Form(email, code), isEmail).value), st)
    ensures Validate(BindEmailSchema, Form(email, code), isEmail).None? && !Present(userId) ==>
      out == Outcome(Failed(LoginRequired), st)
    ensures Validate(BindEmailSchema, Form(email, code), isEmail).None? && Present(userId) &&
            (!dbUp || ParseInt(userId.value).None?) ==>
      out == Outcome(Failed(BindEmailFailed), st)
    ensures out.result == Failed(EmailAlreadyUsed) ==> out.state == st
    ensures out.result == Failed(EmailAlreadyUsed) <==>
      && Validate(BindEmailSchema, Form(email, code), isEmail).None? && Present(userId) && dbUp
      && ParseInt(userId.value).Some?
      && Users.IsEmailUsedByOtherUser(st.users, email, ParseInt(userId.value).value)
    ensures out.state.users != st.users ==> out.result == Succeeded(false)
    ensures out.result == Succeeded(false) <==>
      && Validate(BindEmailSchema, Form(email, code), isEmail).None? && Present(userId) && dbUp
      && ParseInt(userId.value).Some?
      && !Users.IsEmailUsedByOtherUser(st.users, email, ParseInt(userId.value).value)
      && Verification.VerifyCode(st.codes, email, code, now).result.Verified?
    ensures out.result == Succeeded(false) ==>
      out.state == State(Verification.VerifyCode(st.codes, email, code, now).store,
                         Users.UpdateUserEmail(st.users, ParseInt(userId.value).value, email, now))
  {
    match Validate(BindEmailSchema, Form(email, code), isEmail)
    case Some(message) => Outcome(Failed(message), st)
    case None =>
      if !Present(userId) then Outcome(Failed(LoginRequired), st)
      else if !dbUp then Outcome(Failed(BindEmailFailed), st)
      else
        match ParseInt(userId.value)
        // `NaN` is not an integer the database accepts: the query throws.
        case None => Outcome(Failed(BindEmailFailed), st)
        case Some(uid) => BindToUser(st, email, code, uid, now)
  }

  /** The part of `bindEmail` after the user id is read: the email check, the code check,
      and the update. */
  function BindToUser(st: State, email: string, code: string, uid: int, now: Time): (out: Outcome)
    ensures out.result == Failed(EmailAlreadyUsed) <==> Users.IsEmailUsedByOtherUser(st.users, email, uid)
    ensures out.result == Failed(EmailAlreadyUsed) ==> out.state == st
    ensures out.result == Succeeded(false) <==>
      !Users.IsEmailUsedByOtherUser(st.users, email, uid) && Verification.VerifyCode(st.codes, email, code, now).result.Verified?
    ensures out.result == Succeeded(false) ==>
      out.state == State(Verification.VerifyCode(st.codes, email, code, now).store, Users.UpdateUserEmail(st.users, uid, email, now))
    ensures out.result != Succeeded(false) ==> out.state.users == st.users
    ensures !Users.IsEmailUsedByOtherUser(st.users, email, uid) && Verification.VerifyCode(st.codes, email, code, now).result.VerifyFailed? ==>
      var v := Verification.VerifyCode(st.codes, email, code, now);
      out == Outcome(Failed(v.result.error), st.(codes := v.store))
  {
    if Users.IsEmailUsedByOtherUser(st.users, email, uid) then Outcome(Failed(EmailAlreadyUsed), st)
    else
      var v := Verification.VerifyCode(st.codes, email, code, now);
      match v.result
      case VerifyFailed(error) => Outcome(Failed(error), st.(codes := v.store))
      case Verified(_) => Outcome(Succeeded(false), State(v.store, Users.UpdateUserEmail(st.users, uid, email, now)))
  }

  /** A failed code check while binding passes its own reason through, counts the attempt in
      the code table, and leaves the user's email as it was. */
  lemma BindPassesVerifyFailureThrough(st: State, email: string, code: string, userId: string,
                                       isEmail: string -> bool, now: Time)
    requires Validate(BindEmailSchema, Form(email, code), isEmail).None? && userId != ""
    requires ParseInt(userId).Some? && !Users.IsEmailUsedByOtherUser(st.users, email, ParseInt(userId).value)
    requires Verification.VerifyCode(st.codes, email, code, now).result.VerifyFailed?
    ensures var v := Verification.VerifyCode(st.codes, email, code, now);
      BindEmail(st, email, code, Some(userId), isEmail, now, true) ==
        Outcome(Failed(v.result.error), st.(codes := v.store))
  {
  }

  /** Only what `parseInt` reads from the user id matters: two non-empty ids with the same
      reading bind alike. */
  lemma BindEmailDependsOnReadId(st: State, email: string, code: string, a: string, b: string,
                                 isEmail: string -> bool, now: Time, dbUp: bool)
    requires a != [] && b != [] && ParseInt(a) == ParseInt(b)
    ensures BindEmail(st, email, code, Some(a), isEmail, now, dbUp) == BindEmail(st, email, code, Some(b), isEmail, now, dbUp)
  {
  }

  /** So a bare "0x" is `NaN`: the first query throws and nothing changes. */
  lemma BindEmailBareHexMarker(st: State, email: string, code: string, isEmail: string -> bool, now: Time)
    requires Validate(BindEmailSchema, Form(email, code), isEmail).None?
    ensures BindEmail(st, email, code, Some("0x"), isEmail, now, true) == Outcome(Failed(BindEmailFailed), st)
  {
    BareHexMarker();
  }

  /** And "0x1A" names the same user as "26". */
  lemma BindEmailHexUserId(st: State, email: string, code: string, isEmail: string -> bool, now: Time, dbUp: bool)
    ensures BindEmail(st, email, code, Some("0x1A"), isEmail, now, dbUp) ==
            BindEmail(st, email, code, Some("26"), isEmail, now, dbUp)
  {
    HexExample();
    DecimalExample();
    BindEmailDependsOnReadId(st, email, code, "0x1A", "26", isEmail, now, dbUp);
  }
}
