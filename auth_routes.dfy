/**
 * The session-scoped login pipeline of the `auth` blueprint: registration, password check with OTP
 * issue, OTP verification, the simulated biometric step and logout.
 *
 * Each view is specified by a pure step function over the session record (`LoginStep`, `OtpStep`, ...),
 * and `AuthBlueprint` performs the same updates in place on its `session` and `users` fields. The
 * clock (`now`, whole seconds) and the draw of `secrets.randbelow(10**6)` are parameters.
 */
module AuthRoutes {
  import opened Wrappers
  import opened Text
  import opened Models
  import opened Forms
  import opened Web

  /** `timedelta(minutes=5)`, in seconds. */
  const OtpLifetime: int := 300

  /** `secrets.randbelow(10**6)` draws below this bound. */
  const OtpRange: nat := 1000000

  /** The keys of Flask's `session` that the login flow uses; an absent key is None (or false). */
  datatype Session = Session(
    userId: Option<UserId>,         // "_user_id", written by flask_login's login_user / logout_user
    preauthUserId: Option<UserId>,  // "preauth_user_id"
    otpCode: Option<string>,        // "otp_code"
    otpExpires: Option<int>,        // "otp_expires"
    twoFaOk: bool,                  // "2fa_ok"
    bioOk: bool)                    // "bio_ok"

  /** The session after `session.clear()` (and of a first visit). */
  const EmptySession := Session(None, None, None, None, false, false)

  /** The audit log lines the views write, one per security event. */
  datatype AuditEvent =
    | UserRegistered(username: string, role: string)
    | OtpIssued(username: string)
    | TwoFactorSucceeded(username: string)
    | TwoFactorFailed(preauthUserId: Option<UserId>)
    | BiometricConfirmed(username: string)
    | LoggedOut(username: string)

  const InvalidLoginMessage := "Invalid username or password"
  const OtpSentMessage := "An OTP code has been sent to your email (also printed to console)."
  const InvalidCodeMessage := "Invalid or expired code. Please try again."
  const DuplicateMessage := "Username or email already exists."
  const RegisteredMessage := "Registration successful. Please login."
  const LoggedOutMessage := "Logged out."

  // ---------------------------------------------------------------- the one-time code

  predicate IsDigit(c: char) {
    '0' <= c <= '9'
  }

  predicate AllDigits(s: string) {
    forall i :: 0 <= i < |s| ==> IsDigit(s[i])
  }

  /** The shape of every code the login view issues. */
  predicate IsOtpCode(s: string) {
    |s| == 6 && AllDigits(s)
  }

  function Pow10(k: nat): nat {
    if k == 0 then 1 else 10 * Pow10(k - 1)
  }

  /** The number a string of decimal digits denotes. */
  function DigitsValue(s: string): nat
    requires AllDigits(s)
  {
    if s == [] then 0 else DigitsValue(s[..|s| - 1]) * 10 + (s[|s| - 1] as int - '0' as int)
  }

  /** The last `width` decimal digits of `n`, most significant first, with leading zeros. */
  function ZeroPadded(n: nat, width: nat): (r: string)
    ensures |r| == width && AllDigits(r)
  {
    if width == 0 then "" else ZeroPadded(n / 10, width - 1) + [('0' as int + n % 10) as char]
  }

  /** Reading the zero-padded digits back gives the number, when it fits in the width. */
  lemma {:induction false} ZeroPaddedValue(n: nat, width: nat)
    requires n < Pow10(width)
    ensures DigitsValue(ZeroPadded(n, width)) == n
  {
    if width > 0 {
      assert n / 10 < Pow10(width - 1);
      ZeroPaddedValue(n / 10, width - 1);
      var r := ZeroPadded(n, width);
      assert r[..|r| - 1] == ZeroPadded(n / 10, width - 1);
    }
  }

  /** `f"{secrets.randbelow(10**6):06d}"` for the draw `n`: exactly six digits that spell `n`. */
  function OtpCode(n: nat): (r: string)
    requires n < OtpRange
    ensures IsOtpCode(r)
    ensures DigitsValue(r) == n
  {
    assert Pow10(6) == OtpRange;
    ZeroPaddedValue(n, 6);
    ZeroPadded(n, 6)
  }

  /** Different draws give different codes. */
  lemma OtpCodeInjective(a: nat, b: nat)
    requires a < OtpRange && b < OtpRange && a != b
    ensures OtpCode(a) != OtpCode(b)
  {
    assert DigitsValue(OtpCode(a)) != DigitsValue(OtpCode(b));
  }

  // ---------------------------------------------------------------- session views

  /** flask_login's `current_user` when it is authenticated: the user whose id the session holds. */
  function CurrentUser(s: Session, users: seq<User>): Option<User> {
    if s.userId.Some? then FindById(users, s.userId.value) else None
  }

  /** The stage of the sign-in sequence the session has reached. */
  function Stage(s: Session): nat {
    if s.bioOk then 3 else if s.twoFaOk then 2 else if s.preauthUserId.Some? then 1 else 0
  }

  /**
   * What the views keep true of every session they write: a code lives only with its expiry and its
   * pre-authenticated user and only before sign-in, the signed-in user is the pre-authenticated one and
   * exists, and the flags come in order.
   */
  ghost predicate SessionOk(s: Session, users: seq<User>) {
    && (s.otpCode.Some? <==> s.otpExpires.Some?)
    && (s.otpCode.Some? ==> s.preauthUserId.Some? && IsOtpCode(s.otpCode.value) && s.userId.None?)
    && (s.userId.Some? ==> s.twoFaOk && s.userId == s.preauthUserId && FindById(users, s.userId.value).Some?)
    && (s.twoFaOk ==> s.userId.Some?)
    && (s.bioOk ==> s.twoFaOk)
  }

  /** A view's effect on the session, the audit lines it writes and its answer. */
  datatype Step = Step(session: Session, events: seq<AuditEvent>, response: Response)

  /** `register`'s effect on the user table, the audit lines it writes and its answer. */
  datatype Registration = Registration(users: seq<User>, events: seq<AuditEvent>, response: Response)

  // ---------------------------------------------------------------- the views, as functions

  /**
   * `register`: the duplicate query compares the form data as typed, the row stores it stripped, and the
   * commit raises IntegrityError when the stripped name or e-mail is already taken.
   */
  function RegisterStep(users: seq<User>, h: Hasher, req: Request<RegisterForm>, emailOk: string -> bool, salt: nat)
    : (r: Registration)
    ensures r.users == users ==> r.events == [] && r.response != Redirect(LoginView, Some(RegisteredMessage))
    ensures r.users != users ==>
              && |r.users| == |users| + 1 && r.users[..|users|] == users
              && r.users[|users|].id == |users| + 1 && Trimmed(r.users[|users|].username)
              && r.response == Redirect(LoginView, Some(RegisteredMessage))
  {
    if !(Submitted(req) && RegisterFormValid(req.form, emailOk)) then Registration(users, [], Render(RegisterPage, None))
    else
      var f := req.form;
      if Taken(users, f.username, f.email) then Registration(users, [], Render(RegisterPage, Some(DuplicateMessage)))
      else
        var u := User(|users| + 1, Strip(f.username), Strip(f.email), h.hash(f.password, salt), f.role);
        if Taken(users, u.username, u.email) then Registration(users, [], ServerError(IntegrityError))
        else Registration(users + [u], [UserRegistered(u.username, u.role)], Redirect(LoginView, Some(RegisteredMessage)))
  }

  /** The session after a successful password check: the user awaits the code `OtpCode(draw)`. */
  function IssueOtp(s: Session, id: UserId, draw: nat, now: int): Session
    requires draw < OtpRange
  {
    s.(preauthUserId := Some(id), otpCode := Some(OtpCode(draw)), otpExpires := Some(now + OtpLifetime))
  }

  /** `login`: an authenticated user goes to the dashboard; valid credentials issue a code. */
  function LoginStep(s: Session, users: seq<User>, h: Hasher, req: Request<LoginForm>, now: int, draw: nat): (r: Step)
    requires draw < OtpRange
    ensures r.session.userId == s.userId && r.session.twoFaOk == s.twoFaOk && r.session.bioOk == s.bioOk
    ensures r.session != s ==>
              && r.response == Redirect(OtpView, Some(OtpSentMessage))
              && r.session.otpCode.Some? && IsOtpCode(r.session.otpCode.value)
              && r.session.otpExpires == Some(now + OtpLifetime)
  {
    if CurrentUser(s, users).Some? then Step(s, [], Redirect(DashboardView, None))
    else if !(Submitted(req) && LoginFormValid(req.form)) then Step(s, [], Render(LoginPage, None))
    else match Authenticate(users, h, Strip(req.form.username), req.form.password)
      case None => Step(s, [], Render(LoginPage, Some(InvalidLoginMessage)))
      case Some(u) => Step(IssueOtp(s, u.id, draw, now), [OtpIssued(u.username)], Redirect(OtpView, Some(OtpSentMessage)))
  }

  /** The test of `otp`: a stored, non-empty code equal to the submission, and the clock not past the expiry. */
  predicate CodeMatches(s: Session, code: string, now: int) {
    s.otpCode.Some? && s.otpCode.value != "" && code == s.otpCode.value && now <= s.otpExpires.GetOr(0)
  }

  /** `otp`: a matching code signs the user in and is consumed; anything else changes nothing. */
  function OtpStep(s: Session, users: seq<User>, req: Request<string>, now: int): (r: Step)
    ensures r.session.bioOk == s.bioOk && r.session.preauthUserId == s.preauthUserId
    ensures r.session != s ==>
              && r.response == Redirect(BiometricView, None)
              && r.session.userId == s.preauthUserId && r.session.twoFaOk
              && r.session.otpCode.None? && r.session.otpExpires.None?
  {
    if s.preauthUserId.None? then Step(s, [], Redirect(LoginView, None))
    else if !(Submitted(req) && OtpFormValid(req.form)) then Step(s, [], Render(OtpPage, None))
    else if CodeMatches(s, Strip(req.form), now) then
      match FindById(users, s.preauthUserId.value)
      case None => Step(s, [], ServerError(AttributeError))
      case Some(u) =>
        Step(s.(userId := Some(u.id), otpCode := None, otpExpires := None, twoFaOk := true),
             [TwoFactorSucceeded(u.username)], Redirect(BiometricView, None))
    else Step(s, [TwoFactorFailed(s.preauthUserId)], Render(OtpPage, Some(InvalidCodeMessage)))
  }

  /** `biometric` (behind `@login_required`): a POST after the code step sets `bio_ok`. */
  function BiometricStep(s: Session, users: seq<User>, isPost: bool): (r: Step)
    ensures r.session == s || (r.session == s.(bioOk := true) && s.twoFaOk && CurrentUser(s, users).Some?)
  {
    match CurrentUser(s, users)
    case None => Step(s, [], Redirect(LoginView, Some(LoginRequiredMessage)))
    case Some(u) =>
      if !s.twoFaOk then Step(s, [], Redirect(LoginView, None))
      else if isPost then Step(s.(bioOk := true), [BiometricConfirmed(u.username)], Redirect(DashboardView, None))
      else Step(s, [], Render(BiometricPage, None))
  }

  /** `logout` (behind `@login_required`): a signed-in user's session is cleared entirely. */
  function LogoutStep(s: Session, users: seq<User>): (r: Step)
    ensures r.session == s || r.session == EmptySession
    ensures r.response.Redirect? && r.response.to == LoginView
  {
    match CurrentUser(s, users)
    case None => Step(s, [], Redirect(LoginView, Some(LoginRequiredMessage)))
    case Some(u) => Step(EmptySession, [LoggedOut(u.username)], Redirect(LoginView, Some(LoggedOutMessage)))
  }

  // ---------------------------------------------------------------- the blueprint, with its state

  /** The `auth` blueprint with the state it changes: the request's session and the `user` table. */
  class AuthBlueprint {
    const hasher: Hasher
    var users: seq<User>
    var session: Session
    ghost var audit: seq<AuditEvent>

    ghost predicate Valid()
      reads this
    {
      IdsAreRowNumbers(users) && UniqueUsernames(users) && UniqueEmails(users) && SessionOk(session, users)
    }

    constructor (hasher: Hasher, users: seq<User>)
      requires IdsAreRowNumbers(users) && UniqueUsernames(users) && UniqueEmails(users)
      ensures Valid() && this.hasher == hasher && this.users == users
      ensures session == EmptySession && audit == []
    {
      this.hasher := hasher;
      this.users := users;
      session := EmptySession;
      audit := [];
    }

    method Register(req: Request<RegisterForm>, emailOk: string -> bool, salt: nat) returns (resp: Response)
      requires Valid()
      modifies this
      ensures Valid() && session == old(session)
      ensures var st := RegisterStep(old(users), hasher, req, emailOk, salt);
              users == st.users && resp == st.response && audit == old(audit) + st.events
    {
      if !(Submitted(req) && RegisterFormValid(req.form, emailOk)) {
        return Render(RegisterPage, None);
      }
      var f := req.form;
      if Taken(users, f.username, f.email) {
        return Render(RegisterPage, Some(DuplicateMessage));
      }
      var user := User(|users| + 1, Strip(f.username), Strip(f.email), hasher.hash(f.password, salt), f.role);
      if Taken(users, user.username, user.email) {
        return ServerError(IntegrityError);
      }
      if session.userId.Some? {
        FindByIdAppend(users, user, session.userId.value);
      }
      users := users + [user];
      audit := audit + [UserRegistered(user.username, user.role)];
      resp := Redirect(LoginView, Some(RegisteredMessage));
    }

    method Login(req: Request<LoginForm>, now: int, draw: nat) returns (resp: Response)
      requires Valid() && draw < OtpRange
      modifies this
      ensures Valid() && users == old(users)
      ensures var st := LoginStep(old(session), users, hasher, req, now, draw);
              session == st.session && resp == st.response && audit == old(audit) + st.events
    {
      if CurrentUser(session, users).Some? {
        return Redirect(DashboardView, None);
      }
      if !(Submitted(req) && LoginFormValid(req.form)) {
        return Render(LoginPage, None);
      }
      var user := FindByUsername(users, Strip(req.form.username));
      if user.Some? && hasher.check(user.value.passwordHash, req.form.password) {
        session := session.(preauthUserId := Some(user.value.id));
        var code := OtpCode(draw);
        session := session.(otpCode := Some(code));
        session := session.(otpExpires := Some(now + OtpLifetime));
        audit := audit + [OtpIssued(user.value.username)];
        resp := Redirect(OtpView, Some(OtpSentMessage));
      } else {
        resp := Render(LoginPage, Some(InvalidLoginMessage));
      }
    }

    method Otp(req: Request<string>, now: int) returns (resp: Response)
      requires Valid()
      modifies this
      ensures Valid() && users == old(users)
      ensures var st := OtpStep(old(session), users, req, now);
              session == st.session && resp == st.response && audit == old(audit) + st.events
    {
      if session.preauthUserId.None? {
        return Redirect(LoginView, None);
      }
      if !(Submitted(req) && OtpFormValid(req.form)) {
        return Render(OtpPage, None);
      }
      var code := Strip(req.form);
      var stored := session.otpCode;
      var exp := session.otpExpires.GetOr(0);
      if stored.Some? && stored.value != "" && code == stored.value && now <= exp {
        var user := FindById(users, session.preauthUserId.value);
        if user.None? {
          return ServerError(AttributeError);
        }
        session := session.(userId := Some(user.value.id));
        session := session.(otpCode := None);
        session := session.(otpExpires := None);
        session := session.(twoFaOk := true);
        audit := audit + [TwoFactorSucceeded(user.value.username)];
        resp := Redirect(BiometricView, None);
      } else {
        audit := audit + [TwoFactorFailed(session.preauthUserId)];
        resp := Render(OtpPage, Some(InvalidCodeMessage));
      }
    }

    method Biometric(isPost: bool) returns (resp: Response)
      requires Valid()
      modifies this
      ensures Valid() && users == old(users)
      ensures var st := BiometricStep(old(session), users, isPost);
              session == st.session && resp == st.response && audit == old(audit) + st.events
    {
      var user := CurrentUser(session, users);
      if user.None? {
        return Redirect(LoginView, Some(LoginRequiredMessage));
      }
      if !session.twoFaOk {
        return Redirect(LoginView, None);
      }
      if isPost {
        session := session.(bioOk := true);
        audit := audit + [BiometricConfirmed(user.value.username)];
        return Redirect(DashboardView, None);
      }
      resp := Render(BiometricPage, None);
    }

    method Logout() returns (resp: Response)
      requires Valid()
      modifies this
      ensures Valid() && users == old(users)
      ensures var st := LogoutStep(old(session), users);
              session == st.session && resp == st.response && audit == old(audit) + st.events
    {
      var user := CurrentUser(session, users);
      if user.None? {
        return Redirect(LoginView, Some(LoginRequiredMessage));
      }
      var username := user.value.username;
      session := EmptySession;
      audit := audit + [LoggedOut(username)];
      resp := Redirect(LoginView, Some(LoggedOutMessage));
    }
  }
  // ---------------------------------------------------------------- properties of the login flow

  /**
   * A correct password records the user as pre-authenticated and stores the code for the draw with an
   * expiry five minutes on; the rest of the session is as it was.
   */
  lemma PasswordStepIssuesCode(s: Session, users: seq<User>, h: Hasher, f: LoginForm, now: int, draw: nat)
    requires CurrentUser(s, users).None? && LoginFormValid(f) && draw < OtpRange
    requires Authenticate(users, h, Strip(f.username), f.password).Some?
    ensures var u := Authenticate(users, h, Strip(f.username), f.password).value;
            var st := LoginStep(s, users, h, Post(true, f), now, draw);
            && st.session.preauthUserId == Some(u.id)
            && st.session.otpCode == Some(OtpCode(draw)) && IsOtpCode(st.session.otpCode.value)
            && st.session.otpExpires == Some(now + 300)
            && st.session.userId == s.userId && st.session.twoFaOk == s.twoFaOk && st.session.bioOk == s.bioOk
            && st.response == Redirect(OtpView, Some(OtpSentMessage))
  {
  }

  /** Without a pre-authenticated user, the code view only redirects to the login page. */
  lemma OtpNeedsPreauth(s: Session, users: seq<User>, req: Request<string>, now: int)
    requires s.preauthUserId.None?
    ensures OtpStep(s, users, req, now) == Step(s, [], Redirect(LoginView, None))
  {
  }

  /** No digit is whitespace, so an issued code is its own stripped form. */
  lemma OtpCodeStripped(code: string)
    requires IsOtpCode(code)
    ensures Strip(code) == code
  {
    assert !IsSpace(code[0]) && !IsSpace(code[5]);
    StripTrimmed(code);
  }

  /**
   * A submission that passes the form is accepted exactly when it is, character for character, the code
   * issued and the clock has not passed the expiry: the six-character limit applies to the raw input, so
   * it leaves no room for whitespace around a six-digit code.
   */
  lemma OtpAcceptsExactlyTheIssuedCode(s: Session, users: seq<User>, code: string, now: int)
    requires SessionOk(s, users) && s.otpCode.Some?
    requires OtpFormValid(code)
    ensures CodeMatches(s, Strip(code), now) <==> code == s.otpCode.value && now <= s.otpExpires.value
  {
    if code == s.otpCode.value {
      OtpCodeStripped(code);
    }
    if Strip(code) == s.otpCode.value {
      StripSameLength(code);
    }
  }

  /** The issued code, entered in time, signs the pre-authenticated user in and is consumed. */
  lemma CorrectCodeSignsIn(s: Session, users: seq<User>, now: int)
    requires SessionOk(s, users) && s.otpCode.Some? && now <= s.otpExpires.value
    requires FindById(users, s.preauthUserId.value).Some?
    ensures var st := OtpStep(s, users, Post(true, s.otpCode.value), now);
            && st.response == Redirect(BiometricView, None)
            && CurrentUser(st.session, users) == FindById(users, s.preauthUserId.value)
            && st.session.otpCode.None? && st.session.otpExpires.None? && st.session.twoFaOk
            && st.session.preauthUserId == s.preauthUserId && st.session.bioOk == s.bioOk
  {
    OtpCodeStripped(s.otpCode.value);
  }

  /** A code is good for one sign-in: after it succeeds, no further submission changes the session. */
  lemma CodeIsSingleUse(s: Session, users: seq<User>, req: Request<string>, now: int, again: Request<string>, later: int)
    requires OtpStep(s, users, req, now).response == Redirect(BiometricView, None)
    ensures var s1 := OtpStep(s, users, req, now).session;
            && s1.otpCode.None? && s1.twoFaOk
            && OtpStep(s1, users, again, later).session == s1
            && OtpStep(s1, users, again, later).response != Redirect(BiometricView, None)
  {
  }

  /** A submission that does not sign in leaves the session as it was (the code stays valid). */
  lemma RejectedCodeChangesNothing(s: Session, users: seq<User>, req: Request<string>, now: int)
    requires OtpStep(s, users, req, now).response != Redirect(BiometricView, None)
    ensures OtpStep(s, users, req, now).session == s
  {
  }

  /** The session after a series of code submissions, each with the clock reading at which it arrives. */
  function OtpAttempts(s: Session, users: seq<User>, attempts: seq<(string, int)>): Session
    decreases |attempts|
  {
    if attempts == [] then s
    else OtpAttempts(OtpStep(s, users, Post(true, attempts[0].0), attempts[0].1).session, users, attempts[1..])
  }

  /**
   * There is no attempt counter: any number of wrong guesses leaves the session unchanged, so the right
   * code still works afterwards exactly as it would have before them.
   */
  lemma {:induction false} WrongGuessesNeverLockOut(s: Session, users: seq<User>, attempts: seq<(string, int)>,
                                                    code: string, now: int)
    requires forall k :: 0 <= k < |attempts| ==> !CodeMatches(s, Strip(attempts[k].0), attempts[k].1)
    ensures OtpAttempts(s, users, attempts) == s
    ensures OtpStep(OtpAttempts(s, users, attempts), users, Post(true, code), now) == OtpStep(s, users, Post(true, code), now)
    decreases |attempts|
  {
    if attempts != [] {
      assert OtpStep(s, users, Post(true, attempts[0].0), attempts[0].1).session == s;
      WrongGuessesNeverLockOut(s, users, attempts[1..], code, now);
    }
  }

  /** The code issued at time `t` is accepted up to and including `t + 300` and never after. */
  lemma CodeLivesFiveMinutes(s: Session, users: seq<User>, h: Hasher, f: LoginForm, t: int, draw: nat, now: int)
    requires CurrentUser(s, users).None? && LoginFormValid(f) && draw < OtpRange
    requires Authenticate(users, h, Strip(f.username), f.password).Some?
    ensures var s1 := LoginStep(s, users, h, Post(true, f), t, draw).session;
            CodeMatches(s1, OtpCode(draw), now) <==> now <= t + OtpLifetime
  {
  }

  /** Signing in with the password again replaces the pending code: the earlier one no longer matches. */
  lemma ReloginRevokesEarlierCode(s: Session, users: seq<User>, h: Hasher, f1: LoginForm, f2: LoginForm,
                                  t1: int, t2: int, d1: nat, d2: nat, now: int)
    requires CurrentUser(s, users).None? && d1 < OtpRange && d2 < OtpRange && d1 != d2
    requires LoginFormValid(f1) && LoginFormValid(f2)
    requires Authenticate(users, h, Strip(f1.username), f1.password).Some?
    requires Authenticate(users, h, Strip(f2.username), f2.password).Some?
    ensures var s1 := LoginStep(s, users, h, Post(true, f1), t1, d1).session;
            var s2 := LoginStep(s1, users, h, Post(true, f2), t2, d2).session;
            s2.otpCode == Some(OtpCode(d2)) && !CodeMatches(s2, OtpCode(d1), now)
  {
    OtpCodeInjective(d1, d2);
  }

  /**
   * A failed password check looks the same whether the user name is unknown or the password is wrong:
   * the same page, the same message, and the session left as it was.
   */
  lemma FailedLoginRevealsNothing(s: Session, users: seq<User>, h: Hasher, unknown: LoginForm, wrong: LoginForm,
                                  t1: int, t2: int, d1: nat, d2: nat)
    requires CurrentUser(s, users).None? && d1 < OtpRange && d2 < OtpRange
    requires LoginFormValid(unknown) && LoginFormValid(wrong)
    requires FindByUsername(users, Strip(unknown.username)).None?
    requires FindByUsername(users, Strip(wrong.username)).Some?
    requires !h.check(FindByUsername(users, Strip(wrong.username)).value.passwordHash, wrong.password)
    ensures LoginStep(s, users, h, Post(true, unknown), t1, d1) == LoginStep(s, users, h, Post(true, wrong), t2, d2)
    ensures LoginStep(s, users, h, Post(true, wrong), t2, d2) == Step(s, [], Render(LoginPage, Some(InvalidLoginMessage)))
  {
  }

  /**
   * Every view keeps `SessionOk`; registration keeps it too although the table grows, because a lookup
   * by id is not affected by a new row.
   */
  lemma StepsKeepSessionOk(s: Session, users: seq<User>, h: Hasher, login: Request<LoginForm>, otp: Request<string>,
                           reg: Request<RegisterForm>, emailOk: string -> bool, salt: nat, isPost: bool, now: int, draw: nat)
    requires SessionOk(s, users) && draw < OtpRange
    ensures SessionOk(LoginStep(s, users, h, login, now, draw).session, users)
    ensures SessionOk(OtpStep(s, users, otp, now).session, users)
    ensures SessionOk(BiometricStep(s, users, isPost).session, users)
    ensures SessionOk(LogoutStep(s, users).session, users)
    ensures SessionOk(s, RegisterStep(users, h, reg, emailOk, salt).users)
  {
    var r := RegisterStep(users, h, reg, emailOk, salt);
    if r.users != users && s.userId.Some? {
      FindByIdAppend(users, r.users[|users|], s.userId.value);
    }
  }

  /**
   * The sign-in stages (none, password, code, biometric) only advance; the one step back is logout, and
   * it goes all the way to the start.
   */
  lemma StagesOnlyAdvance(s: Session, users: seq<User>, h: Hasher, login: Request<LoginForm>, otp: Request<string>,
                          isPost: bool, now: int, draw: nat)
    requires draw < OtpRange
    ensures Stage(LoginStep(s, users, h, login, now, draw).session) >= Stage(s)
    ensures Stage(OtpStep(s, users, otp, now).session) >= Stage(s)
    ensures Stage(BiometricStep(s, users, isPost).session) >= Stage(s)
    ensures var out := LogoutStep(s, users).session; out == s || Stage(out) == 0
  {
  }

  /**
   * `bio_ok` is set only by a POST from a signed-in user who passed the code step, and the biometric
   * view changes nothing else in the session.
   */
  lemma BiometricNeedsSecondFactor(s: Session, users: seq<User>, isPost: bool)
    ensures var st := BiometricStep(s, users, isPost);
            && (st.session == s || st.session == s.(bioOk := true))
            && (st.session.bioOk && !s.bioOk <==> !s.bioOk && isPost && s.twoFaOk && CurrentUser(s, users).Some?)
  {
  }

  /**
   * Logout clears the whole session of a signed-in user. A visitor who has only passed the password step
   * is not signed in, so `@login_required` turns the request away and the pending code survives.
   */
  lemma LogoutClearsOnlySignedIn(s: Session, users: seq<User>)
    ensures CurrentUser(s, users).Some? ==> LogoutStep(s, users).session == EmptySession
    ensures CurrentUser(s, users).None? ==>
              LogoutStep(s, users) == Step(s, [], Redirect(LoginView, Some(LoginRequiredMessage)))
    ensures Stage(LogoutStep(s, users).session) == 0 || CurrentUser(s, users).None?
  {
  }

  /** Registration keeps the table's constraints, and it only ever appends one row. */
  lemma RegistrationKeepsTable(users: seq<User>, h: Hasher, req: Request<RegisterForm>, emailOk: string -> bool, salt: nat)
    requires IdsAreRowNumbers(users) && UniqueUsernames(users) && UniqueEmails(users)
    ensures var r := RegisterStep(users, h, req, emailOk, salt);
            && IdsAreRowNumbers(r.users) && UniqueUsernames(r.users) && UniqueEmails(r.users)
            && (r.users == users || (|r.users| == |users| + 1 && r.users[..|users|] == users))
            && (r.users != users <==> r.response == Redirect(LoginView, Some(RegisteredMessage)))
  {
  }

  /** An account just registered can sign in with the name and password as typed: the code step follows. */
  lemma RegisteredUserCanSignIn(users: seq<User>, h: Hasher, f: RegisterForm, emailOk: string -> bool, salt: nat,
                                s: Session, now: int, draw: nat)
    requires IdsAreRowNumbers(users) && UniqueUsernames(users) && UniqueEmails(users) && HashesVerify(h)
    requires RegisterStep(users, h, Post(true, f), emailOk, salt).response == Redirect(LoginView, Some(RegisteredMessage))
    requires s.userId.None? && draw < OtpRange
    ensures var r := RegisterStep(users, h, Post(true, f), emailOk, salt);
            var st := LoginStep(s, r.users, h, Post(true, LoginForm(f.username, f.password)), now, draw);
            && st.response == Redirect(OtpView, Some(OtpSentMessage))
            && st.session.preauthUserId == Some(|users| + 1)
            && st.session.otpCode == Some(OtpCode(draw))
  {
    var r := RegisterStep(users, h, Post(true, f), emailOk, salt);
    var u := r.users[|users|];
    var found := FindByUsername(r.users, Strip(f.username));
    assert u.username == Strip(f.username) && h.check(u.passwordHash, f.password);
    assert found.Some? by {
      assert u in r.users;
    }
    var j :| 0 <= j < |r.users| && r.users[j] == found.value;
    assert j == |users|;
  }

  /** A valid registration that passes the duplicate query but collides once stripped fails on the commit. */
  lemma CollisionFailsOnCommit(users: seq<User>, h: Hasher, f: RegisterForm, emailOk: string -> bool, salt: nat)
    requires RegisterFormValid(f, emailOk)
    requires !Taken(users, f.username, f.email) && Taken(users, Strip(f.username), Strip(f.email))
    ensures RegisterStep(users, h, Post(true, f), emailOk, salt).response == ServerError(IntegrityError)
  {
  }

  /** A name that is not trimmed matches no stored name when every stored name is trimmed. */
  lemma UntrimmedNameIsFree(users: seq<User>, name: string, email: string)
    requires !Trimmed(name)
    requires forall i :: 0 <= i < |users| ==> Trimmed(users[i].username) && users[i].email != email
    ensures !Taken(users, name, email)
  {
  }

  /**
   * The duplicate check compares the name as typed while the row stores it stripped, so registering a
   * stored name with a space in front passes the check, and the commit then fails on the UNIQUE constraint.
   */
  lemma PaddedDuplicateNameFailsOnCommit(users: seq<User>, h: Hasher, k: nat, f: RegisterForm,
                                         emailOk: string -> bool, salt: nat)
    requires k < |users| && f.username == [' '] + users[k].username
    requires forall i :: 0 <= i < |users| ==> Trimmed(users[i].username) && users[i].email != f.email
    requires RegisterFormValid(f, emailOk)
    ensures RegisterStep(users, h, Post(true, f), emailOk, salt).response == ServerError(IntegrityError)
  {
    var name := users[k].username;
    StripLeadingSpace(' ', name);
    StripTrimmed(name);
    assert f.username[0] == ' ';
    UntrimmedNameIsFree(users, f.username, f.email);
    assert users[k].username == Strip(f.username);
    assert Taken(users, Strip(f.username), Strip(f.email));
    CollisionFailsOnCommit(users, h, f, emailOk, salt);
  }
}
