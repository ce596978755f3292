/**
  `AuthController`: registration, password and Google sign-in, the
  two-factor step, and the one-time-code endpoints. Each action is a
  function of the store, the request, the current time in seconds and the
  values the code draws at random (new ids, the OTP number, the token id).
  `CheckPasswordAsync`, `VerifyTwoFactorTokenAsync` and Google's credential
  validation are parameters.
 */
module Auth {
  import opened Wrappers
  import opened Text
  import opened Guids
  import opened Models
  import opened Identity
  import opened Http
  import opened Jwt
  import opened Otp

  /** The `user` object of a sign-in reply. */
  datatype SessionUser = SessionUser(id: Guid, email: Option<string>, fullName: Option<string>, role: Option<string>)

  datatype LoginBody =
    | TwoFactorChallenge(email: Option<string>)
      /** `lastLogin` is echoed by the password login only; the other sign-ins leave it out (`None`). */
    | Session(token: SessionToken, user: SessionUser, lastLogin: Option<int>)

  /** The fields of a validated Google ID token the action reads. */
  datatype GooglePayload = GooglePayload(email: string, name: Option<string>)

  /** `roles.FirstOrDefault()`. */
  function FirstOrDefault(roles: seq<string>): Option<string> {
    if |roles| > 0 then Some(roles[0]) else None
  }

  /**
    The tail every successful sign-in shares: stamp `LastLoginDate`, read
    the membership, issue a token over the stamped user.
   */
  function SignIn(st: Store, i: nat, now: int, jti: Guid, echoLastLogin: bool): (r: Step<LoginBody>)
    requires i < |st.users|
    ensures r.store == st.(users := st.users[i := st.users[i].(lastLoginDate := Some(now))])
    ensures r.reply.Ok? && r.reply.body.Session?
    ensures r.reply.body.user.id == st.users[i].id
    ensures r.reply.body.user.role == FirstOrDefault(st.users[i].roles)
    ensures r.reply.body.token.expires == now + TokenLifetime
  {
    var u := st.users[i].(lastLoginDate := Some(now));
    var roles := GetRoles(u);
    Step(st.(users := st.users[i := u]),
         Ok(Session(GenerateToken(u, roles, now, jti),
                    SessionUser(u.id, u.email, u.fullName, FirstOrDefault(roles)),
                    if echoLastLogin then Some(now) else None)))
  }

  // ---------------------------------------------------------------- register

  /** The account `Register` builds before handing it to Identity. */
  function Registrant(id: Guid, email: string, fullName: string): User {
    NewUser(id, email, Some(fullName), "Student")
  }

  /**
    `POST register`: a known e-mail is refused before Identity is asked;
    otherwise the account is created and put in the "Student" role.
   */
  function Register(st: Store, email: string, fullName: string, password: string, newId: Guid): (r: Step<string>)
    requires UserIdFree(st.users, newId)
    ensures FindByEmail(st.users, email).Some? ==> r == Step(st, BadRequest(EmailExists))
    ensures !r.reply.Ok? ==> r.store == st
    ensures r.reply.Ok? ==>
              && r.store == st.(users := r.store.users)
              && |r.store.users| == |st.users| + 1
              && r.store.users[..|st.users|] == st.users
              && r.store.users[|st.users|].id == newId
              && r.store.users[|st.users|].role == "Student"
              && r.store.users[|st.users|].roles == ["Student"]
              && r.store.users[|st.users|].email == Some(email)
              && r.store.users[|st.users|].fullName == Some(fullName)
              && r.store.users[|st.users|].normalizedEmail == Some(Upper(email))
  {
    if FindByEmail(st.users, email).Some? then Step(st, BadRequest(EmailExists))
    else
      SeededRolesFound();
      var p := CreateWithRole(st.users, Registrant(newId, email, fullName), password, "Student");
      assert !p.ProvisionFault?;
      assert p.Provisioned? ==>
               var stored := Stored(Registrant(newId, email, fullName)).(roles := ["Student"]);
               p.users == st.users + [stored] && stored.normalizedEmail == Some(Upper(email));
      Settle(st, p, Ok("Registration successful"))
  }

  /**
    Registration succeeds exactly when the e-mail is unknown and Identity
    accepts the password and the account.
   */
  lemma RegisterSucceeds(st: Store, email: string, fullName: string, password: string, newId: Guid)
    requires UserIdFree(st.users, newId)
    ensures Register(st, email, fullName, password, newId).reply.Ok? <==>
              FindByEmail(st.users, email).None? && PasswordErrors(password) == []
              && UserErrors(st.users, Registrant(newId, email, fullName)) == []
  {
    CreateAsyncAccepts(st.users, Registrant(newId, email, fullName), password);
    SeededRolesFound();
  }

  /** After a successful registration the new account is what lookup by that e-mail finds. */
  lemma RegisteredIsFound(st: Store, email: string, fullName: string, password: string, newId: Guid)
    requires UserIdFree(st.users, newId)
    requires Register(st, email, fullName, password, newId).reply.Ok?
    ensures FindByEmail(Register(st, email, fullName, password, newId).store.users, email) == Some(|st.users|)
  {
    var users := Register(st, email, fullName, password, newId).store.users;
    assert users == st.users[..] + [users[|st.users|]];
    FindByEmailAppended(st.users, users[|st.users|], email);
  }

  /** Registration keeps the store's keys unique. */
  lemma RegisterKeepsValid(st: Store, email: string, fullName: string, password: string, newId: Guid)
    requires UserIdFree(st.users, newId) && Valid(st)
    ensures Valid(Register(st, email, fullName, password, newId).store)
  {
    var r := Register(st, email, fullName, password, newId);
    if r.reply.Ok? {
      SeededRolesFound();
      CreateKeepsKeys(st.users, Registrant(newId, email, fullName), password);
      AppendRolesKeepsKeys(st.users, Stored(Registrant(newId, email, fullName)), ["Student"]);
    }
  }

  /** The keys of an appended row do not depend on its role membership. */
  lemma AppendRolesKeepsKeys(users: seq<User>, u: User, roles: seq<string>)
    requires UniqueUserIds(users + [u]) && UniqueNormalizedEmails(users + [u])
    ensures UniqueUserIds(users + [u.(roles := roles)]) && UniqueNormalizedEmails(users + [u.(roles := roles)])
  {
    var a := users + [u];
    var b := users + [u.(roles := roles)];
    assert forall k :: 0 <= k < |b| ==> b[k].id == a[k].id && b[k].normalizedEmail == a[k].normalizedEmail;
  }

  // ---------------------------------------------------------------- sign-in

  /**
    `POST login`. An unknown e-mail and a wrong password get the same
    401 and change nothing; an account with two-factor sign-in enabled gets
    a challenge and is not stamped; otherwise the account is signed in.
    The e-mail need not be confirmed.
   */
  function Login(st: Store, email: string, password: string, checkPassword: (User, string) -> bool,
                 now: int, jti: Guid): (r: Step<LoginBody>)
    ensures var k := FindByEmail(st.users, email);
      (k.None? || !checkPassword(st.users[k.value], password)) ==> r == Step(st, Unauthorized)
    ensures var k := FindByEmail(st.users, email);
      (k.Some? && checkPassword(st.users[k.value], password) && st.users[k.value].twoFactorEnabled)
        ==> r == Step(st, Ok(TwoFactorChallenge(st.users[k.value].email)))
    ensures var k := FindByEmail(st.users, email);
      (k.Some? && checkPassword(st.users[k.value], password) && !st.users[k.value].twoFactorEnabled)
        ==> && r.store == st.(users := st.users[k.value := st.users[k.value].(lastLoginDate := Some(now))])
            && r.reply.Ok? && r.reply.body.Session?
            && r.reply.body.user.role == FirstOrDefault(st.users[k.value].roles)
            && r.reply.body.lastLogin == Some(now)
            && r.reply.body.token == GenerateToken(r.store.users[k.value], st.users[k.value].roles, now, jti)
  {
    var k := FindByEmail(st.users, email);
    if k.None? || !checkPassword(st.users[k.value], password) then Step(st, Unauthorized)
    else if st.users[k.value].twoFactorEnabled then Step(st, Ok(TwoFactorChallenge(st.users[k.value].email)))
    else SignIn(st, k.value, now, jti, true)
  }

  /** Stamping the last sign-in keeps the store's keys unique. */
  lemma SignInKeepsValid(st: Store, i: nat, now: int, jti: Guid, echo: bool)
    requires i < |st.users| && Valid(st)
    ensures Valid(SignIn(st, i, now, jti, echo).store)
  {
    ReplaceKeepsKeys(st.users, i, st.users[i].(lastLoginDate := Some(now)));
  }

  lemma LoginKeepsValid(st: Store, email: string, password: string, checkPassword: (User, string) -> bool,
                        now: int, jti: Guid)
    requires Valid(st)
    ensures Valid(Login(st, email, password, checkPassword, now, jti).store)
  {
    var k := FindByEmail(st.users, email);
    if k.Some? {
      SignInKeepsValid(st, k.value, now, jti, true);
    }
  }

  /** `VerifyTwoFactor`: the second step of a two-factor sign-in. */
  function VerifyTwoFactor(st: Store, email: string, code: string, validToken: (User, string) -> bool,
                           now: int, jti: Guid): (r: Step<LoginBody>)
    ensures var k := FindByEmail(st.users, email);
      k.None? ==> r == Step(st, BadRequest(InvalidUser))
    ensures var k := FindByEmail(st.users, email);
      (k.Some? && !validToken(st.users[k.value], code)) ==> r == Step(st, BadRequest(InvalidTwoFactorCode))
    ensures var k := FindByEmail(st.users, email);
      (k.Some? && validToken(st.users[k.value], code))
        ==> && r.store == st.(users := st.users[k.value := st.users[k.value].(lastLoginDate := Some(now))])
            && r.reply.Ok? && r.reply.body.Session?
            && r.reply.body.user.id == st.users[k.value].id
            && r.reply.body.user.role == FirstOrDefault(st.users[k.value].roles)
            && r.reply.body.token == GenerateToken(r.store.users[k.value], st.users[k.value].roles, now, jti)
  {
    var k := FindByEmail(st.users, email);
    if k.None? then Step(st, BadRequest(InvalidUser))
    else if !validToken(st.users[k.value], code) then Step(st, BadRequest(InvalidTwoFactorCode))
    else SignIn(st, k.value, now, jti, false)
  }

  /** The password generated for a Google account: 32 hex digits and "!Aa1". */
  function GooglePassword(salt: Guid): string {
    FormatN(salt) + "!Aa1"
  }

  /** The generated password always satisfies the password policy. */
  lemma GooglePasswordPasses(salt: Guid)
    ensures PasswordErrors(GooglePassword(salt)) == []
  {
    var p := GooglePassword(salt);
    assert p[32] == '!' && p[33] == 'A' && p[34] == 'a';
    assert IsLowerAscii(p[34]) && !IsWhiteSpace(p[32]);
  }

  /** The account `GoogleLogin` provisions for an unknown e-mail. */
  function GoogleAccount(id: Guid, payload: GooglePayload): User {
    NewUser(id, payload.email, payload.name, "Student")
  }

  /**
    `POST google-login`, with `payload` the result of validating the
    credential (`None` when validation throws). A new e-mail provisions a
    "Student" account with a generated password; two-factor sign-in is not
    consulted.
   */
  function GoogleLogin(st: Store, payload: Option<GooglePayload>, now: int, newId: Guid, salt: Guid, jti: Guid)
    : (r: Step<LoginBody>)
    requires UserIdFree(st.users, newId)
    ensures payload.None? ==> r == Step(st, ServerError(InvalidGoogleCredential))
    ensures r.reply.Ok? ==> r.reply.body.Session?
    ensures payload.Some? && FindByEmail(st.users, payload.value.email).Some? ==>
              var k := FindByEmail(st.users, payload.value.email).value;
              && r.store == st.(users := st.users[k := st.users[k].(lastLoginDate := Some(now))])
              && r.reply.Ok? && r.reply.body.Session?
              && r.reply.body.user.id == st.users[k].id
              && r.reply.body.user.role == FirstOrDefault(st.users[k].roles)
              && r.reply.body.token == GenerateToken(r.store.users[k], st.users[k].roles, now, jti)
  {
    if payload.None? then Step(st, ServerError(InvalidGoogleCredential))
    else
      var k := FindByEmail(st.users, payload.value.email);
      if k.Some? then SignIn(st, k.value, now, jti, false)
      else GoogleSignUp(st, payload.value, now, newId, salt, jti)
  }

  /**
    The branch of `GoogleLogin` for an e-mail no account holds. `FullName`
    is a required, non-nullable property, so its column is NOT NULL: when
    the payload carries no name, the insert that follows Identity's
    validation throws and nothing is stored.
   */
  function GoogleSignUp(st: Store, payload: GooglePayload, now: int, newId: Guid, salt: Guid, jti: Guid)
    : (r: Step<LoginBody>)
    requires UserIdFree(st.users, newId)
    ensures r.reply.Ok? ==> r.reply.body.Session?
    ensures payload.name.None? ==> r.store == st && !r.reply.Ok?
    ensures r.reply == ServerError(NullFullName) <==>
              payload.name.None? && CreateAsync(st.users, GoogleAccount(newId, payload), GooglePassword(salt)).Created?
  {
    match CreateWithRole(st.users, GoogleAccount(newId, payload), GooglePassword(salt), "Student")
    case ProvisionRejected(errors) => Step(st, BadRequest(IdentityErrors(errors)))
    case ProvisionFault(users) =>
      if payload.name.None? then Step(st, ServerError(NullFullName))
      else Step(st.(users := users), ServerError(RoleDoesNotExist))
    case Provisioned(users) =>
      if payload.name.None? then Step(st, ServerError(NullFullName))
      else SignIn(st.(users := users), |st.users|, now, jti, false)
  }

  /**
    For a new e-mail, Google sign-in fails only when Identity rejects the
    account itself (the generated password always passes) or the payload
    has no name for the NOT NULL `FullName` column; on success the
    new "Student" account is appended, already stamped with the sign-in
    time.
   */
  lemma GoogleSignUpProvisions(st: Store, payload: GooglePayload, now: int, newId: Guid, salt: Guid, jti: Guid)
    requires UserIdFree(st.users, newId)
    ensures var r := GoogleSignUp(st, payload, now, newId, salt, jti);
      r.reply.Ok? <==> UserErrors(st.users, GoogleAccount(newId, payload)) == [] && payload.name.Some?
    ensures var r := GoogleSignUp(st, payload, now, newId, salt, jti);
      r.reply.Ok? ==>
        && r.store == st.(users := r.store.users)
        && |r.store.users| == |st.users| + 1
        && r.store.users[..|st.users|] == st.users
        && r.store.users[|st.users|].id == newId
        && r.store.users[|st.users|].role == "Student"
        && r.store.users[|st.users|].roles == ["Student"]
        && r.store.users[|st.users|].lastLoginDate == Some(now)
        && r.reply.body.user.role == Some("Student")
  {
    var u := GoogleAccount(newId, payload);
    var pw := GooglePassword(salt);
    GooglePasswordPasses(salt);
    CreateAsyncAccepts(st.users, u, pw);
    SeededRolesFound();
    var p := CreateWithRole(st.users, u, pw, "Student");
    if UserErrors(st.users, u) == [] && payload.name.Some? {
      assert p.Provisioned?;
      var users := st.users + [Stored(u).(roles := ["Student"])];
      assert p.users == users;
      var r := SignIn(st.(users := users), |st.users|, now, jti, false);
      assert GoogleSignUp(st, payload, now, newId, salt, jti) == r;
      assert r.store.users == users[|st.users| := users[|st.users|].(lastLoginDate := Some(now))];
    } else if UserErrors(st.users, u) != [] {
      assert p.ProvisionRejected?;
    }
  }

  lemma GoogleSignUpKeepsValid(st: Store, payload: GooglePayload, now: int, newId: Guid, salt: Guid, jti: Guid)
    requires UserIdFree(st.users, newId) && Valid(st)
    ensures Valid(GoogleSignUp(st, payload, now, newId, salt, jti).store)
  {
    var u := GoogleAccount(newId, payload);
    var pw := GooglePassword(salt);
    SeededRolesFound();
    var p := CreateWithRole(st.users, u, pw, "Student");
    if p.Provisioned? && payload.name.Some? {
      CreateKeepsKeys(st.users, u, pw);
      AppendRolesKeepsKeys(st.users, Stored(u), ["Student"]);
      var s1 := st.(users := st.users + [Stored(u).(roles := ["Student"])]);
      SignInKeepsValid(s1, |st.users|, now, jti, false);
    }
  }

  lemma GoogleLoginKeepsValid(st: Store, payload: Option<GooglePayload>, now: int, newId: Guid, salt: Guid, jti: Guid)
    requires UserIdFree(st.users, newId) && Valid(st)
    ensures Valid(GoogleLogin(st, payload, now, newId, salt, jti).store)
  {
    if payload.Some? {
      var k := FindByEmail(st.users, payload.value.email);
      if k.Some? {
        SignInKeepsValid(st, k.value, now, jti, false);
      } else {
        GoogleSignUpKeepsValid(st, payload.value, now, newId, salt, jti);
      }
    }
  }

  // ---------------------------------------------------------------- one-time codes

  /** An outgoing e-mail. */
  datatype Mail = Mail(to: string, subject: string, body: string)

  datatype OtpStep = OtpStep(store: Store, reply: Reply<string>, mail: Option<Mail>)

  const OtpSubject := "Your OTP Code"
  const OtpBodyPrefix := "Your OTP is: "

  /**
    `POST request-otp`: the ledger step, then the code is mailed to the
    target. Sending is modelled as succeeding.
   */
  function RequestOtp(st: Store, target: string, kind: string, now: int, draw: int): (r: OtpStep)
    requires InCodeRange(draw)
    ensures var q := Request(st.otps, target, kind, now, draw);
      && (q.TooSoon? ==> r == OtpStep(st, BadRequest(OtpTooSoon), None))
      && (q.Issued? ==> r.store == st.(otps := q.otps) && r.reply.Ok?
                        && r.mail == Some(Mail(target, OtpSubject, OtpBodyPrefix + q.code)))
  {
    var q := Request(st.otps, target, kind, now, draw);
    if q.TooSoon? then OtpStep(st, BadRequest(OtpTooSoon), None)
    else OtpStep(st.(otps := q.otps), Ok("OTP sent"), Some(Mail(target, OtpSubject, OtpBodyPrefix + q.code)))
  }

  /** The code read out of the mail verifies, until its expiry ten minutes later. */
  lemma MailedCodeVerifies(st: Store, target: string, kind: string, now: int, draw: int, later: int)
    requires InCodeRange(draw) && RequestOtp(st, target, kind, now, draw).mail.Some?
    ensures var r := RequestOtp(st, target, kind, now, draw);
      var body := r.mail.value.body;
      && |body| == |OtpBodyPrefix| + 6
      && (VerifyOtp(r.store, target, kind, body[|OtpBodyPrefix|..], later).reply.Ok? <==> later <= now + Lifetime)
  {
    var r := RequestOtp(st, target, kind, now, draw);
    var q := Request(st.otps, target, kind, now, draw);
    assert r.mail.value.body[|OtpBodyPrefix|..] == q.code;
    RequestThenVerify(st.otps, target, kind, now, draw, later);
  }

  /**
    `POST verify-otp`: the ledger step; on success the account whose e-mail
    is the target, if any, is marked confirmed through `UpdateAsync`, whose
    result is not checked.
   */
  function VerifyOtp(st: Store, target: string, kind: string, code: string, now: int): (r: Step<string>)
    ensures var v := Verify(st.otps, target, kind, code, now);
      && (v.Refused? ==> r == Step(st, BadRequest(OtpInvalidOrExpired)))
      && (v.Confirmed? ==> r.reply.Ok? && r.store.otps == v.otps
                           && r.store.documents == st.documents && r.store.downloads == st.downloads)
    ensures var k := FindByEmail(st.users, target);
      r.reply.Ok? && k.None? ==> r.store.users == st.users
  {
    var v := Verify(st.otps, target, kind, code, now);
    if v.Refused? then Step(st, BadRequest(OtpInvalidOrExpired))
    else
      var k := FindByEmail(st.users, target);
      var users := if k.None? then st.users
                   else UpdateAsync(st.users, k.value, st.users[k.value].(emailConfirmed := true));
      Step(st.(otps := v.otps, users := users), Ok("Verified successfully"))
  }

  /**
    On success, the account holding the target e-mail is confirmed when it
    passes Identity's validation, and no other account changes.
   */
  lemma VerifyOtpConfirms(st: Store, target: string, kind: string, code: string, now: int)
    requires Valid(st)
    ensures var r := VerifyOtp(st, target, kind, code, now);
      var k := FindByEmail(st.users, target);
      && Valid(r.store)
      && (r.reply.Ok? && k.Some? ==>
            && (forall j :: 0 <= j < |st.users| && j != k.value ==> r.store.users[j] == st.users[j])
            && (UserErrors(st.users, st.users[k.value].(emailConfirmed := true)) == [] ==>
                  r.store.users[k.value].emailConfirmed && r.store.users[k.value].id == st.users[k.value].id))
  {
    var k := FindByEmail(st.users, target);
    if k.Some? {
      UpdateKeepsKeys(st.users, k.value, st.users[k.value].(emailConfirmed := true));
    }
  }
}
