/**
  The parts of ASP.NET Core Identity's `UserManager` the controllers call,
  under the options configured at start-up: user lookup by e-mail,
  `CreateAsync` with its password and user validation, role membership
  (`AddToRoleAsync` / `GetRolesAsync`) over the three seeded roles.
  Password hashing, `CheckPasswordAsync` and two-factor token validation
  are not modelled here; the controllers receive them as predicates.
 */
module Identity {
  import opened Wrappers
  import opened Text
  import opened Guids
  import opened Models
  import Listing

  /** The roles created at start-up; no other role exists. */
  const SeededRoles: seq<string> := ["SuperAdmin", "Admin", "Student"]

  /** `options.Password.RequiredLength`. */
  const RequiredLength: nat := 6

  /** Identity's default `AllowedUserNameCharacters`. */
  const AllowedUserNameCharacters: string :=
    "abcdefghijklmnopqrstuvwxyzABCDEFGHIJKLMNOPQRSTUVWXYZ0123456789-._@+"

  datatype IdentityError =
    | PasswordTooShort
    | PasswordRequiresLower
    | PasswordRequiresUniqueChars
    | InvalidUserName
    | DuplicateUserName
    | InvalidEmail
    | DuplicateEmail

  // ---------------------------------------------------------------- lookup

  /** The upper-invariant lookup normaliser, with `null` staying `null`. */
  function NormalizeOpt(s: Option<string>): Option<string> {
    match s
    case None => None
    case Some(v) => Some(Upper(v))
  }

  /** `FindByEmailAsync(email)`: the user whose normalised e-mail matches. */
  function FindByEmail(users: seq<User>, email: string): (r: Option<nat>)
    ensures r.Some? ==> r.value < |users| && users[r.value].normalizedEmail == Some(Upper(email))
  {
    Listing.FirstIndex(users, (u: User) => u.normalizedEmail == Some(Upper(email)))
  }

  /**
    Lookup is case-insensitive: it finds a user exactly when some user's
    normalised e-mail equals the upper-cased query.
   */
  lemma FindByEmailSpec(users: seq<User>, email: string)
    ensures FindByEmail(users, email).Some? <==>
              exists i :: 0 <= i < |users| && users[i].normalizedEmail == Some(Upper(email))
    ensures FindByEmail(users, email).Some? ==>
              users[FindByEmail(users, email).value].normalizedEmail == Some(Upper(email))
  {
    var p := (u: User) => u.normalizedEmail == Some(Upper(email));
    if exists i :: 0 <= i < |users| && users[i].normalizedEmail == Some(Upper(email)) {
      var i :| 0 <= i < |users| && users[i].normalizedEmail == Some(Upper(email));
      assert p(users[i]);
    }
  }

  /** An appended user holding an e-mail nobody else holds is found at its position. */
  lemma FindByEmailAppended(users: seq<User>, u: User, email: string)
    requires FindByEmail(users, email).None? && u.normalizedEmail == Some(Upper(email))
    ensures FindByEmail(users + [u], email) == Some(|users|)
  {
    var s := users + [u];
    FindByEmailSpec(users, email);
    FindByEmailSpec(s, email);
    assert s[|users|].normalizedEmail == Some(Upper(email));
  }

  // ---------------------------------------------------------------- validation

  predicate HasLower(password: string) {
    exists i :: 0 <= i < |password| && IsLowerAscii(password[i])
  }

  /**
    The password validator under the start-up options: digits, upper case
    and symbols are not required; length 6 and one lower-case letter (the
    library default left in force) are, and a blank password is too short.
   */
  function PasswordErrors(password: string): seq<IdentityError> {
    (if AllWhiteSpace(password) || |password| < RequiredLength then [PasswordTooShort] else [])
    + (if !HasLower(password) then [PasswordRequiresLower] else [])
    + (if |password| == 0 then [PasswordRequiresUniqueChars] else [])
  }

  /** A password is accepted exactly when it is long enough, not blank, and has a lower-case letter. */
  lemma PasswordPolicy(password: string)
    ensures PasswordErrors(password) == [] <==>
              |password| >= RequiredLength && !AllWhiteSpace(password) && HasLower(password)
  {
  }

  predicate UserNameCharsAllowed(name: string) {
    forall i :: 0 <= i < |name| ==> name[i] in AllowedUserNameCharacters
  }

  /** `EmailAddressAttribute.IsValid`: exactly one '@', neither first nor last. */
  predicate EmailShapeValid(email: string) {
    exists i :: 0 < i < |email| - 1 && email[i] == '@'
      && forall j :: 0 <= j < |email| && j != i ==> email[j] != '@'
  }

  /** Another user (not `u` itself) already owns the normalised key. */
  predicate OwnedByOther(users: seq<User>, u: User, key: string) {
    var owner := FindByEmail(users, key);
    owner.Some? && users[owner.value].id != u.id
  }

  /**
    The user validator: user-name shape then uniqueness, e-mail shape then
    uniqueness (`RequireUniqueEmail`). The user name is always the e-mail
    in this code base, so its normalised form is the normalised e-mail.
   */
  function UserErrors(users: seq<User>, u: User): seq<IdentityError> {
    var nameErrors :=
      if IsNullOrWhiteSpace(u.userName) || !UserNameCharsAllowed(u.userName.value) then [InvalidUserName]
      else if OwnedByOther(users, u, u.userName.value) then [DuplicateUserName]
      else [];
    var emailErrors :=
      if IsNullOrWhiteSpace(u.email) || !EmailShapeValid(u.email.value) then [InvalidEmail]
      else if OwnedByOther(users, u, u.email.value) then [DuplicateEmail]
      else [];
    nameErrors + emailErrors
  }

  // ---------------------------------------------------------------- creation

  datatype CreateResult = Created(users: seq<User>) | Rejected(errors: seq<IdentityError>)

  /** The row `CreateAsync` stores: the given user with its e-mail normalised. */
  function Stored(u: User): User {
    u.(normalizedEmail := NormalizeOpt(u.email))
  }

  /**
    `CreateAsync(user, password)`: the password is validated first and its
    errors returned alone; then the user; on success the user is appended.
    The key is fresh (EF Core or the caller generates a new Guid).
   */
  function CreateAsync(users: seq<User>, u: User, password: string): (r: CreateResult)
    requires UserIdFree(users, u.id)
    ensures r.Created? ==> r.users == users + [Stored(u)]
    ensures r.Rejected? ==> |r.errors| > 0
  {
    var passwordErrors := PasswordErrors(password);
    if passwordErrors != [] then Rejected(passwordErrors)
    else
      var userErrors := UserErrors(users, u);
      if userErrors != [] then Rejected(userErrors)
      else Created(users + [Stored(u)])
  }

  /**
    Creation succeeds exactly when the password and the user both pass
    validation; a bad password is reported alone, before the user is checked.
   */
  lemma CreateAsyncAccepts(users: seq<User>, u: User, password: string)
    requires UserIdFree(users, u.id)
    ensures CreateAsync(users, u, password).Created? <==> PasswordErrors(password) == [] && UserErrors(users, u) == []
    ensures PasswordErrors(password) != [] ==> CreateAsync(users, u, password) == Rejected(PasswordErrors(password))
  {
  }

  /**
    A user whose e-mail is already known (case-insensitively) is rejected
    with `DuplicateEmail`, whatever the password, once the password passes.
   */
  lemma CreateRejectsKnownEmail(users: seq<User>, u: User, password: string)
    requires UserIdFree(users, u.id) && u.email.Some?
    requires FindByEmail(users, u.email.value).Some?
    ensures CreateAsync(users, u, password).Rejected?
    ensures (PasswordErrors(password) == [] && !IsNullOrWhiteSpace(u.email) && EmailShapeValid(u.email.value))
              ==> DuplicateEmail in CreateAsync(users, u, password).errors
  {
    var owner := FindByEmail(users, u.email.value);
    assert users[owner.value].id != u.id;
  }

  /** Creation keeps user ids and normalised e-mails unique. */
  lemma CreateKeepsKeys(users: seq<User>, u: User, password: string)
    requires UserIdFree(users, u.id)
    requires UniqueUserIds(users) && UniqueNormalizedEmails(users)
    requires CreateAsync(users, u, password).Created?
    ensures UniqueUserIds(CreateAsync(users, u, password).users)
    ensures UniqueNormalizedEmails(CreateAsync(users, u, password).users)
  {
    var r := CreateAsync(users, u, password).users;
    assert u.email.Some?;
    FindByEmailSpec(users, u.email.value);
    assert FindByEmail(users, u.email.value).None?;
    assert r[|users|] == Stored(u);
  }

  /**
    `UpdateAsync(user)` for the user at position `i`: the user is validated
    against the others; on failure nothing is saved, otherwise the row is
    written back with its e-mail renormalised.
   */
  function UpdateAsync(users: seq<User>, i: nat, u: User): (r: seq<User>)
    requires i < |users| && u.id == users[i].id
    ensures |r| == |users|
  {
    if UserErrors(users, u) != [] then users else users[i := Stored(u)]
  }

  /**
    An update that passes validation leaves ids and normalised e-mails
    unique: validation refuses an e-mail another user already holds.
   */
  lemma UpdateKeepsKeys(users: seq<User>, i: nat, u: User)
    requires i < |users| && u.id == users[i].id
    requires UniqueUserIds(users) && UniqueNormalizedEmails(users)
    ensures UniqueUserIds(UpdateAsync(users, i, u)) && UniqueNormalizedEmails(UpdateAsync(users, i, u))
    ensures UserErrors(users, u) == [] ==> UpdateAsync(users, i, u)[i] == Stored(u)
    ensures forall j :: 0 <= j < |users| && j != i ==> UpdateAsync(users, i, u)[j] == users[j]
  {
    if UserErrors(users, u) == [] {
      var r := users[i := Stored(u)];
      var e := u.email.value;
      var owner := FindByEmail(users, e);
      assert owner.Some? ==> owner.value == i;
      forall j | 0 <= j < |users| && j != i
        ensures users[j].normalizedEmail != Some(Upper(e))
      {
        if owner.Some? {
          assert users[i].normalizedEmail == Some(Upper(e));
        }
      }
      forall a, b | 0 <= a < b < |r|
        ensures r[a].id != r[b].id
        ensures r[a].normalizedEmail.Some? ==> r[a].normalizedEmail != r[b].normalizedEmail
      {
      }
    }
  }

  // ---------------------------------------------------------------- roles

  /** The seeded role a name refers to; role names are matched case-insensitively. */
  function FindRole(name: string): (r: Option<string>)
    ensures r.Some? ==> r.value in SeededRoles && EqualsIgnoreCase(r.value, name)
    ensures r.None? ==> forall k :: 0 <= k < |SeededRoles| ==> !EqualsIgnoreCase(SeededRoles[k], name)
  {
    var i := Listing.FirstIndex(SeededRoles, (r: string) => Upper(r) == Upper(name));
    if i.Some? then Some(SeededRoles[i.value]) else None
  }

  /** `GetRolesAsync(user)`: the membership, in the order it was granted. */
  function GetRoles(u: User): seq<string> {
    u.roles
  }

  datatype Provision =
    | Provisioned(users: seq<User>)
    | ProvisionRejected(errors: seq<IdentityError>)
    | ProvisionFault(users: seq<User>)

  /**
    The pattern every creating endpoint follows: `CreateAsync`, return on
    failure, then `AddToRoleAsync` with the result ignored. A role that does
    not exist throws after the user has been saved (`ProvisionFault`).
   */
  function CreateWithRole(users: seq<User>, u: User, password: string, role: string): (r: Provision)
    requires UserIdFree(users, u.id) && u.roles == []
    ensures r.ProvisionRejected? <==> CreateAsync(users, u, password).Rejected?
    ensures r.ProvisionRejected? ==> r.errors == CreateAsync(users, u, password).errors
    ensures r.ProvisionFault? <==> CreateAsync(users, u, password).Created? && FindRole(role).None?
    ensures r.ProvisionFault? ==> r.users == users + [Stored(u)]
    ensures r.Provisioned? ==> r.users == users + [Stored(u).(roles := [FindRole(role).value])]
  {
    var c := CreateAsync(users, u, password);
    if c.Rejected? then ProvisionRejected(c.errors)
    else GrantNewest(users, Stored(u), role)
  }

  /**
    `AddToRoleAsync(user, role)` on the user just appended: a role that does
    not exist throws (the user stays saved); otherwise the seeded name is
    added to the membership, which for a new user was empty, so the
    library's "already in role" failure cannot arise here.
   */
  function GrantNewest(users: seq<User>, stored: User, role: string): (r: Provision)
    requires stored.roles == []
    ensures !r.ProvisionRejected?
    ensures r.ProvisionFault? <==> FindRole(role).None?
    ensures r.ProvisionFault? ==> r.users == users + [stored]
    ensures r.Provisioned? ==> r.users == users + [stored.(roles := [FindRole(role).value])]
  {
    var seeded := FindRole(role);
    if seeded.None? then ProvisionFault(users + [stored])
    else Provisioned(users + [stored.(roles := [seeded.value])])
  }

  /** Each seeded role name finds itself. */
  lemma SeededRolesFound()
    ensures FindRole("Student") == Some("Student")
    ensures FindRole("Admin") == Some("Admin")
    ensures FindRole("SuperAdmin") == Some("SuperAdmin")
  {
  }
}
