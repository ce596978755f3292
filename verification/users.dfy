/**
  `UserService`: the account administration the admin, student and
  super-admin controllers share. Reads and deletes go straight to the
  `Users` table; creation goes through Identity; updates write the row
  directly, bypassing Identity.
 */
module Users {
  import opened Wrappers
  import opened Text
  import opened Guids
  import opened Models
  import opened Identity
  import opened Listing
  import opened Http

  /** `UserDto`: the projection every endpoint returns. */
  datatype UserDto = UserDto(id: Guid, fullName: Option<string>, email: Option<string>, role: string)

  function Project(u: User): UserDto {
    UserDto(u.id, u.fullName, u.email, u.role)
  }

  function ProjectAll(us: seq<User>): (r: seq<UserDto>)
    ensures |r| == |us|
    ensures forall i :: 0 <= i < |us| ==> r[i] == Project(us[i])
  {
    seq(|us|, i requires 0 <= i < |us| => Project(us[i]))
  }

  // ---------------------------------------------------------------- listing

  /** `u.Role.ToLower() == role.ToLower()`. */
  predicate RoleAccepts(u: User, role: Option<string>) {
    IsNullOrEmpty(role) || Lower(u.role) == Lower(role.value)
  }

  /**
    `u.FullName.Contains(search) || u.Email.Contains(search)` as the
    database evaluates it under a case-sensitive collation, a missing value
    matching nothing.
   */
  predicate SearchAccepts(u: User, search: Option<string>) {
    || IsNullOrEmpty(search)
    || (u.fullName.Some? && Contains(u.fullName.value, search.value))
    || (u.email.Some? && Contains(u.email.value, search.value))
  }

  predicate UserMatches(u: User, search: Option<string>, role: Option<string>) {
    RoleAccepts(u, role) && SearchAccepts(u, search)
  }

  function UserFilter(search: Option<string>, role: Option<string>): User -> bool {
    u => UserMatches(u, search, role)
  }

  /** The role filter, then the search filter, each only when its parameter is non-empty. */
  function FilterUsers(users: seq<User>, search: Option<string>, role: Option<string>): seq<User> {
    var byRole := WhereIf(users, !IsNullOrEmpty(role), (u: User) => RoleAccepts(u, role));
    WhereIf(byRole, !IsNullOrEmpty(search), (u: User) => SearchAccepts(u, search))
  }

  /** The two filters in turn are one filter by both. */
  lemma FilterUsersSpec(users: seq<User>, search: Option<string>, role: Option<string>)
    ensures FilterUsers(users, search, role) == Filter(users, UserFilter(search, role))
  {
    var r := (u: User) => RoleAccepts(u, role);
    var s := (u: User) => SearchAccepts(u, search);
    WhereIfChain(users, !IsNullOrEmpty(role), r, !IsNullOrEmpty(search), s,
                 false, s, UserFilter(search, role));
  }

  /**
    Whether SQL Server runs `OFFSET (page - 1) * pageSize ROWS FETCH NEXT
    pageSize ROWS ONLY`: the offset may not be negative, and at least one
    row must be fetched.
   */
  predicate PagingAccepted(page: int, pageSize: int) {
    PageOffset(page, pageSize) >= 0 && pageSize >= 1
  }

  /**
    `GetAllUsersAsync`: the filtered count and the requested page, projected.
    The database refuses a page number or a page size below one, and the
    exception escapes the action as a 500.
   */
  function GetAllUsers(users: seq<User>, page: int, pageSize: int, search: Option<string>, role: Option<string>)
    : (r: Reply<PageResult<UserDto>>)
    ensures r.Ok? || r.ServerError?
    ensures r.ServerError? <==> page < 1 || pageSize < 1
    ensures r.ServerError? ==> r.fault == InvalidPaging
    ensures r.Ok? ==> r.body.page == page && r.body.pageSize == pageSize && |r.body.items| <= pageSize
  {
    assert page >= 1 && pageSize >= 1 ==> (page - 1) * pageSize >= 0;
    if !PagingAccepted(page, pageSize) then ServerError(InvalidPaging)
    else
      var filtered := FilterUsers(users, search, role);
      Ok(PageResult(ProjectAll(Page(filtered, page, pageSize)), |filtered|, page, pageSize))
  }

  /** The accounts on the requested page of the matching ones. */
  function MatchingPage(users: seq<User>, page: int, pageSize: int, search: Option<string>, role: Option<string>): seq<User> {
    Page(Filter(users, UserFilter(search, role)), page, pageSize)
  }

  /**
    When the paging is accepted, the total counts every matching account and
    the items are the matching accounts on the requested page, in table
    order, projected; each of them is a stored account that matches.
   */
  lemma GetAllUsersSpec(users: seq<User>, page: int, pageSize: int, search: Option<string>, role: Option<string>)
    ensures var r := GetAllUsers(users, page, pageSize, search, role);
      r.Ok? ==> && r.body.totalItems == Count(users, UserFilter(search, role))
                && r.body.items == ProjectAll(MatchingPage(users, page, pageSize, search, role))
    ensures forall x :: x in MatchingPage(users, page, pageSize, search, role) ==> x in users && UserMatches(x, search, role)
    ensures IsSubsequence(MatchingPage(users, page, pageSize, search, role), users)
  {
    FilterUsersSpec(users, search, role);
    PageOfFilter(users, UserFilter(search, role), page, pageSize);
  }

  /** `item` is the projection of a stored account whose role is `role` up to case and which matches the search. */
  predicate ListedIn(users: seq<User>, item: UserDto, role: string, search: Option<string>) {
    exists u :: u in users && Lower(u.role) == Lower(role) && SearchAccepts(u, search) && item == Project(u)
  }

  /** With a role given, every listed account holds that role up to case and matches the search. */
  lemma GetAllUsersInRole(users: seq<User>, page: int, pageSize: int, search: Option<string>, role: string)
    requires |role| > 0
    ensures var r := GetAllUsers(users, page, pageSize, search, Some(role));
      r.Ok? ==> && r.body.totalItems == Count(users, UserFilter(search, Some(role)))
                && forall k :: 0 <= k < |r.body.items| ==> ListedIn(users, r.body.items[k], role, search)
  {
    GetAllUsersSpec(users, page, pageSize, search, Some(role));
    var r := GetAllUsers(users, page, pageSize, search, Some(role));
    if r.Ok? {
      var pg := MatchingPage(users, page, pageSize, search, Some(role));
      forall k | 0 <= k < |r.body.items|
        ensures ListedIn(users, r.body.items[k], role, search)
      {
        var u := pg[k];
        assert u in pg;
        assert RoleAccepts(u, Some(role));
        assert r.body.items[k] == Project(u);
      }
    }
  }

  // ---------------------------------------------------------------- single rows

  /** `GetUserByIdAsync`: the projection of the row with that key, or `null`. */
  function GetUserById(users: seq<User>, id: Guid): (r: Option<UserDto>)
    ensures r.None? <==> UserIdFree(users, id)
    ensures r.Some? ==> exists j :: 0 <= j < |users| && users[j].id == id && r.value == Project(users[j])
  {
    var k := UserIndex(users, id);
    if k.None? then None else Some(Project(users[k.value]))
  }

  /** The outcome of a service call that may throw. */
  datatype Outcome<+T> = Done(users: seq<User>, value: T) | Thrown(users: seq<User>, fault: Fault)

  /** `CreateUserDto`; its role defaults to "Student" when the body leaves it out. */
  datatype CreateUserDto = CreateUserDto(fullName: string, email: string, password: string, role: string)

  /**
    `CreateUserAsync`: the dto's role is stamped on the row and granted as
    membership. Failed validation throws with nothing saved; an unknown role
    throws after the account was saved.
   */
  function CreateUser(users: seq<User>, dto: CreateUserDto, newId: Guid): (r: Outcome<UserDto>)
    requires UserIdFree(users, newId)
    ensures var u := NewUser(newId, dto.email, Some(dto.fullName), dto.role);
      && (CreateAsync(users, u, dto.password).Rejected? <==> r.Thrown? && r.fault.CreateUserFailed?)
      && (r.Thrown? && r.fault.CreateUserFailed? ==>
            r.users == users && r.fault.errors == CreateAsync(users, u, dto.password).errors)
      && (r.Thrown? && r.fault.RoleDoesNotExist? ==> r.users == users + [Stored(u)] && FindRole(dto.role).None?)
      && (r.Done? ==> && FindRole(dto.role).Some?
                      && r.users == users + [Stored(u).(roles := [FindRole(dto.role).value])]
                      && r.value == UserDto(newId, Some(dto.fullName), Some(dto.email), dto.role))
  {
    var u := NewUser(newId, dto.email, Some(dto.fullName), dto.role);
    match CreateWithRole(users, u, dto.password, dto.role)
    case ProvisionRejected(errors) => Thrown(users, CreateUserFailed(errors))
    case ProvisionFault(saved) => Thrown(saved, RoleDoesNotExist)
    case Provisioned(saved) => Done(saved, Project(u))
  }

  /** A created account carries the requested role both as its field and (by its seeded name) as its membership. */
  lemma CreateUserStampsRole(users: seq<User>, dto: CreateUserDto, newId: Guid)
    requires UserIdFree(users, newId)
    requires CreateUser(users, dto, newId).Done?
    ensures var r := CreateUser(users, dto, newId);
      && |r.users| == |users| + 1
      && r.users[..|users|] == users
      && r.users[|users|].id == newId
      && r.users[|users|].role == dto.role
      && |r.users[|users|].roles| == 1
      && EqualsIgnoreCase(r.users[|users|].roles[0], dto.role)
      && r.users[|users|].roles[0] in SeededRoles
  {
  }

  /** `UpdateUserDto`. */
  datatype UpdateUserDto = UpdateUserDto(fullName: string, email: string, role: string)

  datatype Updated = Updated(users: seq<User>, dto: Option<UserDto>)

  /**
    `UpdateUserAsync`: overwrite full name, e-mail, user name and role of
    the row with that key, or report `null`. The write goes through the
    database context, so Identity's normalised e-mail is not refreshed.
   */
  function UpdateUser(users: seq<User>, id: Guid, dto: UpdateUserDto): (r: Updated)
    ensures |r.users| == |users|
    ensures r.dto.None? <==> UserIdFree(users, id)
    ensures r.dto.None? ==> r.users == users
    ensures r.dto.Some? ==> r.dto == Some(UserDto(id, Some(dto.fullName), Some(dto.email), dto.role))
  {
    var k := UserIndex(users, id);
    if k.None? then Updated(users, None)
    else
      var u := users[k.value].(fullName := Some(dto.fullName), email := Some(dto.email),
                               userName := Some(dto.email), role := dto.role);
      Updated(users[k.value := u], Some(Project(u)))
  }

  /**
    The updated row holds the new full name, e-mail, user name and role and
    keeps everything else: key, normalised e-mail, flags, last sign-in and
    membership; every other row is untouched.
   */
  lemma UpdateUserFrame(users: seq<User>, id: Guid, dto: UpdateUserDto, i: nat)
    requires UniqueUserIds(users) && i < |users| && users[i].id == id
    ensures var r := UpdateUser(users, id, dto);
      && r.dto == Some(UserDto(id, Some(dto.fullName), Some(dto.email), dto.role))
      && r.users[i].fullName == Some(dto.fullName)
      && r.users[i].email == Some(dto.email)
      && r.users[i].userName == Some(dto.email)
      && r.users[i].role == dto.role
      && r.users[i].id == users[i].id
      && r.users[i].normalizedEmail == users[i].normalizedEmail
      && r.users[i].emailConfirmed == users[i].emailConfirmed
      && r.users[i].twoFactorEnabled == users[i].twoFactorEnabled
      && r.users[i].lastLoginDate == users[i].lastLoginDate
      && r.users[i].roles == users[i].roles
      && (forall j :: 0 <= j < |users| && j != i ==> r.users[j] == users[j])
  {
    UserIndexOfMember(users, i);
  }

  /**
    Because the normalised e-mail is left as it was, lookup by e-mail keeps
    finding the account under its old address after an update, and an
    update keeps the keys unique.
   */
  lemma UpdateKeepsLookupKey(users: seq<User>, id: Guid, dto: UpdateUserDto, email: string)
    requires UniqueUserIds(users) && UniqueNormalizedEmails(users)
    ensures var r := UpdateUser(users, id, dto);
      && FindByEmail(r.users, email) == FindByEmail(users, email)
      && UniqueUserIds(r.users) && UniqueNormalizedEmails(r.users)
  {
    var r := UpdateUser(users, id, dto);
    var k := UserIndex(users, id);
    if k.Some? {
      ReplaceKeepsKeys(users, k.value, r.users[k.value]);
      assert forall j :: 0 <= j < |users| ==> r.users[j].normalizedEmail == users[j].normalizedEmail;
      FindByEmailSame(users, r.users, email);
    }
  }

  /** Lookup by e-mail only reads the normalised e-mails. */
  lemma FindByEmailSame(a: seq<User>, b: seq<User>, email: string)
    requires |a| == |b| && forall j :: 0 <= j < |a| ==> a[j].normalizedEmail == b[j].normalizedEmail
    ensures FindByEmail(a, email) == FindByEmail(b, email)
  {
    var p := (u: User) => u.normalizedEmail == Some(Upper(email));
    FirstIndexSame(a, p, b, p);
  }

  /** `DeleteUserAsync`: remove the row with that key and report whether there was one. */
  function DeleteUser(users: seq<User>, id: Guid): (r: (seq<User>, bool))
    ensures r.1 <==> !UserIdFree(users, id)
    ensures !r.1 ==> r.0 == users
  {
    var k := UserIndex(users, id);
    if k.None? then (users, false) else (RemoveAt(users, k.value), true)
  }

  /** With unique keys, deleting removes exactly the account with that key. */
  lemma DeleteUserRemovesExactly(users: seq<User>, id: Guid)
    requires UniqueUserIds(users)
    ensures var r := DeleteUser(users, id).0;
      && |r| == |users| - (if UserIdFree(users, id) then 0 else 1)
      && (forall u :: u in r <==> u in users && u.id != id)
      && IsSubsequence(r, users)
  {
    var k := UserIndex(users, id);
    if k.Some? {
      var r := RemoveAt(users, k.value);
      assert r == users[..k.value] + users[k.value + 1..];
      forall u
        ensures u in r <==> u in users && u.id != id
      {
        if u in users && u.id != id {
          var j :| 0 <= j < |users| && users[j] == u;
          if j < k.value {
            assert r[j] == u;
          } else {
            assert r[j - 1] == u;
          }
        }
      }
      RemoveAtIsSubsequence(users, k.value);
    } else {
      SliceIsSubsequence(users, 0, |users|);
      assert users[0..|users|] == users;
    }
  }

  // ---------------------------------------------------------------- controller replies

  /**
    The role-gated lookup of `GetAdmin` and `GetStudent`: the projection of
    the account when it exists and its role is exactly `role`, else 404.
   */
  function GetInRole(users: seq<User>, id: Guid, role: string): (r: Reply<UserDto>)
    ensures r.Ok? || r.NotFound?
    ensures r.Ok? ==> && r.body.id == id && r.body.role == role
                      && exists j :: 0 <= j < |users| && users[j].id == id && r.body == Project(users[j])
    ensures UniqueUserIds(users) ==>
              (r.Ok? <==> exists j :: 0 <= j < |users| && users[j].id == id && users[j].role == role)
  {
    var dto := GetUserById(users, id);
    if dto.Some? && dto.value.role == role then Ok(dto.value) else NotFound
  }

  /** `UpdateAdmin` and `UpdateStudent`: the dto's role is replaced by `role`, then the update runs. */
  function UpdateAs(st: Store, id: Guid, dto: UpdateUserDto, role: string): (r: Step<UserDto>)
    ensures r.reply.Ok? || r.reply.NotFound?
    ensures r.reply.NotFound? <==> UserIdFree(st.users, id)
    ensures r.reply.NotFound? ==> r.store == st
    ensures r.reply.Ok? ==> r.reply.body == UserDto(id, Some(dto.fullName), Some(dto.email), role)
    ensures r.store.otps == st.otps && r.store.documents == st.documents && r.store.downloads == st.downloads
  {
    var u := UpdateUser(st.users, id, dto.(role := role));
    Step(st.(users := u.users), if u.dto.None? then NotFound else Ok(u.dto.value))
  }

  /** Whatever role the account had, after a forced update the role-gated lookup finds it. */
  lemma UpdateAsThenGet(st: Store, id: Guid, dto: UpdateUserDto, role: string)
    requires UniqueUserIds(st.users) && !UserIdFree(st.users, id)
    ensures var r := UpdateAs(st, id, dto, role);
      r.reply.Ok? && GetInRole(r.store.users, id, role) == Ok(r.reply.body)
  {
    var k :| 0 <= k < |st.users| && st.users[k].id == id;
    UpdateUserFrame(st.users, id, dto.(role := role), k);
    var after := UpdateAs(st, id, dto, role).store.users;
    assert forall j :: 0 <= j < |after| ==> after[j].id == st.users[j].id;
    assert UniqueUserIds(after);
  }

  /** The delete actions of all three controllers: 204 when the account existed, whatever its role; else 404. */
  function DeleteStep(st: Store, id: Guid): (r: Step<UserDto>)
    ensures r.reply.NoContent? || r.reply.NotFound?
    ensures r.reply.NoContent? <==> exists j :: 0 <= j < |st.users| && st.users[j].id == id
    ensures r.reply.NotFound? ==> r.store == st
    ensures r.store.otps == st.otps && r.store.documents == st.documents && r.store.downloads == st.downloads
  {
    var (users, found) := DeleteUser(st.users, id);
    Step(st.(users := users), if found then NoContent else NotFound)
  }

  // ---------------------------------------------------------------- CSV

  const CsvHeader := "FullName,Email,Role"

  /** One line of the export: the three values, unescaped, joined by commas. */
  function CsvRow(u: User): string {
    u.fullName.GetOr("") + "," + u.email.GetOr("") + "," + u.role
  }

  function CsvLines(users: seq<User>): (r: seq<string>)
    ensures |r| == |users| + 1
    ensures r[0] == CsvHeader
    ensures forall i :: 0 <= i < |users| ==> r[i + 1] == CsvRow(users[i])
  {
    [CsvHeader] + seq(|users|, i requires 0 <= i < |users| => CsvRow(users[i]))
  }

  /** Each line followed by the platform's line terminator (`AppendLine`). */
  function Terminated(lines: seq<string>, newline: string): string {
    if |lines| == 0 then "" else lines[0] + newline + Terminated(lines[1..], newline)
  }

  /** `ExportUsersToCsvAsync` before UTF-8 encoding. */
  function ExportCsv(users: seq<User>, newline: string): string {
    Terminated(CsvLines(users), newline)
  }

  /** The export is the header then one row per account, every line terminated. */
  lemma {:induction false} ExportCsvLength(users: seq<User>, newline: string)
    ensures |ExportCsv(users, newline)| == |CsvHeader| + |newline|
              + TotalLength(seq(|users|, i requires 0 <= i < |users| => CsvRow(users[i])), newline)
    ensures StartsWith(ExportCsv(users, newline), CsvHeader + newline)
  {
    var rows := seq(|users|, i requires 0 <= i < |users| => CsvRow(users[i]));
    assert CsvLines(users)[1..] == rows;
    TerminatedLength(rows, newline);
    var out := ExportCsv(users, newline);
    assert out == CsvHeader + newline + Terminated(rows, newline);
    assert out[..|CsvHeader + newline|] == CsvHeader + newline;
  }

  function TotalLength(lines: seq<string>, newline: string): nat {
    if |lines| == 0 then 0 else |lines[0]| + |newline| + TotalLength(lines[1..], newline)
  }

  lemma {:induction false} TerminatedLength(lines: seq<string>, newline: string)
    ensures |Terminated(lines, newline)| == TotalLength(lines, newline)
  {
    if |lines| > 0 {
      TerminatedLength(lines[1..], newline);
    }
  }

  /** A row whose values hold no comma splits back into those three values. */
  lemma CsvRowFields(u: User)
    requires Lacks(u.fullName.GetOr(""), ',') && Lacks(u.email.GetOr(""), ',') && Lacks(u.role, ',')
    ensures Split(CsvRow(u), ',') == [u.fullName.GetOr(""), u.email.GetOr(""), u.role]
  {
    var f := u.fullName.GetOr("");
    var e := u.email.GetOr("");
    assert CsvRow(u) == f + [','] + (e + [','] + u.role);
    SplitPiece(f, e + [','] + u.role, ',');
    SplitPiece(e, u.role, ',');
    SplitPiece(u.role, "", ',');
  }

  /** Values are not quoted: a comma inside a full name yields a row of four fields. */
  lemma CsvRowUnescaped()
    ensures |Split(CsvRow(NewUser(Empty, "e", Some("x,y"), "r")), ',')| == 4
  {
    var row := CsvRow(NewUser(Empty, "e", Some("x,y"), "r"));
    assert row == "x" + [','] + "y,e,r";
    assert "y,e,r" == "y" + [','] + "e,r";
    assert "e,r" == "e" + [','] + "r";
    SplitPiece("x", "y,e,r", ',');
    SplitPiece("y", "e,r", ',');
    SplitPiece("e", "r", ',');
    SplitPiece("r", "", ',');
    assert Split(row, ',') == ["x"] + (["y"] + (["e"] + ["r"]));
  }
}
