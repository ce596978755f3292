/**
  `AdminController` (`api/admins`, super-admin only): the user service with
  the role fixed to "Admin".
 */
module Admins {
  import opened Wrappers
  import opened Text
  import opened Guids
  import opened Models
  import opened Identity
  import opened Listing
  import opened Http
  import opened Users

  const AdminRole := "Admin"

  /**
    `GetAdmins`: the listing with the role filter fixed to "Admin". The
    filter folds case, so every listed account's role reads "admin" in
    lower case.
   */
  function GetAdmins(users: seq<User>, page: int, pageSize: int, search: Option<string>)
    : (r: Reply<PageResult<UserDto>>)
    ensures r.Ok? || r.ServerError?
    ensures r.ServerError? <==> page < 1 || pageSize < 1
    ensures r.Ok? ==> r.body.totalItems == Count(users, UserFilter(search, Some(AdminRole)))
    ensures r.Ok? ==> forall k :: 0 <= k < |r.body.items| ==> ListedIn(users, r.body.items[k], AdminRole, search)
  {
    GetAllUsersInRole(users, page, pageSize, search, AdminRole);
    GetAllUsers(users, page, pageSize, search, Some(AdminRole))
  }

  /** `GetAdmin`: the account when its role is exactly "Admin", else 404. */
  function GetAdmin(users: seq<User>, id: Guid): (r: Reply<UserDto>)
    ensures r.Ok? || r.NotFound?
    ensures r.Ok? ==> r.body.id == id && r.body.role == AdminRole
    ensures UniqueUserIds(users) ==>
              (r.Ok? <==> exists j :: 0 <= j < |users| && users[j].id == id && users[j].role == AdminRole)
  {
    GetInRole(users, id, AdminRole)
  }

  /**
    The listing folds case and the lookup does not: an account whose role is
    "admin" is listed by `GetAdmins` and yet `GetAdmin` answers 404 for it.
   */
  lemma ListedButNotFound()
    ensures var u := NewUser(Empty, "a@b.c", None, "admin");
      && GetAdmins([u], 1, 10, None) == Ok(PageResult([Project(u)], 1, 1, 10))
      && GetAdmin([u], Empty) == NotFound
  {
    var u := NewUser(Empty, "a@b.c", None, "admin");
    assert Lower(u.role) == Lower(AdminRole);
    assert UserMatches(u, None, Some(AdminRole));
    assert Filter([u], UserFilter(None, Some(AdminRole))) == [u] by {
      assert [u][1..] == [];
    }
    FilterUsersSpec([u], None, Some(AdminRole));
    PageIsSlice([u], 1, 10);
    assert ProjectAll([u]) == [Project(u)];
  }

  /**
    `CreateAdmin`: 400 when the e-mail is known (case-insensitively);
    otherwise Identity creates the account with role "Admin" and grants the
    "Admin" membership, and the stored account is the reply.
   */
  function CreateAdmin(st: Store, dto: CreateUserDto, newId: Guid): (r: Step<User>)
    requires UserIdFree(st.users, newId)
    ensures FindByEmail(st.users, dto.email).Some? ==> r == Step(st, BadRequest(EmailExists))
    ensures !r.reply.ServerError?
    ensures r.reply.Created? || r.reply.BadRequest?
    ensures r.reply.BadRequest? ==> r.store == st
    ensures r.reply.Created? <==>
              FindByEmail(st.users, dto.email).None?
              && CreateAsync(st.users, NewUser(newId, dto.email, Some(dto.fullName), AdminRole), dto.password).Created?
    ensures r.reply.Created? ==>
              && r.store == st.(users := st.users + [r.reply.body])
              && r.reply.body.id == newId
              && r.reply.body.email == Some(dto.email)
              && r.reply.body.role == AdminRole
              && r.reply.body.roles == [AdminRole]
  {
    if FindByEmail(st.users, dto.email).Some? then Step(st, BadRequest(EmailExists))
    else
      var u := NewUser(newId, dto.email, Some(dto.fullName), AdminRole);
      SeededRolesFound();
      var p := CreateWithRole(st.users, u, dto.password, AdminRole);
      assert !p.ProvisionFault? && (p.Provisioned? <==> CreateAsync(st.users, u, dto.password).Created?);
      Settle(st, p, Reply.Created(Stored(u).(roles := [AdminRole])))
  }

  /** A created admin is found by the role-gated lookup. */
  lemma CreatedAdminIsFound(st: Store, dto: CreateUserDto, newId: Guid)
    requires UserIdFree(st.users, newId) && UniqueUserIds(st.users)
    requires CreateAdmin(st, dto, newId).reply.Created?
    ensures var r := CreateAdmin(st, dto, newId);
      GetAdmin(r.store.users, newId).Ok?
  {
    var r := CreateAdmin(st, dto, newId);
    var users := r.store.users;
    assert users[|st.users|].id == newId && users[|st.users|].role == AdminRole;
    assert UniqueUserIds(users);
  }

  /** `UpdateAdmin`: the update with the role forced to "Admin". */
  function UpdateAdmin(st: Store, id: Guid, dto: UpdateUserDto): (r: Step<UserDto>)
    ensures r.reply.NotFound? <==> UserIdFree(st.users, id)
    ensures r.reply.NotFound? ==> r.store == st
    ensures r.reply.Ok? ==> r.reply.body.role == AdminRole && r.reply.body.id == id
    ensures UniqueUserIds(st.users) && r.reply.Ok? ==> GetAdmin(r.store.users, id) == Ok(r.reply.body)
  {
    assert UniqueUserIds(st.users) && !UserIdFree(st.users, id) ==>
             GetAdmin(UpdateAs(st, id, dto, AdminRole).store.users, id) == Ok(UpdateAs(st, id, dto, AdminRole).reply.body) by {
      if UniqueUserIds(st.users) && !UserIdFree(st.users, id) {
        UpdateAsThenGet(st, id, dto, AdminRole);
      }
    }
    UpdateAs(st, id, dto, AdminRole)
  }

  /** `DeleteAdmin`: removes the account with that id whatever its role. */
  function DeleteAdmin(st: Store, id: Guid): (r: Step<UserDto>)
    ensures r.reply.NoContent? <==> !UserIdFree(st.users, id)
    ensures r.reply.NotFound? ==> r.store == st
    ensures UniqueUserIds(st.users) ==> forall u :: u in r.store.users <==> u in st.users && u.id != id
  {
    assert UniqueUserIds(st.users) ==> forall u :: u in DeleteUser(st.users, id).0 <==> u in st.users && u.id != id by {
      if UniqueUserIds(st.users) {
        DeleteUserRemovesExactly(st.users, id);
      }
    }
    DeleteStep(st, id)
  }
}
