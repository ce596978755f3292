/**
  `StudentController` (`api/students`, admins and super-admins): the user
  service with the role fixed to "Student".
 */
module Students {
  import opened Wrappers
  import opened Text
  import opened Guids
  import opened Models
  import opened Identity
  import opened Listing
  import opened Http
  import opened Users

  const StudentRole := "Student"

  /** `GetStudents`: the listing with the role filter fixed to "Student". */
  function GetStudents(users: seq<User>, page: int, pageSize: int, search: Option<string>)
    : (r: Reply<PageResult<UserDto>>)
    ensures r.Ok? || r.ServerError?
    ensures r.ServerError? <==> page < 1 || pageSize < 1
    ensures r.Ok? ==> r.body.totalItems == Count(users, UserFilter(search, Some(StudentRole)))
    ensures r.Ok? ==> forall k :: 0 <= k < |r.body.items| ==> ListedIn(users, r.body.items[k], StudentRole, search)
  {
    GetAllUsersInRole(users, page, pageSize, search, StudentRole);
    GetAllUsers(users, page, pageSize, search, Some(StudentRole))
  }

  /** `GetStudent`: the account when its role is exactly "Student", else 404. */
  function GetStudent(users: seq<User>, id: Guid): (r: Reply<UserDto>)
    ensures r.Ok? || r.NotFound?
    ensures r.Ok? ==> r.body.id == id && r.body.role == StudentRole
    ensures UniqueUserIds(users) ==>
              (r.Ok? <==> exists j :: 0 <= j < |users| && users[j].id == id && users[j].role == StudentRole)
  {
    GetInRole(users, id, StudentRole)
  }

  /**
    `CreateStudent`: the dto's role is replaced by "Student" before the
    service creates the account; a failure the service throws becomes a 500.
   */
  function CreateStudent(st: Store, dto: CreateUserDto, newId: Guid): (r: Step<UserDto>)
    requires UserIdFree(st.users, newId)
    ensures r.reply.Created? || (r.reply.ServerError? && r.reply.fault.CreateUserFailed?)
    ensures r.reply.ServerError? ==> r.store == st
    ensures r.reply.Created? <==>
              CreateAsync(st.users, NewUser(newId, dto.email, Some(dto.fullName), StudentRole), dto.password).Created?
    ensures r.reply.Created? ==>
              && r.reply.body == UserDto(newId, Some(dto.fullName), Some(dto.email), StudentRole)
              && |r.store.users| == |st.users| + 1
              && r.store.users[..|st.users|] == st.users
              && r.store.users[|st.users|].role == StudentRole
              && r.store.users[|st.users|].roles == [StudentRole]
  {
    SeededRolesFound();
    match CreateUser(st.users, dto.(role := StudentRole), newId)
    case Done(users, created) => Step(st.(users := users), Reply.Created(created))
    case Thrown(users, fault) => Step(st.(users := users), ServerError(fault))
  }

  /** `UpdateStudent`: the update with the role forced to "Student". */
  function UpdateStudent(st: Store, id: Guid, dto: UpdateUserDto): (r: Step<UserDto>)
    ensures r.reply.NotFound? <==> UserIdFree(st.users, id)
    ensures r.reply.NotFound? ==> r.store == st
    ensures r.reply.Ok? ==> r.reply.body.role == StudentRole && r.reply.body.id == id
    ensures UniqueUserIds(st.users) && r.reply.Ok? ==> GetStudent(r.store.users, id) == Ok(r.reply.body)
  {
    assert UniqueUserIds(st.users) && !UserIdFree(st.users, id) ==>
             GetStudent(UpdateAs(st, id, dto, StudentRole).store.users, id) == Ok(UpdateAs(st, id, dto, StudentRole).reply.body) by {
      if UniqueUserIds(st.users) && !UserIdFree(st.users, id) {
        UpdateAsThenGet(st, id, dto, StudentRole);
      }
    }
    UpdateAs(st, id, dto, StudentRole)
  }

  /** `DeleteStudent`: removes the account with that id whatever its role. */
  function DeleteStudent(st: Store, id: Guid): (r: Step<UserDto>)
    ensures r.reply.NoContent? <==> !UserIdFree(st.users, id)
    ensures r.reply.NotFound? ==> r.store == st
    ensures UniqueUserIds(st.users) ==> forall u :: u in r.store.users <==> u in st.users && u.id != id
  {
    assert UniqueUserIds(st.users) ==> forall u :: u in DeleteUser(st.users, id).0 <==> u in st.users && u.id != id by {
      if UniqueUserIds(st.users) {
        DeleteUserRemovesExactly(st.users, id);
      }
    }
    DeleteStep(st, id)
  }
}
