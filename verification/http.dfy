/**
  The shapes of the controllers' replies. `IActionResult` becomes a
  datatype over the status codes the core returns; a thrown exception that
  ASP.NET turns into a 500 response is `ServerError` with the reason.
 */
module Http {
  import opened Identity
  import opened Models

  /** Why a request was refused with 400 Bad Request. */
  datatype Reason =
    | EmailExists
    | IdentityErrors(errors: seq<IdentityError>)
    | InvalidUser
    | InvalidTwoFactorCode
    | OtpTooSoon
    | OtpInvalidOrExpired

  /** Exceptions that escape an action. */
  datatype Fault =
    | RoleDoesNotExist
    | CreateUserFailed(errors: seq<IdentityError>)
    | InvalidGoogleCredential
    | InvalidToken
    | GuidFormat
    | InvalidPaging
      /** The insert of a user whose required `FullName` is null violates its NOT NULL column. */
    | NullFullName

  datatype Reply<+T> =
    | Ok(body: T)
    | Created(body: T)
    | NoContent
    | BadRequest(reason: Reason)
    | Unauthorized
    | NotFound
    | ServerError(fault: Fault)

  /** The store after a request, and the reply sent. */
  datatype Step<+T> = Step(store: Store, reply: Reply<T>)

  /**
    The reply for a provisioning attempt: Identity's errors as a 400, an
    unknown role as the exception it raises after the user was saved, or
    `success` with the new user stored.
   */
  function Settle<T>(st: Store, p: Provision, success: Reply<T>): (r: Step<T>)
    ensures p.ProvisionRejected? ==> r == Step(st, BadRequest(IdentityErrors(p.errors)))
    ensures p.ProvisionFault? ==> r == Step(st.(users := p.users), ServerError(RoleDoesNotExist))
    ensures p.Provisioned? ==> r == Step(st.(users := p.users), success)
  {
    match p
    case ProvisionRejected(errors) => Step(st, BadRequest(IdentityErrors(errors)))
    case ProvisionFault(users) => Step(st.(users := users), ServerError(RoleDoesNotExist))
    case Provisioned(users) => Step(st.(users := users), success)
  }
}
