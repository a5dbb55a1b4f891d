/** The HTTP exceptions the services raise, with the reason each one reports. */
module Errors {

  /** Why an operation was refused. */
  datatype Reason =
    // tree engine
    | NodeMissing(id: nat)
    | SelfParent
    | UnderOwnDescendant
    | DepthExceeded
    // generic CRUD
    | EntityMissing(id: nat)
    // users
    | UsernameTaken
    | EmailTaken
    | PhoneTaken
    | WrongOldPassword
    | SamePassword
    | SomeRolesMissing
    | RoleNotHeld(roleId: nat)
    // authentication
    | BadCredentials
    | AccountLocked
    | AccountInactive
    | AccountSuspended
    | AccountPending
    | TooManyAttempts
    | TokenInvalid

  /** The exception class a service throws, carrying its reason. */
  datatype Failure =
    | BadRequest(why: Reason)
    | Unauthorized(why: Reason)
    | NotFound(why: Reason)
    | Conflict(why: Reason)

  /** The HTTP status code of each exception class. */
  function StatusOf(f: Failure): (code: nat)
    ensures 400 <= code < 500
  {
    match f
    case BadRequest(_) => 400
    case Unauthorized(_) => 401
    case NotFound(_) => 404
    case Conflict(_) => 409
  }
}
