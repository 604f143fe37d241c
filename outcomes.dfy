/** Results and errors shared by the domain, the repository and the use cases. */
module Outcomes {

  /** One tag per error the user-management core raises, in place of its message strings. */
  datatype Error =
    | EmptyUserId    // "UserId cannot be empty"
    | InvalidEmail   // raised by the Email value object
    | EmptyName      // "User name cannot be empty"
    | UserNotFound   // "User not found"
    | EmailTaken     // "User with this email already exists"
    | EmailInUse     // "Email already in use by another user"
    | StorageError   // a constraint violation reported by the store
  {
    /** The kind a caller switches on. */
    function Kind(): ErrorKind {
      match this
      case EmptyUserId | InvalidEmail | EmptyName => Validation
      case UserNotFound => NotFound
      case EmailTaken | EmailInUse => Conflict
      case StorageError => Storage
    }
  }

  datatype ErrorKind = Validation | NotFound | Conflict | Storage

  datatype Option<+T> = None | Some(value: T)

  /** A value or the error that was thrown instead; usable with `:-`. */
  datatype Result<+T> = Ok(value: T) | Err(error: Error) {
    predicate IsFailure() {
      Err?
    }

    function PropagateFailure<U>(): Result<U>
      requires Err?
    {
      Err(error)
    }

    function Extract(): T
      requires Ok?
    {
      value
    }
  }
}
