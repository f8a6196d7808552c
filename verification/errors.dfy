/**
 * Outcomes of the service operations. Each exception the services throw is
 * one constructor of `Error`; the two page-size errors carry the fallback
 * page that was computed before the error was raised.
 */
module Errors {

  datatype Error<+P> =
    | UserNotFound
    | BookClubNotFound
    | MembershipNotFound
    | MembershipRequestNotFound
    | Unauthorized
    | BadAction
    | PageSizeTooSmall(payload: P)
    | PageSizeTooLarge(payload: P)
      /** Spring Data's PageRequest refuses a negative page index or a page size below one. */
    | InvalidPageRequest
      /** The unique constraint on a club's name refuses the save. */
    | NameNotUnique

  datatype Result<+T> = Ok(value: T) | Err(error: Error<T>)
}
