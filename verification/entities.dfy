/**
 * The persisted records of the book club core and the enumerations they use:
 * a club, a user's membership in a club, and a user's request to join a club.
 * Identifiers generated by the database (UUIDs) are natural numbers here, and
 * a timestamp is an abstract clock reading supplied by the caller.
 */
module Entities {

  datatype Option<+T> = None | Some(value: T)

  /** Identity of an application user (app_user.id). */
  type UserId = nat
  /** A generated row identifier (book_club.id, book_club_users.id, membership_request.id). */
  type Id = nat
  /** A clock reading, standing in for LocalDateTime.now(). */
  type Time = int

  datatype BookClubRole = NONE | USER | ADMIN
  datatype RequestStatus = OPEN | APPROVED | REJECTED
  datatype RequestAction = APPROVE | REJECT
  datatype Publicity = PUBLIC | PRIVATE

  /** A club; `disbanded` is None while the club is active. */
  datatype BookClub = BookClub(
    id: Id,
    name: string,
    imageFileName: string,
    description: string,
    publicity: Publicity,
    created: Time,
    disbanded: Option<Time>)

  /** A user's membership in one club; `departed` is None while the membership is active. */
  datatype BookClubMembership = BookClubMembership(
    id: Id,
    clubId: Id,
    userId: UserId,
    clubRole: BookClubRole,
    isOwner: bool,
    joined: Time,
    departed: Option<Time>)

  /** A user's request to join a club, and the outcome of its review. */
  datatype MembershipRequest = MembershipRequest(
    id: Id,
    userId: UserId,
    clubId: Id,
    message: Option<string>,
    status: RequestStatus,
    role: Option<BookClubRole>,
    viewed: bool,
    reviewer: Option<UserId>,
    reviewMessage: Option<string>,
    requested: Time,
    reviewed: Option<Time>)

  /**
   * The club the payload mapper produces: every payload field is copied as
   * given, `created` is the clock reading and `disbanded` is unset.
   */
  function NewBookClub(id: Id, name: string, imageFileName: string, description: string, publicity: Publicity,
                       now: Time): (c: BookClub)
  {
    BookClub(id, name, imageFileName, description, publicity, now, None)
  }

  /**
   * The membership the entity builder produces: role defaults to USER,
   * ownership to false, `joined` to the clock reading, and `departed` is unset.
   */
  function NewMembership(id: Id, clubId: Id, userId: UserId,
                         clubRole: Option<BookClubRole>, isOwner: Option<bool>,
                         now: Time): (m: BookClubMembership)
  {
    BookClubMembership(id, clubId, userId,
                       if clubRole.Some? then clubRole.value else USER,
                       if isOwner.Some? then isOwner.value else false,
                       now, None)
  }

  /**
   * The request the entity builder produces: status OPEN, not viewed,
   * `requested` the clock reading, and every review field unset.
   */
  function NewRequest(id: Id, userId: UserId, clubId: Id, message: Option<string>, now: Time): (q: MembershipRequest)
  {
    MembershipRequest(id, userId, clubId, message, OPEN, None, false, None, None, now, None)
  }
}
