/**
 * The membership request workflow: a user asks to join a club, checks
 * whether a request is pending, and a club ADMIN lists the club's requests
 * and approves or rejects one. Approval adds the requester as a member with
 * the chosen role. A request is reviewed at most once.
 *
 * Membership in the club is read from the club's member collection, which
 * holds every membership row of the club, departed ones included.
 */
module RequestService {
  import opened Entities
  import opened Errors
  import opened Seqs
  import opened Store
  import opened Paging
  import opened RequestRepo
  import MembershipRepo
  import ClubRepo

  /**
   * requestMembership, as decided on the stored clubs before the call: a new
   * OPEN request by the caller for the named club, under the next free id.
   * There is no test for an open request already made, for an existing
   * membership, or for the club being private.
   */
  function RequestOutcome(cs: seq<BookClub>, next: Id, user: Option<UserId>, clubName: string, message: Option<string>,
                          now: Time): (r: Result<MembershipRequest>)
  {
    if user.None? then Err(UserNotFound)
    else
      var club := ClubRepo.FindByName(cs, clubName);
      if club.None? then Err(BookClubNotFound)
      else Ok(NewRequest(next, user.value, club.value.id, message, now))
  }

  /** The guards of requestMembership, and the fresh, unreviewed request a success stores. */
  lemma RequestOutcomeSpec(cs: seq<BookClub>, next: Id, user: Option<UserId>, clubName: string, message: Option<string>,
                           now: Time)
    ensures var r := RequestOutcome(cs, next, user, clubName, message, now);
      && (user.None? ==> r == Err(UserNotFound))
      && ((user.Some? && forall c :: c in cs ==> c.name != clubName) ==> r == Err(BookClubNotFound))
      && (r.Ok? <==> user.Some? && exists c :: c in cs && c.name == clubName)
      && (r.Ok? ==>
            && ClubRepo.InClubNamed(cs, clubName, r.value.clubId)
            && r.value.id == next && r.value.userId == user.value && r.value.message == message
            && r.value.status == OPEN && !r.value.viewed && r.value.requested == now
            && r.value.role.None? && r.value.reviewer.None? && r.value.reviewMessage.None? && r.value.reviewed.None?)
  {
  }

  /** Storing a new request keeps the store valid. */
  lemma RequestKeepsValid(cs: seq<BookClub>, ms: seq<BookClubMembership>, rs: seq<MembershipRequest>, next: Id,
                          user: Option<UserId>, clubName: string, message: Option<string>, now: Time)
    requires StoreValid(cs, ms, rs, next)
    requires RequestOutcome(cs, next, user, clubName, message, now).Ok?
    ensures StoreValid(cs, ms, rs + [RequestOutcome(cs, next, user, clubName, message, now).value], next + 1)
  {
    var q := RequestOutcome(cs, next, user, clubName, message, now).value;
    assert q.clubId in ClubIds(cs);
    AppendRequestValid(cs, ms, rs, next, q);
  }

  /** requestMembership: applies RequestOutcome, appending the request. */
  method RequestMembership(db: Database, user: Option<UserId>, clubName: string, message: Option<string>, now: Time)
    returns (r: Result<MembershipRequest>)
    requires db.Valid()
    modifies db
    ensures db.Valid()
    ensures r == RequestOutcome(old(db.clubs), old(db.nextId), user, clubName, message, now)
    ensures r.Ok? ==> db.requests == old(db.requests) + [r.value] && db.nextId == old(db.nextId) + 1
    ensures r.Err? ==> db.requests == old(db.requests) && db.nextId == old(db.nextId)
    ensures db.clubs == old(db.clubs) && db.memberships == old(db.memberships)
    ensures db.departedUsers == old(db.departedUsers)
  {
    var rs, next := db.requests, db.nextId;
    r := RequestOutcome(db.clubs, next, user, clubName, message, now);
    if r.Ok? {
      RequestKeepsValid(db.clubs, db.memberships, rs, next, user, clubName, message, now);
      db.requests, db.nextId := rs + [r.value], next + 1;
    }
  }

  /** hasPendingRequest: whether the caller has an OPEN request for the named club. */
  function HasPendingRequest(db: Database, user: Option<UserId>, clubName: string): (r: Result<bool>)
    reads db
    ensures user.None? <==> r == Err(UserNotFound)
    ensures r.Ok? ==>
      (r.value <==> exists q :: q in db.requests && ByUserForNamedClub(db.clubs, clubName, user.value, q) && q.status == OPEN)
  {
    if user.None? then Err(UserNotFound)
    else Ok(ExistsByBookClubNameAndUserIdAndStatus(db.clubs, db.requests, clubName, user.value, OPEN))
  }

  /**
   * getMembershipRequestsForBookClub: the club's requests, newest first, for
   * a caller whose membership row in the club has the ADMIN role. A caller
   * with no row at all gets UserNotFound, not Unauthorized.
   */
  function GetMembershipRequestsForBookClub(db: Database, user: Option<UserId>, clubName: string,
                                            pageNum: int, pageSize: int)
    : (r: Result<Page<MembershipRequest>>)
    reads db
    ensures user.None? ==> r == Err(UserNotFound)
    ensures user.Some? && (forall c :: c in db.clubs ==> c.name != clubName) ==> r == Err(BookClubNotFound)
    ensures user.Some? && (exists c :: c in db.clubs && c.name == clubName) ==>
      var c := ClubRepo.FindByName(db.clubs, clubName).value;
      && (r == Err(UserNotFound) <==> forall m :: m in db.memberships ==> !(m.clubId == c.id && m.userId == user.value))
      && (r == Err(Unauthorized) ==>
            exists m :: m in db.memberships && m.clubId == c.id && m.userId == user.value && m.clubRole != ADMIN)
      && (r != Err(UserNotFound) && r != Err(Unauthorized) ==>
            && (exists m :: m in db.memberships && m.clubId == c.id && m.userId == user.value && m.clubRole == ADMIN)
            && (pageNum >= 0 ==> Delivered(r).Some?))
    ensures Delivered(r).Some? ==> forall q :: q in Delivered(r).value.content ==>
      q in db.requests && ClubRepo.InClubNamed(db.clubs, clubName, q.clubId)
    ensures r.Ok? ==> 1 <= r.value.size <= MaxPageSize && r.value.size == pageSize && r.value.number == pageNum
    ensures (user.Some? && ClubRepo.FindByName(db.clubs, clubName).Some? &&
             r != Err(UserNotFound) && r != Err(Unauthorized)) ==>
      r == Paginate(FindAllByBookClubIdOrderByRequestedDesc(db.requests, ClubRepo.FindByName(db.clubs, clubName).value.id),
                    pageNum, pageSize, 1)
  {
    if user.None? then Err(UserNotFound)
    else
      var club := ClubRepo.FindByName(db.clubs, clubName);
      if club.None? then Err(BookClubNotFound)
      else
        var row := MembershipRepo.FindByBookClubIdAndUserId(db.memberships, club.value.id, user.value);
        if row.None? then Err(UserNotFound)
        else if row.value.clubRole != ADMIN then Err(Unauthorized)
        else
          var rows := FindAllByBookClubIdOrderByRequestedDesc(db.requests, club.value.id);
          DeliveredFromRows(rows, pageNum, pageSize, 1);
          assert pageNum >= 0 ==> Delivered(Paginate(rows, pageNum, pageSize, 1)).Some? by {
            if pageNum >= 0 { PaginateAlwaysDelivers(rows, pageNum, pageSize, 1); }
          }
          Paginate(rows, pageNum, pageSize, 1)
  }

  /** The request as saved by a review: its outcome fields set, with the reviewer recorded. */
  function ReviewOutcome(q: MembershipRequest, reviewer: UserId, action: RequestAction, role: BookClubRole,
                         reviewMessage: Option<string>, now: Time): (r: MembershipRequest)
  {
    q.(status := if action == APPROVE then APPROVED else REJECTED,
       role := Some(if action == APPROVE then role else NONE),
       reviewer := Some(reviewer),
       reviewMessage := reviewMessage,
       reviewed := Some(now))
  }

  /**
   * A review keeps the request's identity, author, club, message and
   * request time, closes it (APPROVED exactly on approval, REJECTED
   * otherwise), and records the role granted (NONE on rejection), the
   * reviewer, the message and the time: the review fields are consistent.
   */
  lemma ReviewOutcomeFields(q: MembershipRequest, reviewer: UserId, action: RequestAction, role: BookClubRole,
                            reviewMessage: Option<string>, now: Time)
    ensures var r := ReviewOutcome(q, reviewer, action, role, reviewMessage, now);
      && r.id == q.id && r.userId == q.userId && r.clubId == q.clubId && r.message == q.message
      && r.requested == q.requested && r.viewed == q.viewed
      && r.status != OPEN && (r.status == APPROVED <==> action == APPROVE)
      && r.role == Some(if action == APPROVE then role else NONE)
      && r.reviewer == Some(reviewer) && r.reviewMessage == reviewMessage && r.reviewed == Some(now)
      && ReviewConsistent(r)
  {
  }

  /**
   * reviewMembershipRequest, as decided on the tables before the call: an
   * ADMIN of the request's club approves or rejects an OPEN request.
   * Guards, in order: signed in; the request exists; the caller has a
   * membership row in the club (else UserNotFound), with the ADMIN role;
   * the request is OPEN; on approval, the requester has no membership row
   * in the club, departed ones included. Both membership tests stream over
   * the club's members, which finds the row the lookup by club id and user
   * finds. The outcome is the reviewed request.
   */
  function ReviewRequestOutcome(ms: seq<BookClubMembership>, rs: seq<MembershipRequest>, user: Option<UserId>,
                                requestId: Id, action: RequestAction, role: BookClubRole, reviewMessage: Option<string>,
                                now: Time): (r: Result<MembershipRequest>)
  {
    if user.None? then Err(UserNotFound)
    else
      var found := FindById(rs, requestId);
      if found.None? then Err(MembershipRequestNotFound)
      else
        var q := found.value;
        var row := MembershipRepo.FindByBookClubIdAndUserId(ms, q.clubId, user.value);
        if row.None? then Err(UserNotFound)
        else if row.value.clubRole != ADMIN then Err(Unauthorized)
        else if q.status != OPEN then Err(BadAction)
        else if action == APPROVE && MembershipRepo.FindByBookClubIdAndUserId(ms, q.clubId, q.userId).Some? then
          Err(BadAction)
        else Ok(ReviewOutcome(q, user.value, action, role, reviewMessage, now))
  }

  /**
   * The guards of reviewMembershipRequest in their order, and what a
   * success rests on: a stored OPEN request, reviewed by an ADMIN of its
   * club, whose author, on approval, is not yet in the club.
   */
  lemma ReviewRequestOutcomeSpec(ms: seq<BookClubMembership>, rs: seq<MembershipRequest>, user: Option<UserId>,
                                 requestId: Id, action: RequestAction, role: BookClubRole, reviewMessage: Option<string>,
                                 now: Time)
    ensures var r := ReviewRequestOutcome(ms, rs, user, requestId, action, role, reviewMessage, now);
      && (user.None? ==> r == Err(UserNotFound))
      && ((user.Some? && forall q :: q in rs ==> q.id != requestId) ==> r == Err(MembershipRequestNotFound))
      && ((user.Some? && FindById(rs, requestId).Some?) ==>
            var q := FindById(rs, requestId).value;
            var row := MembershipRepo.FindByBookClubIdAndUserId(ms, q.clubId, user.value);
            && ((forall m :: m in ms ==> !(m.clubId == q.clubId && m.userId == user.value)) ==> r == Err(UserNotFound))
            && (row.Some? && row.value.clubRole != ADMIN ==> r == Err(Unauthorized))
            && (row.Some? && row.value.clubRole == ADMIN && q.status != OPEN ==> r == Err(BadAction))
            && ((row.Some? && row.value.clubRole == ADMIN && q.status == OPEN && action == APPROVE &&
                 exists m :: m in ms && m.clubId == q.clubId && m.userId == q.userId) ==> r == Err(BadAction))
            && ((row.Some? && row.value.clubRole == ADMIN && q.status == OPEN &&
                 (action == APPROVE ==> forall m :: m in ms ==> !(m.clubId == q.clubId && m.userId == q.userId))) ==>
                  r == Ok(ReviewOutcome(q, user.value, action, role, reviewMessage, now))))
      && (r.Ok? ==>
            && user.Some?
            && (exists q :: q in rs && q.id == requestId && q.status == OPEN &&
                            r.value == ReviewOutcome(q, user.value, action, role, reviewMessage, now))
            && (exists m :: m in ms && m.clubId == r.value.clubId && m.userId == user.value && m.clubRole == ADMIN)
            && (action == APPROVE ==> forall m :: m in ms ==> !(m.clubId == r.value.clubId && m.userId == r.value.userId)))
  {
    var r := ReviewRequestOutcome(ms, rs, user, requestId, action, role, reviewMessage, now);
    if r.Ok? {
      var q := FindById(rs, requestId).value;
      assert r.value == ReviewOutcome(q, user.value, action, role, reviewMessage, now);
      assert MembershipRepo.FindByBookClubIdAndUserId(ms, q.clubId, user.value).value in ms;
    }
  }

  /** The membership an approval adds: the requester, with the chosen role, not an owner. */
  function ApprovedRow(id: Id, q: MembershipRequest, role: BookClubRole, now: Time): (m: BookClubMembership)
  {
    NewMembership(id, q.clubId, q.userId, Some(role), None, now)
  }

  /** The membership table after a successful review: an approval appends the requester's new row, a rejection changes nothing. */
  function MembersAfterReview(ms: seq<BookClubMembership>, next: Id, q: MembershipRequest, action: RequestAction,
                              role: BookClubRole, now: Time): (ms': seq<BookClubMembership>)
  {
    if action == APPROVE then ms + [ApprovedRow(next, q, role, now)] else ms
  }

  /** The id generator after a successful review: only an approval, which stores a row, draws an id. */
  function NextIdAfterReview(next: Id, action: RequestAction): (next': Id)
  {
    if action == APPROVE then next + 1 else next
  }

  /** A review keeps the store valid: the reviewed request replaces the stored one, and an approval adds one membership. */
  lemma ReviewKeepsValid(cs: seq<BookClub>, ms: seq<BookClubMembership>, rs: seq<MembershipRequest>, next: Id,
                         user: Option<UserId>, requestId: Id, action: RequestAction, role: BookClubRole,
                         reviewMessage: Option<string>, now: Time)
    requires StoreValid(cs, ms, rs, next)
    requires ReviewRequestOutcome(ms, rs, user, requestId, action, role, reviewMessage, now).Ok?
    ensures var q := ReviewRequestOutcome(ms, rs, user, requestId, action, role, reviewMessage, now).value;
      StoreValid(cs, MembersAfterReview(ms, next, q, action, role, now), SaveRequest(rs, q), NextIdAfterReview(next, action))
  {
    var stored := FindById(rs, requestId).value;
    var q := ReviewRequestOutcome(ms, rs, user, requestId, action, role, reviewMessage, now).value;
    assert q == ReviewOutcome(stored, user.value, action, role, reviewMessage, now);
    ReviewOutcomeFields(stored, user.value, action, role, reviewMessage, now);
    if action == APPROVE {
      ApprovalKeepsValid(cs, ms, rs, next, stored, q, ApprovedRow(next, q, role, now));
      assert MembersAfterReview(ms, next, q, action, role, now) == ms + [ApprovedRow(next, q, role, now)];
    } else {
      RejectionKeepsValid(cs, ms, rs, next, stored, q);
      assert MembersAfterReview(ms, next, q, action, role, now) == ms;
    }
  }

  /**
   * reviewMembershipRequest: applies ReviewRequestOutcome. On approval the
   * requester's membership is stored first; the reviewed request is then
   * saved over the stored one.
   */
  method ReviewMembershipRequest(db: Database, user: Option<UserId>, requestId: Id, action: RequestAction,
                                 role: BookClubRole, reviewMessage: Option<string>, now: Time)
    returns (r: Result<MembershipRequest>)
    requires db.Valid()
    modifies db
    ensures db.Valid()
    ensures r == ReviewRequestOutcome(old(db.memberships), old(db.requests), user, requestId, action, role,
                                      reviewMessage, now)
    ensures r.Ok? ==>
      && db.memberships == MembersAfterReview(old(db.memberships), old(db.nextId), r.value, action, role, now)
      && db.requests == SaveRequest(old(db.requests), r.value)
      && db.nextId == NextIdAfterReview(old(db.nextId), action)
    ensures r.Err? ==> db.memberships == old(db.memberships) && db.requests == old(db.requests) && db.nextId == old(db.nextId)
    ensures db.clubs == old(db.clubs) && db.departedUsers == old(db.departedUsers)
  {
    var ms, rs, next := db.memberships, db.requests, db.nextId;
    r := ReviewRequestOutcome(ms, rs, user, requestId, action, role, reviewMessage, now);
    if r.Ok? {
      ReviewKeepsValid(db.clubs, ms, rs, next, user, requestId, action, role, reviewMessage, now);
      db.memberships, db.requests, db.nextId :=
        MembersAfterReview(ms, next, r.value, action, role, now), SaveRequest(rs, r.value), NextIdAfterReview(next, action);
    }
  }

  /** Saving the reviewed form of a stored OPEN request, with no new membership, keeps the store valid. */
  lemma RejectionKeepsValid(cs: seq<BookClub>, ms: seq<BookClubMembership>, rs: seq<MembershipRequest>, next: Id,
                            q: MembershipRequest, reviewed: MembershipRequest)
    requires StoreValid(cs, ms, rs, next)
    requires q in rs && reviewed.id == q.id && reviewed.clubId == q.clubId && ReviewConsistent(reviewed)
    ensures StoreValid(cs, ms, SaveRequest(rs, reviewed), next)
  {
    var k :| 0 <= k < |rs| && rs[k] == q;
    SaveRequestAt(rs, ClubIds(cs), next, k, reviewed);
    ReplaceRequestValid(cs, ms, rs, next, k, reviewed);
  }

  /**
   * Adding the approved requester's membership, when the requester has no
   * row in the club, and saving the reviewed request keeps the store valid.
   */
  lemma ApprovalKeepsValid(cs: seq<BookClub>, ms: seq<BookClubMembership>, rs: seq<MembershipRequest>, next: Id,
                           q: MembershipRequest, reviewed: MembershipRequest, m: BookClubMembership)
    requires StoreValid(cs, ms, rs, next)
    requires q in rs && reviewed.id == q.id && reviewed.clubId == q.clubId && ReviewConsistent(reviewed)
    requires m.id == next && m.clubId == q.clubId && !m.isOwner
    requires forall x :: x in ms ==> !(x.clubId == m.clubId && x.userId == m.userId)
    ensures StoreValid(cs, ms + [m], SaveRequest(rs, reviewed), next + 1)
  {
    var k :| 0 <= k < |rs| && rs[k] == q;
    assert q.clubId in ClubIds(cs);
    forall i | 0 <= i < |ms| ensures ms[i].clubId != m.clubId || ms[i].userId != m.userId {
      assert ms[i] in ms;
    }
    AppendMembershipValid(cs, ms, rs, next, m);
    SaveRequestAt(rs, ClubIds(cs), next + 1, k, reviewed);
    ReplaceRequestValid(cs, ms + [m], rs, next + 1, k, reviewed);
  }

  /** A new request is pending: right after it is stored, its author has an OPEN request for that club. */
  lemma StoredRequestIsPending(cs: seq<BookClub>, rs: seq<MembershipRequest>, name: string, user: UserId,
                               q: MembershipRequest)
    requires ClubRepo.InClubNamed(cs, name, q.clubId) && q.userId == user && q.status == OPEN
    ensures ExistsByBookClubNameAndUserIdAndStatus(cs, rs + [q], name, user, OPEN)
  {
    assert q in rs + [q];
  }

  /**
   * A reviewed request is never OPEN again, so the status guard refuses
   * every later review of it, whoever makes it.
   */
  lemma ReviewIsFinal(q: MembershipRequest, reviewer: UserId, action: RequestAction, role: BookClubRole,
                      reviewMessage: Option<string>, now: Time, rs: seq<MembershipRequest>)
    requires forall a, b :: 0 <= a < b < |rs| ==> rs[a].id != rs[b].id
    requires ReviewOutcome(q, reviewer, action, role, reviewMessage, now) in rs
    ensures FindById(rs, q.id).Some? && FindById(rs, q.id).value.status != OPEN
  {
    var t := ReviewOutcome(q, reviewer, action, role, reviewMessage, now);
    ReviewOutcomeFields(q, reviewer, action, role, reviewMessage, now);
    var f := FindById(rs, q.id).value;
    var i :| 0 <= i < |rs| && rs[i] == t;
    var j :| 0 <= j < |rs| && rs[j] == f;
    assert i == j;
  }
}
