/**
 * The membership request finders of the repository layer, and its one
 * modifying query.
 */
module RequestRepo {
  import opened Entities
  import opened Seqs
  import opened Store
  import ClubRepo

  /** The request was made by `user` for the club stored under `name`. */
  predicate ByUserForNamedClub(cs: seq<BookClub>, name: string, user: UserId, q: MembershipRequest)
  {
    ClubRepo.InClubNamed(cs, name, q.clubId) && q.userId == user
  }

  /** existsByBookClubNameAndUserIdAndStatus: some request of (club name, user) has exactly that status. */
  function ExistsByBookClubNameAndUserIdAndStatus(cs: seq<BookClub>, rs: seq<MembershipRequest>,
                                                  name: string, user: UserId, status: RequestStatus): (r: bool)
    ensures r <==> exists q :: q in rs && ByUserForNamedClub(cs, name, user, q) && q.status == status
  {
    Find(rs, (q: MembershipRequest) => ByUserForNamedClub(cs, name, user, q) && q.status == status).Some?
  }

  /** existsByBookClubNameAndUserIdAndStatusIn: some request of (club name, user) has one of the statuses. */
  function ExistsByBookClubNameAndUserIdAndStatusIn(cs: seq<BookClub>, rs: seq<MembershipRequest>,
                                                    name: string, user: UserId, statuses: seq<RequestStatus>): (r: bool)
    ensures r <==> exists q :: q in rs && ByUserForNamedClub(cs, name, user, q) && q.status in statuses
  {
    Find(rs, (q: MembershipRequest) => ByUserForNamedClub(cs, name, user, q) && q.status in statuses).Some?
  }

  /** The status-set test is the disjunction of the single-status tests over its members. */
  lemma StatusInIsAnyStatus(cs: seq<BookClub>, rs: seq<MembershipRequest>, name: string, user: UserId,
                            statuses: seq<RequestStatus>)
    ensures ExistsByBookClubNameAndUserIdAndStatusIn(cs, rs, name, user, statuses) <==>
            exists s :: s in statuses && ExistsByBookClubNameAndUserIdAndStatus(cs, rs, name, user, s)
  {
    if ExistsByBookClubNameAndUserIdAndStatusIn(cs, rs, name, user, statuses) {
      var q :| q in rs && ByUserForNamedClub(cs, name, user, q) && q.status in statuses;
      assert ExistsByBookClubNameAndUserIdAndStatus(cs, rs, name, user, q.status);
    }
  }

  /** The ordering key of findAllByBookClubIdOrderByRequestedDesc: the latest request has the smallest key. */
  function RequestedDesc(q: MembershipRequest): (k: int)
  {
    -q.requested
  }

  /** findAllByBookClubIdOrderByRequestedDesc: every request for the club, newest first. */
  function FindAllByBookClubIdOrderByRequestedDesc(rs: seq<MembershipRequest>, clubId: Id): (r: seq<MembershipRequest>)
    ensures forall q :: q in r <==> q in rs && q.clubId == clubId
    ensures forall i, j :: 0 <= i < j < |r| ==> r[i].requested >= r[j].requested
    ensures |r| <= |rs|
    ensures forall q :: multiset(r)[q] == if q.clubId == clubId then multiset(rs)[q] else 0
  {
    var rows := Filter(rs, (q: MembershipRequest) => q.clubId == clubId);
    var r := SortBy(rows, RequestedDesc);
    forall q ensures q in r <==> q in rows { SortByKeepsRows(rows, RequestedDesc, q); }
    assert forall i, j :: 0 <= i < j < |r| ==> RequestedDesc(r[i]) <= RequestedDesc(r[j]);
    r
  }

  /** findById: the request with that id. */
  function FindById(rs: seq<MembershipRequest>, id: Id): (r: Option<MembershipRequest>)
    ensures r.Some? ==> r.value in rs && r.value.id == id
    ensures r.None? <==> forall q :: q in rs ==> q.id != id
  {
    Find(rs, (q: MembershipRequest) => q.id == id)
  }

  /** The row after the review UPDATE, when it is the targeted one; the reviewer column is not in the SET list. */
  function Reviewed(q: MembershipRequest, id: Id, status: RequestStatus, role: Option<BookClubRole>,
                    reviewMessage: Option<string>, reviewed: Option<Time>): (r: MembershipRequest)
  {
    if q.id == id then q.(status := status, role := role, reviewMessage := reviewMessage, reviewed := reviewed) else q
  }

  /**
   * reviewMembershipRequest: the bulk UPDATE that sets status, role, review
   * message and review time of the row with that id, returning the number of
   * rows it changed. The reviewer, viewed flag and every other column keep
   * their values, and every other row is untouched.
   */
  method ReviewMembershipRequest(db: Database, id: Id, status: RequestStatus, role: Option<BookClubRole>,
                                 reviewMessage: Option<string>, reviewed: Option<Time>)
    returns (count: nat)
    modifies db
    ensures |db.requests| == |old(db.requests)|
    ensures forall i :: 0 <= i < |db.requests| ==>
      db.requests[i] == Reviewed(old(db.requests)[i], id, status, role, reviewMessage, reviewed)
    ensures forall i :: 0 <= i < |db.requests| ==>
      db.requests[i].reviewer == old(db.requests)[i].reviewer && db.requests[i].viewed == old(db.requests)[i].viewed
    ensures count == Count(old(db.requests), (q: MembershipRequest) => q.id == id)
    ensures count == 0 <==> forall q :: q in old(db.requests) ==> q.id != id
    ensures db.clubs == old(db.clubs) && db.memberships == old(db.memberships)
    ensures db.departedUsers == old(db.departedUsers) && db.nextId == old(db.nextId)
  {
    var rs := db.requests;
    db.requests := seq(|rs|, i requires 0 <= i < |rs| => Reviewed(rs[i], id, status, role, reviewMessage, reviewed));
    count := Count(rs, (q: MembershipRequest) => q.id == id);
    assert count == 0 <==> forall k :: 0 <= k < |rs| ==> rs[k].id != id;
  }
}
