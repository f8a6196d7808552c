/**
 * Client runs of the services on a fresh store, each stating what the
 * service contracts guarantee about a whole flow. Each step's outcome on
 * the concrete tables is settled by a small lemma about the outcome
 * function the service applies.
 */
module Scenarios {
  import opened Entities
  import opened Errors
  import opened Store
  import ClubService
  import MembershipService
  import RequestService
  import RequestRepo
  import MembershipRepo

  /** The club user 1 creates first: private, with a description of its own. */
  const Readers: BookClub := NewBookClub(0, "Readers", "stock.png", "Books we love", PRIVATE, 0)
  /** User 1's membership of it: the founding owner. */
  const Founder: BookClubMembership := ClubService.FounderRow(Readers, 1, 1, 0)
  /** User 2's request to join. */
  const Asked: MembershipRequest := NewRequest(2, 2, 0, Some("May I join?"), 1)
  /** The request as approved by user 1, granting the USER role. */
  const Approved: MembershipRequest := RequestService.ReviewOutcome(Asked, 1, APPROVE, USER, Some("Welcome"), 2)
  /** User 2's membership after the approval. */
  const Joined: BookClubMembership := RequestService.ApprovedRow(3, Approved, USER, 2)

  /**
   * User 1 creates the private club "Readers"; user 2 asks to join; user 1
   * approves with role USER. User 2 then holds the USER role, and a second
   * review of the same request is refused.
   */
  method JoinByRequest()
    returns (created: Result<BookClub>, asked: Result<MembershipRequest>, approved: Result<MembershipRequest>,
             again: Result<MembershipRequest>, role: Result<BookClubRole>)
    ensures created.Ok? && created.value.name == "Readers" && created.value.publicity == PRIVATE
    ensures asked.Ok? && asked.value.status == OPEN && asked.value.userId == 2
    ensures approved.Ok? && approved.value.status == APPROVED && approved.value.reviewer == Some(1)
    ensures again == Err(BadAction)
    ensures role == Ok(USER)
  {
    var db := new Database();
    CreateReaders();
    created := ClubService.Create(db, Some(1), "Readers", "stock.png", "Books we love", PRIVATE, 0);
    assert db.clubs == [Readers] && db.memberships == [Founder] && db.nextId == 2;

    AskToJoin();
    asked := RequestService.RequestMembership(db, Some(2), "Readers", Some("May I join?"), 1);
    assert db.requests == [Asked] && db.nextId == 3;

    ApproveRequest();
    approved := RequestService.ReviewMembershipRequest(db, Some(1), 2, APPROVE, USER, Some("Welcome"), 2);
    assert db.memberships == [Founder, Joined] && db.requests == [Approved];

    ReviewAgain();
    again := RequestService.ReviewMembershipRequest(db, Some(1), 2, REJECT, NONE, Some("Changed my mind"), 3);

    JoinedRole();
    role := MembershipService.GetRole(db, Some(2), "Readers");
  }

  /** On an empty store, user 1 creates "Readers" under id 0. */
  lemma CreateReaders()
    ensures ClubService.CreateOutcome([], 0, Some(1), "Readers", "stock.png", "Books we love", PRIVATE, 0) == Ok(Readers)
    ensures Readers.id == 0 && Readers.name == "Readers" && Readers.publicity == PRIVATE
  {
    ClubService.ReservedNameExamples();
  }

  /** User 2's request for "Readers" gets the next id, 2, and names club 0. */
  lemma AskToJoin()
    ensures RequestService.RequestOutcome([Readers], 2, Some(2), "Readers", Some("May I join?"), 1) == Ok(Asked)
    ensures Asked.status == OPEN && Asked.userId == 2
  {
  }

  /** The owner, user 1, may approve the open request; user 2 has no membership row yet. */
  lemma ApproveRequest()
    ensures RequestService.ReviewRequestOutcome([Founder], [Asked], Some(1), 2, APPROVE, USER, Some("Welcome"), 2) == Ok(Approved)
    ensures RequestService.MembersAfterReview([Founder], 3, Approved, APPROVE, USER, 2) == [Founder, Joined]
    ensures SaveRequest([Asked], Approved) == [Approved] && RequestService.NextIdAfterReview(3, APPROVE) == 4
    ensures Approved.status == APPROVED && Approved.reviewer == Some(1)
  {
    assert RequestRepo.FindById([Asked], 2) == Some(Asked);
    assert MembershipRepo.FindByBookClubIdAndUserId([Founder], 0, 1) == Some(Founder);
    assert SaveRequest([Asked], Approved)[0] == Approved;
  }

  /** A second review of the now approved request is refused. */
  lemma ReviewAgain()
    ensures RequestService.ReviewRequestOutcome([Founder, Joined], [Approved], Some(1), 2, REJECT, NONE,
                                                Some("Changed my mind"), 3) == Err(BadAction)
  {
    assert RequestRepo.FindById([Approved], 2) == Some(Approved);
    assert MembershipRepo.FindByBookClubIdAndUserId([Founder, Joined], 0, 1) == Some(Founder) by {
      assert [Founder, Joined][0] == Founder;
    }
  }

  /** Only the new member's row belongs to user 2, so the role lookup finds it. */
  lemma JoinedRole()
    ensures MembershipRepo.FindByBookClubNameAndUserId([Readers], [Founder, Joined], "Readers", 2) == Some(Joined)
    ensures Joined.clubRole == USER
  {
    assert MembershipRepo.OfNamedClub([Readers], "Readers", 2, Joined) by { assert Readers in [Readers]; }
    assert !MembershipRepo.OfNamedClub([Readers], "Readers", 2, Founder);
  }
}
