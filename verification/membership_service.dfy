/**
 * The membership service: listing a club's members, reading one's own role
 * and membership, and the four changes an administrator or owner can make
 * to another member's membership (role change, soft delete, granting and
 * revoking ownership). The signed-in user is the `user` argument (None when
 * nobody is signed in) and the clock reading is `now`.
 *
 * Each operation runs its guards in a fixed order, each mapped to one error,
 * and on any error the store is left exactly as it was. The state-changing
 * operations keep `Valid`, in particular that every club keeps an owner.
 */
module MembershipService {
  import opened Entities
  import opened Errors
  import opened Seqs
  import opened Store
  import opened Paging
  import opened MembershipRepo
  import ClubRepo

  /** What getMembership hands back: a stored membership, or a transient one that was never saved. */
  datatype MembershipView = MembershipView(
    clubId: Id,
    userId: UserId,
    clubRole: BookClubRole,
    isOwner: bool,
    joined: Option<Time>,
    departed: Option<Time>)

  /** The view of a stored membership. */
  function ViewOf(m: BookClubMembership): (v: MembershipView)
  {
    MembershipView(m.clubId, m.userId, m.clubRole, m.isOwner, Some(m.joined), m.departed)
  }

  /** The user holds an ADMIN membership in the named club that has not departed. */
  predicate ActiveAdmin(cs: seq<BookClub>, ms: seq<BookClubMembership>, name: string, user: UserId)
  {
    FindByBookClubNameAndUserIdAndClubRoleAndDepartedIsNull(cs, ms, name, user, ADMIN).Some?
  }

  /** The user holds a membership in the named club that has not departed. */
  predicate ActiveMember(cs: seq<BookClub>, ms: seq<BookClubMembership>, name: string, user: UserId)
  {
    FindByBookClubNameAndUserIdAndDepartedIsNull(cs, ms, name, user).Some?
  }

  /** The user holds an active owner membership in the club with that id. */
  predicate ActiveOwner(ms: seq<BookClubMembership>, clubId: Id, user: UserId)
  {
    exists m :: m in ms && m.clubId == clubId && m.userId == user && m.isOwner && m.departed.None?
  }

  /**
   * getAll: the club's memberships, earliest joined first, for a caller who
   * holds an ADMIN membership in it (departed or not), under the page-size
   * rule with a smallest accepted size of 1.
   */
  function GetAll(db: Database, user: Option<UserId>, clubName: string, pageNum: int, pageSize: int)
    : (r: Result<Page<BookClubMembership>>)
    reads db
    ensures user.None? ==> r == Err(UserNotFound)
    ensures user.Some? ==>
      (r == Err(Unauthorized) <==>
       forall m :: m in db.memberships ==> !(OfNamedClub(db.clubs, clubName, user.value, m) && m.clubRole == ADMIN))
    ensures user.Some? && r != Err(Unauthorized) ==>
      r == Paginate(FindAllByBookClubNameOrderByJoined(db.clubs, db.memberships, clubName), pageNum, pageSize, 1)
    ensures r.Ok? ==> 1 <= r.value.size <= MaxPageSize && r.value.size == pageSize
  {
    if user.None? then Err(UserNotFound)
    else if FindByBookClubNameAndClubRoleAndUserId(db.clubs, db.memberships, clubName, ADMIN, user.value).None? then
      Err(Unauthorized)
    else
      Paginate(FindAllByBookClubNameOrderByJoined(db.clubs, db.memberships, clubName), pageNum, pageSize, 1)
  }

  /** getRole: the role stored in the caller's membership of the named club, departed or not. */
  function GetRole(db: Database, user: Option<UserId>, clubName: string): (r: Result<BookClubRole>)
    reads db
    ensures user.None? ==> r == Err(UserNotFound)
    ensures user.Some? ==>
      (r == Err(MembershipNotFound) <==> forall m :: m in db.memberships ==> !OfNamedClub(db.clubs, clubName, user.value, m))
    ensures r.Ok? ==> exists m :: m in db.memberships && OfNamedClub(db.clubs, clubName, user.value, m) && m.clubRole == r.value
  {
    if user.None? then Err(UserNotFound)
    else
      var found := FindByBookClubNameAndUserId(db.clubs, db.memberships, clubName, user.value);
      if found.None? then Err(MembershipNotFound) else Ok(found.value.clubRole)
  }

  /**
   * getMembership: the caller's stored membership of the named club, departed
   * or not; failing that, a transient NONE, non-owner view when the club
   * exists, and BookClubNotFound when it does not.
   */
  function GetMembership(db: Database, user: Option<UserId>, clubName: string): (r: Result<MembershipView>)
    reads db
    ensures user.None? ==> r == Err(UserNotFound)
    ensures r.Ok? ==> r.value.userId == user.value
    ensures user.Some? && (exists m :: m in db.memberships && OfNamedClub(db.clubs, clubName, user.value, m)) ==>
      r.Ok? && exists m :: m in db.memberships && OfNamedClub(db.clubs, clubName, user.value, m) && r == Ok(ViewOf(m))
    ensures user.Some? && (forall m :: m in db.memberships ==> !OfNamedClub(db.clubs, clubName, user.value, m)) ==>
      if forall c :: c in db.clubs ==> c.name != clubName then r == Err(BookClubNotFound)
      else r.Ok? && r.value.clubRole == NONE && !r.value.isOwner && r.value.joined.None? && r.value.departed.None? &&
           ClubRepo.InClubNamed(db.clubs, clubName, r.value.clubId)
    ensures r.Err? ==> r == Err(UserNotFound) || r == Err(BookClubNotFound)
  {
    if user.None? then Err(UserNotFound)
    else
      var found := FindByBookClubNameAndUserId(db.clubs, db.memberships, clubName, user.value);
      if found.Some? then Ok(ViewOf(found.value))
      else
        var club := ClubRepo.FindByName(db.clubs, clubName);
        if club.None? then Err(BookClubNotFound)
        else Ok(MembershipView(club.value.id, user.value, NONE, false, None, None))
  }

  /**
   * updateMembership, as decided on the tables before the call: an active
   * ADMIN changes another active member's role. Guards, in order: signed in;
   * not oneself; caller an active ADMIN; target an active member; target not
   * an owner and the role actually changes. The outcome is the target's row
   * with only its role changed.
   */
  function UpdateOutcome(cs: seq<BookClub>, ms: seq<BookClubMembership>, user: Option<UserId>, clubName: string,
                         target: UserId, role: BookClubRole): (r: Result<BookClubMembership>)
  {
    if user.None? then Err(UserNotFound)
    else if user.value == target then Err(BadAction)
    else if FindByBookClubNameAndUserIdAndClubRoleAndDepartedIsNull(cs, ms, clubName, user.value, ADMIN).None? then
      Err(Unauthorized)
    else
      var found := FindByBookClubNameAndUserIdAndDepartedIsNull(cs, ms, clubName, target);
      if found.None? then Err(MembershipNotFound)
      else if found.value.isOwner || found.value.clubRole == role then Err(BadAction)
      else Ok(found.value.(clubRole := role))
  }

  /** The guards of updateMembership in their order, and what a success changes. */
  lemma UpdateOutcomeSpec(cs: seq<BookClub>, ms: seq<BookClubMembership>, user: Option<UserId>, clubName: string,
                          target: UserId, role: BookClubRole)
    ensures var r := UpdateOutcome(cs, ms, user, clubName, target, role);
      && (user.None? ==> r == Err(UserNotFound))
      && (user == Some(target) ==> r == Err(BadAction))
      && (user.Some? && user.value != target && !ActiveAdmin(cs, ms, clubName, user.value) ==> r == Err(Unauthorized))
      && ((user.Some? && user.value != target && ActiveAdmin(cs, ms, clubName, user.value) &&
           !ActiveMember(cs, ms, clubName, target)) ==> r == Err(MembershipNotFound))
      && (user.Some? && user.value != target && ActiveAdmin(cs, ms, clubName, user.value) &&
          ActiveMember(cs, ms, clubName, target) ==>
            var t := FindByBookClubNameAndUserIdAndDepartedIsNull(cs, ms, clubName, target).value;
            && (r == Err(BadAction) <==> t.isOwner || t.clubRole == role)
            && (r.Ok? <==> !t.isOwner && t.clubRole != role))
      && (r.Ok? ==> exists t :: t in ms && OfNamedClub(cs, clubName, target, t) && t.departed.None? &&
                               !t.isOwner && t.clubRole != role && r.value == t.(clubRole := role))
  {
    var r := UpdateOutcome(cs, ms, user, clubName, target, role);
    if r.Ok? {
      var t := FindByBookClubNameAndUserIdAndDepartedIsNull(cs, ms, clubName, target).value;
      assert r.value == t.(clubRole := role);
    }
  }

  /** A successful role change keeps the store valid. */
  lemma UpdateKeepsValid(cs: seq<BookClub>, ms: seq<BookClubMembership>, rs: seq<MembershipRequest>, next: Id,
                         user: Option<UserId>, clubName: string, target: UserId, role: BookClubRole)
    requires StoreValid(cs, ms, rs, next) && UpdateOutcome(cs, ms, user, clubName, target, role).Ok?
    ensures StoreValid(cs, SaveMembership(ms, UpdateOutcome(cs, ms, user, clubName, target, role).value), rs, next)
  {
    var m := UpdateOutcome(cs, ms, user, clubName, target, role).value;
    UpdateOutcomeSpec(cs, ms, user, clubName, target, role);
    var t :| t in ms && OfNamedClub(cs, clubName, target, t) && !t.isOwner && m == t.(clubRole := role);
    EditKeepsValid(cs, ms, rs, next, t, m);
  }

  /** updateMembership: applies UpdateOutcome, saving the changed row once. */
  method UpdateMembership(db: Database, user: Option<UserId>, clubName: string, target: UserId, role: BookClubRole)
    returns (r: Result<BookClubMembership>)
    requires db.Valid()
    modifies db
    ensures db.Valid()
    ensures r == UpdateOutcome(old(db.clubs), old(db.memberships), user, clubName, target, role)
    ensures r.Ok? ==> db.memberships == SaveMembership(old(db.memberships), r.value)
    ensures r.Err? ==> db.memberships == old(db.memberships)
    ensures db.clubs == old(db.clubs) && db.requests == old(db.requests)
    ensures db.departedUsers == old(db.departedUsers) && db.nextId == old(db.nextId)
  {
    var ms := db.memberships;
    r := UpdateOutcome(db.clubs, ms, user, clubName, target, role);
    if r.Ok? {
      UpdateKeepsValid(db.clubs, ms, db.requests, db.nextId, user, clubName, target, role);
      db.memberships := SaveMembership(ms, r.value);
    }
  }

  /**
   * deleteMembership, as decided on the tables before the call: an active
   * ADMIN soft-deletes another active member's membership by stamping
   * `departed`. Guards, in order: signed in; not oneself; caller an active
   * ADMIN; target an active member; target not an owner. Role and ownership
   * of the target stay as they were.
   */
  function DeleteOutcome(cs: seq<BookClub>, ms: seq<BookClubMembership>, user: Option<UserId>, clubName: string,
                         target: UserId, now: Time): (r: Result<BookClubMembership>)
  {
    if user.None? then Err(UserNotFound)
    else if user.value == target then Err(BadAction)
    else if FindByBookClubNameAndUserIdAndClubRoleAndDepartedIsNull(cs, ms, clubName, user.value, ADMIN).None? then
      Err(Unauthorized)
    else
      var found := FindByBookClubNameAndUserIdAndDepartedIsNull(cs, ms, clubName, target);
      if found.None? then Err(MembershipNotFound)
      else if found.value.isOwner then Err(BadAction)
      else Ok(found.value.(departed := Some(now)))
  }

  /** The guards of deleteMembership in their order, and what a success changes. */
  lemma DeleteOutcomeSpec(cs: seq<BookClub>, ms: seq<BookClubMembership>, user: Option<UserId>, clubName: string,
                          target: UserId, now: Time)
    ensures var r := DeleteOutcome(cs, ms, user, clubName, target, now);
      && (user.None? ==> r == Err(UserNotFound))
      && (user == Some(target) ==> r == Err(BadAction))
      && (user.Some? && user.value != target && !ActiveAdmin(cs, ms, clubName, user.value) ==> r == Err(Unauthorized))
      && ((user.Some? && user.value != target && ActiveAdmin(cs, ms, clubName, user.value) &&
           !ActiveMember(cs, ms, clubName, target)) ==> r == Err(MembershipNotFound))
      && (user.Some? && user.value != target && ActiveAdmin(cs, ms, clubName, user.value) &&
          ActiveMember(cs, ms, clubName, target) ==>
            var t := FindByBookClubNameAndUserIdAndDepartedIsNull(cs, ms, clubName, target).value;
            && (r == Err(BadAction) <==> t.isOwner)
            && (r.Ok? <==> !t.isOwner))
      && (r.Ok? ==> exists t :: t in ms && OfNamedClub(cs, clubName, target, t) && t.departed.None? &&
                               !t.isOwner && r.value == t.(departed := Some(now)))
  {
    var r := DeleteOutcome(cs, ms, user, clubName, target, now);
    if r.Ok? {
      var t := FindByBookClubNameAndUserIdAndDepartedIsNull(cs, ms, clubName, target).value;
      assert r.value == t.(departed := Some(now));
    }
  }

  /** A successful soft delete keeps the store valid. */
  lemma DeleteKeepsValid(cs: seq<BookClub>, ms: seq<BookClubMembership>, rs: seq<MembershipRequest>, next: Id,
                         user: Option<UserId>, clubName: string, target: UserId, now: Time)
    requires StoreValid(cs, ms, rs, next) && DeleteOutcome(cs, ms, user, clubName, target, now).Ok?
    ensures StoreValid(cs, SaveMembership(ms, DeleteOutcome(cs, ms, user, clubName, target, now).value), rs, next)
  {
    var m := DeleteOutcome(cs, ms, user, clubName, target, now).value;
    DeleteOutcomeSpec(cs, ms, user, clubName, target, now);
    var t :| t in ms && OfNamedClub(cs, clubName, target, t) && !t.isOwner && m == t.(departed := Some(now));
    EditKeepsValid(cs, ms, rs, next, t, m);
  }

  /** deleteMembership: applies DeleteOutcome, saving the departed row once. */
  method DeleteMembership(db: Database, user: Option<UserId>, clubName: string, target: UserId, now: Time)
    returns (r: Result<BookClubMembership>)
    requires db.Valid()
    modifies db
    ensures db.Valid()
    ensures r == DeleteOutcome(old(db.clubs), old(db.memberships), user, clubName, target, now)
    ensures r.Ok? ==> db.memberships == SaveMembership(old(db.memberships), r.value)
    ensures r.Err? ==> db.memberships == old(db.memberships)
    ensures db.clubs == old(db.clubs) && db.requests == old(db.requests)
    ensures db.departedUsers == old(db.departedUsers) && db.nextId == old(db.nextId)
  {
    var ms := db.memberships;
    r := DeleteOutcome(db.clubs, ms, user, clubName, target, now);
    if r.Ok? {
      DeleteKeepsValid(db.clubs, ms, db.requests, db.nextId, user, clubName, target, now);
      db.memberships := SaveMembership(ms, r.value);
    }
  }

  /** The row addOwner saves for the new owner: its active membership, made ADMIN and owner. */
  function PromotedRow(cs: seq<BookClub>, ms: seq<BookClubMembership>, clubName: string, newOwner: UserId)
    : (m: BookClubMembership)
    requires ActiveMember(cs, ms, clubName, newOwner)
  {
    FindByBookClubNameAndUserIdAndDepartedIsNull(cs, ms, clubName, newOwner).value.(clubRole := ADMIN, isOwner := true)
  }

  /**
   * addOwner, as decided on the tables before the call: an owner makes
   * another active member an owner and an ADMIN. Guards, in order: signed
   * in; not oneself; caller an owner (the finder tests no `departed`);
   * target an active member. Success answers true.
   */
  function AddOwnerOutcome(cs: seq<BookClub>, ms: seq<BookClubMembership>, user: Option<UserId>, clubName: string,
                           newOwner: UserId): (r: Result<bool>)
  {
    if user.None? then Err(UserNotFound)
    else if user.value == newOwner then Err(BadAction)
    else if FindByBookClubNameAndUserIdAndIsOwnerTrue(cs, ms, clubName, user.value).None? then Err(Unauthorized)
    else if FindByBookClubNameAndUserIdAndDepartedIsNull(cs, ms, clubName, newOwner).None? then Err(MembershipNotFound)
    else Ok(true)
  }

  /** The guards of addOwner in their order, and the row a success saves. */
  lemma AddOwnerOutcomeSpec(cs: seq<BookClub>, ms: seq<BookClubMembership>, user: Option<UserId>, clubName: string,
                            newOwner: UserId)
    ensures var r := AddOwnerOutcome(cs, ms, user, clubName, newOwner);
      && (user.None? ==> r == Err(UserNotFound))
      && (user == Some(newOwner) ==> r == Err(BadAction))
      && ((user.Some? && user.value != newOwner &&
           FindByBookClubNameAndUserIdAndIsOwnerTrue(cs, ms, clubName, user.value).None?) ==> r == Err(Unauthorized))
      && (user.Some? && user.value != newOwner &&
          FindByBookClubNameAndUserIdAndIsOwnerTrue(cs, ms, clubName, user.value).Some? ==>
            (r == Ok(true) <==> ActiveMember(cs, ms, clubName, newOwner)) &&
            (r == Err(MembershipNotFound) <==> !ActiveMember(cs, ms, clubName, newOwner)))
      && (r.Ok? ==>
            && r.value && ActiveMember(cs, ms, clubName, newOwner)
            && exists t :: t in ms && OfNamedClub(cs, clubName, newOwner, t) && t.departed.None? &&
                           PromotedRow(cs, ms, clubName, newOwner) == t.(clubRole := ADMIN, isOwner := true))
  {
  }

  /** Saving the promoted row of an active member keeps the store valid. */
  lemma PromotionKeepsValid(cs: seq<BookClub>, ms: seq<BookClubMembership>, rs: seq<MembershipRequest>, next: Id,
                            clubName: string, newOwner: UserId)
    requires StoreValid(cs, ms, rs, next) && ActiveMember(cs, ms, clubName, newOwner)
    ensures StoreValid(cs, SaveMembership(ms, PromotedRow(cs, ms, clubName, newOwner)), rs, next)
  {
    var t := FindByBookClubNameAndUserIdAndDepartedIsNull(cs, ms, clubName, newOwner).value;
    EditKeepsValid(cs, ms, rs, next, t, PromotedRow(cs, ms, clubName, newOwner));
  }

  /** addOwner: applies AddOwnerOutcome, saving the promoted row once; the caller's own row is untouched. */
  method AddOwner(db: Database, user: Option<UserId>, clubName: string, newOwner: UserId) returns (r: Result<bool>)
    requires db.Valid()
    modifies db
    ensures db.Valid()
    ensures r == AddOwnerOutcome(old(db.clubs), old(db.memberships), user, clubName, newOwner)
    ensures r.Ok? ==> ActiveMember(old(db.clubs), old(db.memberships), clubName, newOwner) &&
                      db.memberships == SaveMembership(old(db.memberships), PromotedRow(old(db.clubs), old(db.memberships), clubName, newOwner))
    ensures r.Err? ==> db.memberships == old(db.memberships)
    ensures db.clubs == old(db.clubs) && db.requests == old(db.requests)
    ensures db.departedUsers == old(db.departedUsers) && db.nextId == old(db.nextId)
  {
    var ms := db.memberships;
    r := AddOwnerOutcome(db.clubs, ms, user, clubName, newOwner);
    if r.Ok? {
      PromotionKeepsValid(db.clubs, ms, db.requests, db.nextId, clubName, newOwner);
      db.memberships := SaveMembership(ms, PromotedRow(db.clubs, ms, clubName, newOwner));
    }
  }

  /** Replacing a stored row by an edit of it keeps the store valid when the edit respects the owner rule and drops no ownership. */
  lemma EditKeepsValid(cs: seq<BookClub>, ms: seq<BookClubMembership>, rs: seq<MembershipRequest>, next: Id,
                       t: BookClubMembership, m: BookClubMembership)
    requires StoreValid(cs, ms, rs, next)
    requires t in ms && m.id == t.id && m.clubId == t.clubId && m.userId == t.userId
    requires m.isOwner ==> m.clubRole == ADMIN && m.departed.None?
    requires t.isOwner ==> m.isOwner
    ensures StoreValid(cs, SaveMembership(ms, m), rs, next)
  {
    var k :| 0 <= k < |ms| && ms[k] == t;
    SaveMembershipAt(ms, ClubIds(cs), next, k, m);
    ReplaceMembershipValid(cs, ms, rs, next, k, m, k);
  }

  /**
   * revokeOwnership, as decided on the membership table before the call: an
   * active owner takes ownership away from another active owner of the club
   * with that id. Guards, in order: signed in; not oneself; caller an active
   * owner; target an active owner. Both are looked up by one owner query over
   * the pair. Only the target's owner flag changes; its role stays.
   */
  function RevokeOutcome(ms: seq<BookClubMembership>, user: Option<UserId>, clubId: Id, target: UserId)
    : (r: Result<BookClubMembership>)
  {
    if user.None? then Err(UserNotFound)
    else if user.value == target then Err(BadAction)
    else
      var owners := FindAllByBookClubIdAndIsOwnerTrueAndDepartedIsNullAndUserIdIn(ms, clubId, [user.value, target]);
      if Find(owners, (m: BookClubMembership) => m.userId == user.value).None? then Err(Unauthorized)
      else
        var theirs := Find(owners, (m: BookClubMembership) => m.userId == target);
        if theirs.None? then Err(MembershipNotFound)
        else Ok(theirs.value.(isOwner := false))
  }

  /** The guards of revokeOwnership in their order, and what a success changes. */
  lemma RevokeOutcomeSpec(ms: seq<BookClubMembership>, user: Option<UserId>, clubId: Id, target: UserId)
    ensures var r := RevokeOutcome(ms, user, clubId, target);
      && (user.None? ==> r == Err(UserNotFound))
      && (user == Some(target) ==> r == Err(BadAction))
      && (user.Some? && user.value != target && !ActiveOwner(ms, clubId, user.value) ==> r == Err(Unauthorized))
      && (user.Some? && user.value != target && ActiveOwner(ms, clubId, user.value) ==>
            (r.Ok? <==> ActiveOwner(ms, clubId, target)) &&
            (r == Err(MembershipNotFound) <==> !ActiveOwner(ms, clubId, target)))
      && (r.Ok? ==> r.value.clubId == clubId && r.value.userId == target && !r.value.isOwner &&
                    r.value.(isOwner := true) in ms && r.value.departed.None? && ActiveOwner(ms, clubId, user.value))
  {
    if user.Some? && user.value != target {
      var owners := FindAllByBookClubIdAndIsOwnerTrueAndDepartedIsNullAndUserIdIn(ms, clubId, [user.value, target]);
      OwnersListed(ms, clubId, user.value, target, owners);
      var theirs := Find(owners, (m: BookClubMembership) => m.userId == target);
      if theirs.Some? {
        assert theirs.value.(isOwner := false).(isOwner := true) == theirs.value;
      }
    }
  }

  /** A successful revocation keeps the store valid: the caller's own row still owns the club. */
  lemma RevocationKeepsValid(cs: seq<BookClub>, ms: seq<BookClubMembership>, rs: seq<MembershipRequest>, next: Id,
                             user: Option<UserId>, clubId: Id, target: UserId)
    requires StoreValid(cs, ms, rs, next) && RevokeOutcome(ms, user, clubId, target).Ok?
    ensures StoreValid(cs, SaveMembership(ms, RevokeOutcome(ms, user, clubId, target).value), rs, next)
  {
    var r := RevokeOutcome(ms, user, clubId, target);
    RevokeOutcomeSpec(ms, user, clubId, target);
    var t := r.value.(isOwner := true);
    assert t.(isOwner := false) == r.value;
    var w :| w in ms && w.clubId == clubId && w.userId == user.value && w.isOwner && w.departed.None?;
    RevokeKeepsValid(cs, ms, rs, next, t, w);
  }

  /** revokeOwnership: applies RevokeOutcome, saving the target's row once. */
  method RevokeOwnership(db: Database, user: Option<UserId>, clubId: Id, target: UserId)
    returns (r: Result<BookClubMembership>)
    requires db.Valid()
    modifies db
    ensures db.Valid()
    ensures r == RevokeOutcome(old(db.memberships), user, clubId, target)
    ensures r.Ok? ==> db.memberships == SaveMembership(old(db.memberships), r.value)
    ensures r.Err? ==> db.memberships == old(db.memberships)
    ensures db.clubs == old(db.clubs) && db.requests == old(db.requests)
    ensures db.departedUsers == old(db.departedUsers) && db.nextId == old(db.nextId)
  {
    var ms := db.memberships;
    r := RevokeOutcome(ms, user, clubId, target);
    if r.Ok? {
      RevocationKeepsValid(db.clubs, ms, db.requests, db.nextId, user, clubId, target);
      db.memberships := SaveMembership(ms, r.value);
    }
  }

  /** Dropping the ownership of `t` keeps the store valid while `w`, another user's row, still owns the club. */
  lemma RevokeKeepsValid(cs: seq<BookClub>, ms: seq<BookClubMembership>, rs: seq<MembershipRequest>, next: Id,
                         t: BookClubMembership, w: BookClubMembership)
    requires StoreValid(cs, ms, rs, next)
    requires t in ms && w in ms && w.clubId == t.clubId && w.isOwner && w.userId != t.userId
    ensures StoreValid(cs, SaveMembership(ms, t.(isOwner := false)), rs, next)
  {
    var k :| 0 <= k < |ms| && ms[k] == t;
    var j :| 0 <= j < |ms| && ms[j] == w;
    SaveMembershipAt(ms, ClubIds(cs), next, k, t.(isOwner := false));
    ReplaceMembershipValid(cs, ms, rs, next, k, t.(isOwner := false), j);
  }

  /** The caller and the target are active owners exactly when the owner query over the two of them lists them. */
  lemma OwnersListed(ms: seq<BookClubMembership>, clubId: Id, u: UserId, target: UserId, owners: seq<BookClubMembership>)
    requires forall m :: m in owners <==>
      m in ms && m.clubId == clubId && m.isOwner && m.departed.None? && m.userId in [u, target]
    ensures ActiveOwner(ms, clubId, u) <==> exists m :: m in owners && m.userId == u
    ensures ActiveOwner(ms, clubId, target) <==> exists m :: m in owners && m.userId == target
  {
    if ActiveOwner(ms, clubId, u) {
      var m :| m in ms && m.clubId == clubId && m.userId == u && m.isOwner && m.departed.None?;
      assert m.userId in [u, target];
    }
    if ActiveOwner(ms, clubId, target) {
      var m :| m in ms && m.clubId == clubId && m.userId == target && m.isOwner && m.departed.None?;
      assert m.userId in [u, target];
    }
  }

  /**
   * The listing lookup tests no `departed`: an ADMIN whose membership has
   * departed is still let through to the member list.
   */
  lemma DepartedAdminStillLists(db: Database, user: UserId, clubName: string, pageNum: int, pageSize: int, k: int)
    requires 0 <= k < |db.memberships|
    requires OfNamedClub(db.clubs, clubName, user, db.memberships[k]) && db.memberships[k].clubRole == ADMIN
    ensures GetAll(db, Some(user), clubName, pageNum, pageSize) != Err(Unauthorized)
  {
    assert db.memberships[k] in db.memberships;
  }

  /** The role lookup tests no `departed`: a departed member still reads back the role it left with. */
  lemma DepartedMemberKeepsRole(db: Database, user: UserId, clubName: string, k: int)
    requires db.Valid()
    requires 0 <= k < |db.memberships| && OfNamedClub(db.clubs, clubName, user, db.memberships[k])
    ensures GetRole(db, Some(user), clubName) == Ok(db.memberships[k].clubRole)
  {
    FindByNameAndUserIsTheRow(db.clubs, db.memberships, db.requests, db.nextId, clubName, user, k);
  }
}
