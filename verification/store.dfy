/**
 * The database the services work on: the book_club, book_club_users and
 * membership_request tables, the set of users whose accounts are
 * soft-deleted, and the generator of fresh row identifiers. `Valid` is the
 * invariant every service operation preserves: the table constraints
 * (unique ids, unique club names, foreign keys) and the rules the services
 * keep between them.
 */
module Store {
  import opened Entities

  /** The identifiers of the stored clubs. */
  function ClubIds(cs: seq<BookClub>): (ids: set<Id>)
  {
    set c | c in cs :: c.id
  }

  /** Primary key and the unique name column of book_club. */
  ghost predicate ClubsValid(cs: seq<BookClub>, next: Id)
  {
    && (forall i :: 0 <= i < |cs| ==> cs[i].id < next)
    && (forall i, j :: 0 <= i < j < |cs| ==> cs[i].id != cs[j].id && cs[i].name != cs[j].name)
  }

  /**
   * Primary key and club foreign key of book_club_users, plus what the
   * services keep: one membership row per (club, user), departed or not,
   * and an owner is always an active ADMIN.
   */
  ghost predicate MembershipsValid(ms: seq<BookClubMembership>, clubIds: set<Id>, next: Id)
  {
    && (forall i :: 0 <= i < |ms| ==> ms[i].id < next && ms[i].clubId in clubIds)
    && (forall i :: 0 <= i < |ms| && ms[i].isOwner ==> ms[i].clubRole == ADMIN && ms[i].departed.None?)
    && (forall i, j :: 0 <= i < j < |ms| ==> ms[i].id != ms[j].id)
    && (forall i, j :: 0 <= i < j < |ms| ==> ms[i].clubId != ms[j].clubId || ms[i].userId != ms[j].userId)
  }

  /**
   * An OPEN request carries no review field; a closed one records the role
   * granted and the review time, which a review always sets. The review
   * message may be null, and the reviewer is not required either: the
   * repository's UPDATE query closes a request without setting it.
   */
  predicate ReviewConsistent(q: MembershipRequest)
  {
    if q.status == OPEN then q.role.None? && q.reviewMessage.None? && q.reviewed.None? && q.reviewer.None?
    else q.role.Some? && q.reviewed.Some?
  }

  /** Primary key and club foreign key of membership_request, and consistent review fields. */
  ghost predicate RequestsValid(rs: seq<MembershipRequest>, clubIds: set<Id>, next: Id)
  {
    && (forall i :: 0 <= i < |rs| ==> rs[i].id < next && rs[i].clubId in clubIds && ReviewConsistent(rs[i]))
    && (forall i, j :: 0 <= i < j < |rs| ==> rs[i].id != rs[j].id)
  }

  /** Some membership row of the club carries ownership. */
  ghost predicate HasOwner(ms: seq<BookClubMembership>, clubId: Id)
  {
    exists k :: 0 <= k < |ms| && ms[k].clubId == clubId && ms[k].isOwner
  }

  ghost predicate StoreValid(cs: seq<BookClub>, ms: seq<BookClubMembership>, rs: seq<MembershipRequest>, next: Id)
  {
    && ClubsValid(cs, next)
    && MembershipsValid(ms, ClubIds(cs), next)
    && RequestsValid(rs, ClubIds(cs), next)
    && (forall i :: 0 <= i < |cs| ==> HasOwner(ms, cs[i].id))
  }

  class Database {
    var clubs: seq<BookClub>
    var memberships: seq<BookClubMembership>
    var requests: seq<MembershipRequest>
    /** Users whose own account is soft-deleted (app_user.departed is set); kept by the user service. */
    var departedUsers: set<UserId>
    /** The next identifier the database hands out. */
    var nextId: Id

    ghost predicate Valid()
      reads this
    {
      StoreValid(clubs, memberships, requests, nextId)
    }

    constructor ()
      ensures Valid()
      ensures clubs == [] && memberships == [] && requests == [] && departedUsers == {} && nextId == 0
    {
      clubs, memberships, requests, departedUsers, nextId := [], [], [], {}, 0;
    }
  }

  /** JPA save of an existing club: the row with the same id is replaced. */
  function SaveClub(cs: seq<BookClub>, c: BookClub): (cs': seq<BookClub>)
  {
    seq(|cs|, i requires 0 <= i < |cs| => if cs[i].id == c.id then c else cs[i])
  }

  /** JPA save of an existing membership: the row with the same id is replaced. */
  function SaveMembership(ms: seq<BookClubMembership>, m: BookClubMembership): (ms': seq<BookClubMembership>)
  {
    seq(|ms|, i requires 0 <= i < |ms| => if ms[i].id == m.id then m else ms[i])
  }

  /** JPA save of an existing request: the row with the same id is replaced. */
  function SaveRequest(rs: seq<MembershipRequest>, q: MembershipRequest): (rs': seq<MembershipRequest>)
  {
    seq(|rs|, i requires 0 <= i < |rs| => if rs[i].id == q.id then q else rs[i])
  }

  /** Under the key constraints, a membership row is identified by its (club, user) pair. */
  lemma MembershipKey(ms: seq<BookClubMembership>, clubIds: set<Id>, next: Id, i: int, j: int)
    requires MembershipsValid(ms, clubIds, next)
    requires 0 <= i < |ms| && 0 <= j < |ms|
    requires ms[i].clubId == ms[j].clubId && ms[i].userId == ms[j].userId
    ensures i == j
  {
  }

  /** Saving a membership whose id is that of row `k` replaces row `k` only. */
  lemma SaveMembershipAt(ms: seq<BookClubMembership>, clubIds: set<Id>, next: Id, k: int, m: BookClubMembership)
    requires MembershipsValid(ms, clubIds, next)
    requires 0 <= k < |ms| && m.id == ms[k].id
    ensures SaveMembership(ms, m) == ms[k := m]
  {
    forall i | 0 <= i < |ms| ensures SaveMembership(ms, m)[i] == ms[k := m][i] {
      if i < k { assert ms[i].id != ms[k].id; }
      else if k < i { assert ms[k].id != ms[i].id; }
    }
  }

  /** Saving a club whose id is that of row `k` replaces row `k` only. */
  lemma SaveClubAt(cs: seq<BookClub>, next: Id, k: int, c: BookClub)
    requires ClubsValid(cs, next)
    requires 0 <= k < |cs| && c.id == cs[k].id
    ensures SaveClub(cs, c) == cs[k := c]
  {
    forall i | 0 <= i < |cs| ensures SaveClub(cs, c)[i] == cs[k := c][i] {
      if i < k { assert cs[i].id != cs[k].id; }
      else if k < i { assert cs[k].id != cs[i].id; }
    }
  }

  /** Saving a request whose id is that of row `k` replaces row `k` only. */
  lemma SaveRequestAt(rs: seq<MembershipRequest>, clubIds: set<Id>, next: Id, k: int, q: MembershipRequest)
    requires RequestsValid(rs, clubIds, next)
    requires 0 <= k < |rs| && q.id == rs[k].id
    ensures SaveRequest(rs, q) == rs[k := q]
  {
    forall i | 0 <= i < |rs| ensures SaveRequest(rs, q)[i] == rs[k := q][i] {
      if i < k { assert rs[i].id != rs[k].id; }
      else if k < i { assert rs[k].id != rs[i].id; }
    }
  }

  /**
   * Replacing membership row `k` by a row with the same id, club and user
   * keeps the store valid when the new row respects the owner rule and,
   * should it drop ownership, row `w` still owns the club.
   */
  lemma ReplaceMembershipValid(cs: seq<BookClub>, ms: seq<BookClubMembership>, rs: seq<MembershipRequest>, next: Id,
                               k: int, m: BookClubMembership, w: int)
    requires StoreValid(cs, ms, rs, next)
    requires 0 <= k < |ms|
    requires m.id == ms[k].id && m.clubId == ms[k].clubId && m.userId == ms[k].userId
    requires m.isOwner ==> m.clubRole == ADMIN && m.departed.None?
    requires ms[k].isOwner && !m.isOwner ==> 0 <= w < |ms| && w != k && ms[w].clubId == ms[k].clubId && ms[w].isOwner
    ensures StoreValid(cs, ms[k := m], rs, next)
  {
    var ms' := ms[k := m];
    forall i, j | 0 <= i < j < |ms'|
      ensures ms'[i].id != ms'[j].id
      ensures ms'[i].clubId != ms'[j].clubId || ms'[i].userId != ms'[j].userId
    {
      assert ms'[i].id == ms[i].id && ms'[i].clubId == ms[i].clubId && ms'[i].userId == ms[i].userId;
      assert ms'[j].id == ms[j].id && ms'[j].clubId == ms[j].clubId && ms'[j].userId == ms[j].userId;
    }
    forall i | 0 <= i < |cs| ensures HasOwner(ms', cs[i].id) {
      var o :| 0 <= o < |ms| && ms[o].clubId == cs[i].id && ms[o].isOwner;
      if o != k { assert ms'[o] == ms[o]; }
      else if m.isOwner { assert ms'[k] == m; }
      else { assert ms'[w] == ms[w]; }
    }
  }

  /** Appending a fresh membership row for a (club, user) pair that has none keeps the membership constraints. */
  lemma MembershipAppend(ms: seq<BookClubMembership>, clubIds: set<Id>, next: Id, m: BookClubMembership)
    requires MembershipsValid(ms, clubIds, next)
    requires m.id == next && m.clubId in clubIds
    requires m.isOwner ==> m.clubRole == ADMIN && m.departed.None?
    requires forall i :: 0 <= i < |ms| ==> ms[i].clubId != m.clubId || ms[i].userId != m.userId
    ensures MembershipsValid(ms + [m], clubIds, next + 1)
  {
    var ms' := ms + [m];
    forall i | 0 <= i < |ms'|
      ensures ms'[i].id < next + 1 && ms'[i].clubId in clubIds
      ensures ms'[i].isOwner ==> ms'[i].clubRole == ADMIN && ms'[i].departed.None?
    {
      if i < |ms| { assert ms'[i] == ms[i]; }
    }
    forall i, j | 0 <= i < j < |ms'|
      ensures ms'[i].id != ms'[j].id
      ensures ms'[i].clubId != ms'[j].clubId || ms'[i].userId != ms'[j].userId
    {
      assert ms'[i] == ms[i];
      if j < |ms| { assert ms'[j] == ms[j]; }
    }
  }

  /** Appending a membership row takes ownership away from no club. */
  lemma OwnersAfterAppend(cs: seq<BookClub>, ms: seq<BookClubMembership>, m: BookClubMembership)
    requires forall i :: 0 <= i < |cs| ==> HasOwner(ms, cs[i].id)
    ensures forall i :: 0 <= i < |cs| ==> HasOwner(ms + [m], cs[i].id)
  {
    forall i | 0 <= i < |cs| ensures HasOwner(ms + [m], cs[i].id) {
      var o :| 0 <= o < |ms| && ms[o].clubId == cs[i].id && ms[o].isOwner;
      assert (ms + [m])[o] == ms[o];
    }
  }

  /** Appending a fresh membership for a (club, user) pair that has none keeps the store valid. */
  lemma AppendMembershipValid(cs: seq<BookClub>, ms: seq<BookClubMembership>, rs: seq<MembershipRequest>, next: Id,
                              m: BookClubMembership)
    requires StoreValid(cs, ms, rs, next)
    requires m.id == next && m.clubId in ClubIds(cs)
    requires m.isOwner ==> m.clubRole == ADMIN && m.departed.None?
    requires forall i :: 0 <= i < |ms| ==> ms[i].clubId != m.clubId || ms[i].userId != m.userId
    ensures StoreValid(cs, ms + [m], rs, next + 1)
  {
    MembershipAppend(ms, ClubIds(cs), next, m);
    OwnersAfterAppend(cs, ms, m);
  }

  /** Appending a fresh club together with its owner's membership keeps the store valid. */
  lemma AppendClubValid(cs: seq<BookClub>, ms: seq<BookClubMembership>, rs: seq<MembershipRequest>, next: Id,
                        c: BookClub, m: BookClubMembership)
    requires StoreValid(cs, ms, rs, next)
    requires c.id == next && forall i :: 0 <= i < |cs| ==> cs[i].name != c.name
    requires m.id == next + 1 && m.clubId == c.id && m.isOwner && m.clubRole == ADMIN && m.departed.None?
    ensures StoreValid(cs + [c], ms + [m], rs, next + 2)
  {
    var cs', ms' := cs + [c], ms + [m];
    ClubIdsAppend(cs, c);
    forall d | d in cs ensures d.id != next {
      var i :| 0 <= i < |cs| && cs[i] == d;
    }
    assert next !in ClubIds(cs);
    forall i | 0 <= i < |ms| ensures ms[i].clubId != m.clubId {
      assert ms[i].clubId in ClubIds(cs);
    }
    MembershipAppend(ms, ClubIds(cs'), next + 1, m);
    OwnersAfterAppend(cs, ms, m);
    forall i | 0 <= i < |cs'| ensures HasOwner(ms', cs'[i].id) {
      if i == |cs| { assert ms'[|ms|] == m; }
    }
  }

  /** Appending a club adds its id to the stored ids. */
  lemma ClubIdsAppend(cs: seq<BookClub>, c: BookClub)
    ensures ClubIds(cs + [c]) == ClubIds(cs) + {c.id}
  {
    var cs' := cs + [c];
    forall x | x in ClubIds(cs') ensures x in ClubIds(cs) + {c.id} {
      var d :| d in cs' && d.id == x;
      if d != c { assert d in cs; }
    }
    forall x | x in ClubIds(cs) ensures x in ClubIds(cs') {
      var d :| d in cs && d.id == x;
      assert d in cs';
    }
  }

  /** Replacing club row `k` by a row with the same id and a name no other club has keeps the store valid. */
  lemma ReplaceClubValid(cs: seq<BookClub>, ms: seq<BookClubMembership>, rs: seq<MembershipRequest>, next: Id,
                         k: int, c: BookClub)
    requires StoreValid(cs, ms, rs, next)
    requires 0 <= k < |cs| && c.id == cs[k].id
    requires forall i :: 0 <= i < |cs| && i != k ==> cs[i].name != c.name
    ensures StoreValid(cs[k := c], ms, rs, next)
  {
    var cs' := cs[k := c];
    ClubIdsReplace(cs, k, c);
    forall i, j | 0 <= i < j < |cs'| ensures cs'[i].id != cs'[j].id && cs'[i].name != cs'[j].name {
      assert cs'[i].id == cs[i].id && cs'[j].id == cs[j].id;
    }
    forall i | 0 <= i < |cs'| ensures cs'[i].id < next && HasOwner(ms, cs'[i].id) {
      assert cs'[i].id == cs[i].id;
    }
  }

  /** Replacing a club row by one with the same id leaves the stored ids as they are. */
  lemma ClubIdsReplace(cs: seq<BookClub>, k: int, c: BookClub)
    requires 0 <= k < |cs| && c.id == cs[k].id
    ensures ClubIds(cs[k := c]) == ClubIds(cs)
  {
    var cs' := cs[k := c];
    forall x | x in ClubIds(cs') ensures x in ClubIds(cs) {
      var d :| d in cs' && d.id == x;
      var i :| 0 <= i < |cs'| && cs'[i] == d;
      assert cs[i].id == x;
    }
    forall x | x in ClubIds(cs) ensures x in ClubIds(cs') {
      var d :| d in cs && d.id == x;
      var i :| 0 <= i < |cs| && cs[i] == d;
      assert cs'[i].id == x;
    }
  }

  /** Replacing request row `k` by a row with the same id and club and consistent review fields keeps the store valid. */
  lemma ReplaceRequestValid(cs: seq<BookClub>, ms: seq<BookClubMembership>, rs: seq<MembershipRequest>, next: Id,
                            k: int, q: MembershipRequest)
    requires StoreValid(cs, ms, rs, next)
    requires 0 <= k < |rs| && q.id == rs[k].id && q.clubId == rs[k].clubId && ReviewConsistent(q)
    ensures StoreValid(cs, ms, rs[k := q], next)
  {
  }

  /** Appending a fresh request for a stored club keeps the store valid. */
  lemma AppendRequestValid(cs: seq<BookClub>, ms: seq<BookClubMembership>, rs: seq<MembershipRequest>, next: Id,
                           q: MembershipRequest)
    requires StoreValid(cs, ms, rs, next)
    requires q.id == next && q.clubId in ClubIds(cs) && ReviewConsistent(q)
    ensures StoreValid(cs, ms, rs + [q], next + 1)
  {
    var ms' := ms;
    forall i | 0 <= i < |cs| ensures HasOwner(ms', cs[i].id) {
    }
  }
}
