/**
 * The membership finders of the repository layer. Each derived query is a
 * filter over the stored memberships; the ones keyed by club name join the
 * clubs table on the club's id. Which of them test `departed`, the role or
 * the owner flag is exactly what their names say, and no more.
 */
module MembershipRepo {
  import opened Entities
  import opened Seqs
  import opened Store
  import ClubRepo

  /** The membership belongs to the club stored under `name` and to `user`. */
  predicate OfNamedClub(cs: seq<BookClub>, name: string, user: UserId, m: BookClubMembership)
  {
    ClubRepo.InClubNamed(cs, name, m.clubId) && m.userId == user
  }

  /** findByBookClubNameAndUserId: departed memberships match too. */
  function FindByBookClubNameAndUserId(cs: seq<BookClub>, ms: seq<BookClubMembership>, name: string, user: UserId)
    : (r: Option<BookClubMembership>)
    ensures r.Some? ==> r.value in ms && OfNamedClub(cs, name, user, r.value)
    ensures r.None? <==> forall m :: m in ms ==> !OfNamedClub(cs, name, user, m)
  {
    Find(ms, (m: BookClubMembership) => OfNamedClub(cs, name, user, m))
  }

  /** findByBookClubNameAndUserIdAndDepartedIsNull: only a membership that has not departed. */
  function FindByBookClubNameAndUserIdAndDepartedIsNull(cs: seq<BookClub>, ms: seq<BookClubMembership>,
                                                        name: string, user: UserId)
    : (r: Option<BookClubMembership>)
    ensures r.Some? ==> r.value in ms && OfNamedClub(cs, name, user, r.value) && r.value.departed.None?
    ensures r.None? <==> forall m :: m in ms ==> !(OfNamedClub(cs, name, user, m) && m.departed.None?)
  {
    Find(ms, (m: BookClubMembership) => OfNamedClub(cs, name, user, m) && m.departed.None?)
  }

  /** findByBookClubNameAndUserIdAndClubRoleAndDepartedIsNull: an active membership holding `role`. */
  function FindByBookClubNameAndUserIdAndClubRoleAndDepartedIsNull(cs: seq<BookClub>, ms: seq<BookClubMembership>,
                                                                   name: string, user: UserId, role: BookClubRole)
    : (r: Option<BookClubMembership>)
    ensures r.Some? ==> r.value in ms && OfNamedClub(cs, name, user, r.value) && r.value.clubRole == role && r.value.departed.None?
    ensures r.None? <==> forall m :: m in ms ==> !(OfNamedClub(cs, name, user, m) && m.clubRole == role && m.departed.None?)
  {
    Find(ms, (m: BookClubMembership) => OfNamedClub(cs, name, user, m) && m.clubRole == role && m.departed.None?)
  }

  /** findByBookClubIdAndUserId: departed memberships match too. */
  function FindByBookClubIdAndUserId(ms: seq<BookClubMembership>, clubId: Id, user: UserId)
    : (r: Option<BookClubMembership>)
    ensures r.Some? ==> r.value in ms && r.value.clubId == clubId && r.value.userId == user
    ensures r.None? <==> forall m :: m in ms ==> !(m.clubId == clubId && m.userId == user)
  {
    Find(ms, (m: BookClubMembership) => m.clubId == clubId && m.userId == user)
  }

  /** existsByBookClubIdAndUserId: any membership record, departed or not. */
  function ExistsByBookClubIdAndUserId(ms: seq<BookClubMembership>, clubId: Id, user: UserId): (r: bool)
    ensures r <==> exists m :: m in ms && m.clubId == clubId && m.userId == user
  {
    Count(ms, (m: BookClubMembership) => m.clubId == clubId && m.userId == user) > 0
  }

  /** findByBookClubNameAndClubRoleAndUserId: a membership holding `role`, departed or not. */
  function FindByBookClubNameAndClubRoleAndUserId(cs: seq<BookClub>, ms: seq<BookClubMembership>,
                                                  name: string, role: BookClubRole, user: UserId)
    : (r: Option<BookClubMembership>)
    ensures r.Some? ==> r.value in ms && OfNamedClub(cs, name, user, r.value) && r.value.clubRole == role
    ensures r.None? <==> forall m :: m in ms ==> !(OfNamedClub(cs, name, user, m) && m.clubRole == role)
  {
    Find(ms, (m: BookClubMembership) => OfNamedClub(cs, name, user, m) && m.clubRole == role)
  }

  /** The ordering key of findAllByBookClubNameOrderByJoined. */
  function Joined(m: BookClubMembership): (k: int)
  {
    m.joined
  }

  /** findAllByBookClubNameOrderByJoined: every membership of the named club, departed ones included, earliest first. */
  function FindAllByBookClubNameOrderByJoined(cs: seq<BookClub>, ms: seq<BookClubMembership>, name: string)
    : (r: seq<BookClubMembership>)
    ensures forall m :: m in r <==> m in ms && ClubRepo.InClubNamed(cs, name, m.clubId)
    ensures forall i, j :: 0 <= i < j < |r| ==> r[i].joined <= r[j].joined
    ensures |r| <= |ms|
    ensures forall m :: multiset(r)[m] == if ClubRepo.InClubNamed(cs, name, m.clubId) then multiset(ms)[m] else 0
  {
    var rows := Filter(ms, (m: BookClubMembership) => ClubRepo.InClubNamed(cs, name, m.clubId));
    var r := SortBy(rows, Joined);
    forall m ensures m in r <==> m in rows { SortByKeepsRows(rows, Joined, m); }
    assert forall i, j :: 0 <= i < j < |r| ==> Joined(r[i]) <= Joined(r[j]);
    r
  }

  /** findByBookClubNameAndUserIdAndIsOwnerTrue: an owner membership, with no test of `departed`. */
  function FindByBookClubNameAndUserIdAndIsOwnerTrue(cs: seq<BookClub>, ms: seq<BookClubMembership>,
                                                     name: string, user: UserId)
    : (r: Option<BookClubMembership>)
    ensures r.Some? ==> r.value in ms && OfNamedClub(cs, name, user, r.value) && r.value.isOwner
    ensures r.None? <==> forall m :: m in ms ==> !(OfNamedClub(cs, name, user, m) && m.isOwner)
  {
    Find(ms, (m: BookClubMembership) => OfNamedClub(cs, name, user, m) && m.isOwner)
  }

  /** findAllByBookClubIdAndIsOwnerTrueAndDepartedIsNullAndUserIdIn: the club's active owners among `userIds`. */
  function FindAllByBookClubIdAndIsOwnerTrueAndDepartedIsNullAndUserIdIn(ms: seq<BookClubMembership>, clubId: Id,
                                                                         userIds: seq<UserId>)
    : (r: seq<BookClubMembership>)
    ensures forall m :: m in r <==> m in ms && m.clubId == clubId && m.isOwner && m.departed.None? && m.userId in userIds
  {
    Filter(ms, (m: BookClubMembership) => m.clubId == clubId && m.isOwner && m.departed.None? && m.userId in userIds)
  }

  /**
   * In a valid store a (club, user) pair has at most one membership row, so
   * a row of the named club is exactly what the unfiltered finder returns.
   */
  lemma FindByNameAndUserIsTheRow(cs: seq<BookClub>, ms: seq<BookClubMembership>, rs: seq<MembershipRequest>,
                                  next: Id, name: string, user: UserId, k: int)
    requires StoreValid(cs, ms, rs, next)
    requires 0 <= k < |ms| && OfNamedClub(cs, name, user, ms[k])
    ensures FindByBookClubNameAndUserId(cs, ms, name, user) == Some(ms[k])
  {
    var m := FindByBookClubNameAndUserId(cs, ms, name, user).value;
    var j :| 0 <= j < |ms| && ms[j] == m;
    var c :| c in cs && c.id == ms[k].clubId && c.name == name;
    var d :| d in cs && d.id == ms[j].clubId && d.name == name;
    var ci :| 0 <= ci < |cs| && cs[ci] == c;
    var di :| 0 <= di < |cs| && cs[di] == d;
    assert ci == di;
    MembershipKey(ms, ClubIds(cs), next, j, k);
  }

  /**
   * The active-only finder refines the unfiltered one: in a valid store,
   * whatever it finds is the pair's one row, which the unfiltered finder
   * also returns.
   */
  lemma ActiveFinderRefines(cs: seq<BookClub>, ms: seq<BookClubMembership>, rs: seq<MembershipRequest>,
                            next: Id, name: string, user: UserId)
    requires StoreValid(cs, ms, rs, next)
    ensures var a := FindByBookClubNameAndUserIdAndDepartedIsNull(cs, ms, name, user);
      a.Some? ==> FindByBookClubNameAndUserId(cs, ms, name, user) == a
  {
    var a := FindByBookClubNameAndUserIdAndDepartedIsNull(cs, ms, name, user);
    if a.Some? {
      var k :| 0 <= k < |ms| && ms[k] == a.value;
      FindByNameAndUserIsTheRow(cs, ms, rs, next, name, user, k);
    }
  }

  /**
   * The active finder with a role filter refines both the active finder
   * and the role finder that ignores departure.
   */
  lemma ActiveRoleFinderRefines(cs: seq<BookClub>, ms: seq<BookClubMembership>, rs: seq<MembershipRequest>,
                                next: Id, name: string, user: UserId, role: BookClubRole)
    requires StoreValid(cs, ms, rs, next)
    ensures var b := FindByBookClubNameAndUserIdAndClubRoleAndDepartedIsNull(cs, ms, name, user, role);
      b.Some? ==> FindByBookClubNameAndClubRoleAndUserId(cs, ms, name, role, user).Some? &&
                  FindByBookClubNameAndUserIdAndDepartedIsNull(cs, ms, name, user) == b
  {
    var b := FindByBookClubNameAndUserIdAndClubRoleAndDepartedIsNull(cs, ms, name, user, role);
    if b.Some? {
      var k :| 0 <= k < |ms| && ms[k] == b.value;
      assert ms[k] in ms && OfNamedClub(cs, name, user, ms[k]) && ms[k].departed.None?;
      var a := FindByBookClubNameAndUserIdAndDepartedIsNull(cs, ms, name, user);
      var j :| 0 <= j < |ms| && ms[j] == a.value;
      FindByNameAndUserIsTheRow(cs, ms, rs, next, name, user, k);
      FindByNameAndUserIsTheRow(cs, ms, rs, next, name, user, j);
      assert ms[k] in ms && OfNamedClub(cs, name, user, ms[k]) && ms[k].clubRole == role;
    }
  }

  /**
   * Conversely, the unfiltered finder's row, when it has not departed, is
   * what the active finder returns: the two differ exactly on departed rows.
   */
  lemma ActiveRowFoundByActiveFinder(cs: seq<BookClub>, ms: seq<BookClubMembership>, rs: seq<MembershipRequest>,
                                     next: Id, name: string, user: UserId)
    requires StoreValid(cs, ms, rs, next)
    ensures var u := FindByBookClubNameAndUserId(cs, ms, name, user);
      u.Some? && u.value.departed.None? ==> FindByBookClubNameAndUserIdAndDepartedIsNull(cs, ms, name, user) == u
  {
    var u := FindByBookClubNameAndUserId(cs, ms, name, user);
    if u.Some? && u.value.departed.None? {
      assert u.value in ms && OfNamedClub(cs, name, user, u.value) && u.value.departed.None?;
      var a := FindByBookClubNameAndUserIdAndDepartedIsNull(cs, ms, name, user);
      var j :| 0 <= j < |ms| && ms[j] == a.value;
      FindByNameAndUserIsTheRow(cs, ms, rs, next, name, user, j);
    }
  }

  /**
   * The owner finder tests no `departed`, yet in a valid store an owner row
   * is always an active ADMIN row: the missing filter never lets a departed
   * member act as owner.
   */
  lemma OwnerFinderFindsActiveAdmin(cs: seq<BookClub>, ms: seq<BookClubMembership>, rs: seq<MembershipRequest>,
                                    next: Id, name: string, user: UserId)
    requires StoreValid(cs, ms, rs, next)
    ensures var o := FindByBookClubNameAndUserIdAndIsOwnerTrue(cs, ms, name, user);
      o.Some? ==> o.value.departed.None? && o.value.clubRole == ADMIN &&
                  FindByBookClubNameAndUserIdAndClubRoleAndDepartedIsNull(cs, ms, name, user, ADMIN) == o
  {
    var o := FindByBookClubNameAndUserIdAndIsOwnerTrue(cs, ms, name, user);
    if o.Some? {
      var k :| 0 <= k < |ms| && ms[k] == o.value;
      assert ms[k].clubRole == ADMIN && ms[k].departed.None?;
      var b := FindByBookClubNameAndUserIdAndClubRoleAndDepartedIsNull(cs, ms, name, user, ADMIN);
      assert ms[k] in ms && OfNamedClub(cs, name, user, ms[k]) && ms[k].clubRole == ADMIN && ms[k].departed.None?;
      var j :| 0 <= j < |ms| && ms[j] == b.value;
      FindByNameAndUserIsTheRow(cs, ms, rs, next, name, user, k);
      FindByNameAndUserIsTheRow(cs, ms, rs, next, name, user, j);
    }
  }
}
