/**
 * The book club service: creating a club (whose creator becomes its owner),
 * updating its details, looking a club up by id or by name (a private club
 * only for its members), the three paged club listings, and disbanding a
 * club. The signed-in user is the `user` argument and the clock reading is
 * `now`.
 */
module ClubService {
  import opened Entities
  import opened Errors
  import opened Seqs
  import opened Store
  import opened Paging
  import opened Text
  import ClubRepo
  import MembershipRepo

  /** Names a club may not take: they clash with the routes of the club API. */
  const ReservedNames: seq<string> := ["create", "default"]

  /** The name equals a reserved name, ignoring case. */
  function IsReservedName(name: string): (r: bool)
    ensures r <==> exists w :: w in ReservedNames && EqualsIgnoreCase(name, w)
  {
    Find(ReservedNames, (w: string) => EqualsIgnoreCase(name, w)).Some?
  }

  /** Case is ignored, but only an exact match of the whole name is reserved. */
  lemma ReservedNameExamples()
    ensures IsReservedName("Create") && IsReservedName("DEFAULT") && IsReservedName("default")
    ensures !IsReservedName("created") && !IsReservedName("Readers") && !IsReservedName("")
  {
    assert EqualsIgnoreCase("Create", "create");
    assert EqualsIgnoreCase("DEFAULT", "default");
    assert EqualsIgnoreCase("default", "default");
    assert !EqualsIgnoreCase("Readers", "default") by { assert LowerChar("Readers"[0]) != LowerChar("default"[0]); }
    assert !EqualsIgnoreCase("Readers", "create") by { assert LowerChar("Readers"[0]) != LowerChar("create"[0]); }
  }

  /**
   * create, as decided on the stored clubs before the call. Guards, in
   * order: signed in; the name is not reserved; no club has the name yet.
   * The outcome is the new club under the next free id, with the payload's
   * fields as given.
   */
  function CreateOutcome(cs: seq<BookClub>, next: Id, user: Option<UserId>, name: string, imageFileName: string,
                         description: string, publicity: Publicity, now: Time): (r: Result<BookClub>)
  {
    if user.None? then Err(UserNotFound)
    else if IsReservedName(name) then Err(BadAction)
    else if ClubRepo.FindByName(cs, name).Some? then Err(NameNotUnique)
    else Ok(NewBookClub(next, name, imageFileName, description, publicity, now))
  }

  /** The guards of create in their order, and the club a success stores. */
  lemma CreateOutcomeSpec(cs: seq<BookClub>, next: Id, user: Option<UserId>, name: string, imageFileName: string,
                          description: string, publicity: Publicity, now: Time)
    ensures var r := CreateOutcome(cs, next, user, name, imageFileName, description, publicity, now);
      && (user.None? ==> r == Err(UserNotFound))
      && (user.Some? && IsReservedName(name) ==> r == Err(BadAction))
      && ((user.Some? && !IsReservedName(name) && exists c :: c in cs && c.name == name) ==> r == Err(NameNotUnique))
      && (r.Ok? <==> user.Some? && !IsReservedName(name) && forall c :: c in cs ==> c.name != name)
      && (r.Ok? ==>
            && r.value.id == next && r.value.name == name && r.value.imageFileName == imageFileName
            && r.value.created == now && r.value.disbanded.None?
            && r.value.description == description && r.value.publicity == publicity)
  {
  }

  /** The creator's membership that create stores with the club: an active ADMIN owner. */
  function FounderRow(c: BookClub, id: Id, user: UserId, now: Time): (m: BookClubMembership)
  {
    NewMembership(id, c.id, user, Some(ADMIN), Some(true), now)
  }

  /** Storing a created club with its founder's membership keeps the store valid, the club owned. */
  lemma CreateKeepsValid(cs: seq<BookClub>, ms: seq<BookClubMembership>, rs: seq<MembershipRequest>, next: Id,
                         user: Option<UserId>, name: string, imageFileName: string,
                         description: string, publicity: Publicity, now: Time)
    requires StoreValid(cs, ms, rs, next)
    requires CreateOutcome(cs, next, user, name, imageFileName, description, publicity, now).Ok?
    ensures var c := CreateOutcome(cs, next, user, name, imageFileName, description, publicity, now).value;
      StoreValid(cs + [c], ms + [FounderRow(c, next + 1, user.value, now)], rs, next + 2)
  {
    var c := CreateOutcome(cs, next, user, name, imageFileName, description, publicity, now).value;
    forall i | 0 <= i < |cs| ensures cs[i].name != c.name { assert cs[i] in cs; }
    AppendClubValid(cs, ms, rs, next, c, FounderRow(c, next + 1, user.value, now));
  }

  /** create: applies CreateOutcome, storing the club and then its founder's membership. */
  method Create(db: Database, user: Option<UserId>, name: string, imageFileName: string,
                description: string, publicity: Publicity, now: Time)
    returns (r: Result<BookClub>)
    requires db.Valid()
    modifies db
    ensures db.Valid()
    ensures r == CreateOutcome(old(db.clubs), old(db.nextId), user, name, imageFileName, description, publicity, now)
    ensures r.Ok? ==>
      && user.Some?
      && db.clubs == old(db.clubs) + [r.value]
      && db.memberships == old(db.memberships) + [FounderRow(r.value, old(db.nextId) + 1, user.value, now)]
      && db.nextId == old(db.nextId) + 2
    ensures r.Err? ==> db.clubs == old(db.clubs) && db.memberships == old(db.memberships) && db.nextId == old(db.nextId)
    ensures db.requests == old(db.requests) && db.departedUsers == old(db.departedUsers)
  {
    var cs, ms, next := db.clubs, db.memberships, db.nextId;
    r := CreateOutcome(cs, next, user, name, imageFileName, description, publicity, now);
    if r.Ok? {
      CreateKeepsValid(cs, ms, db.requests, next, user, name, imageFileName, description, publicity, now);
      db.clubs, db.memberships, db.nextId := cs + [r.value], ms + [FounderRow(r.value, next + 1, user.value, now)], next + 2;
    }
  }

  /**
   * update, as decided on the tables before the call: overwrites name,
   * description, image and publicity of a club the caller administers.
   * Guards, in order: signed in; the club is found by
   * findByIdAndUserIsAdmin (else BookClubNotFound); no other club has the
   * new name. The reserved-name rule of create is not applied.
   */
  function UpdateOutcome(cs: seq<BookClub>, ms: seq<BookClubMembership>, departedUsers: set<UserId>,
                         user: Option<UserId>, id: Id, name: string, imageFileName: string,
                         description: string, publicity: Publicity): (r: Result<BookClub>)
  {
    if user.None? then Err(UserNotFound)
    else
      var found := ClubRepo.FindByIdAndUserIsAdmin(cs, ms, departedUsers, id, user.value);
      if found.None? then Err(BookClubNotFound)
      else if exists d :: d in cs && d.id != id && d.name == name then Err(NameNotUnique)
      else Ok(found.value.(name := name, description := description, imageFileName := imageFileName,
                          publicity := publicity))
  }

  /** The guards of update in their order, and the club a success saves: only the four edited fields change. */
  lemma UpdateOutcomeSpec(cs: seq<BookClub>, ms: seq<BookClubMembership>, departedUsers: set<UserId>,
                          user: Option<UserId>, id: Id, name: string, imageFileName: string,
                          description: string, publicity: Publicity)
    ensures var r := UpdateOutcome(cs, ms, departedUsers, user, id, name, imageFileName, description, publicity);
      && (user.None? ==> r == Err(UserNotFound))
      && ((user.Some? && ClubRepo.FindByIdAndUserIsAdmin(cs, ms, departedUsers, id, user.value).None?) ==>
            r == Err(BookClubNotFound))
      && ((user.Some? && ClubRepo.FindByIdAndUserIsAdmin(cs, ms, departedUsers, id, user.value).Some?) ==>
            (r == Err(NameNotUnique) <==> exists d :: d in cs && d.id != id && d.name == name))
      && (r.Ok? <==> (user.Some? && ClubRepo.FindByIdAndUserIsAdmin(cs, ms, departedUsers, id, user.value).Some? &&
                      forall d :: d in cs && d.id != id ==> d.name != name))
      && (r.Ok? ==>
            && r.value.id == id && r.value.disbanded.None? && user.value !in departedUsers
            && r.value.name == name && r.value.description == description
            && r.value.imageFileName == imageFileName && r.value.publicity == publicity
            && exists c :: c in cs && c.id == id && c.disbanded.None? && c.created == r.value.created &&
                           r.value == c.(name := name, description := description, imageFileName := imageFileName,
                                         publicity := publicity))
  {
  }

  /** A successful update keeps the store valid: the new name is still unique. */
  lemma UpdateKeepsValid(cs: seq<BookClub>, ms: seq<BookClubMembership>, rs: seq<MembershipRequest>, next: Id,
                         departedUsers: set<UserId>, user: Option<UserId>, id: Id, name: string, imageFileName: string,
                         description: string, publicity: Publicity)
    requires StoreValid(cs, ms, rs, next)
    requires UpdateOutcome(cs, ms, departedUsers, user, id, name, imageFileName, description, publicity).Ok?
    ensures StoreValid(SaveClub(cs, UpdateOutcome(cs, ms, departedUsers, user, id, name, imageFileName,
                                                  description, publicity).value), ms, rs, next)
  {
    var stored := ClubRepo.FindByIdAndUserIsAdmin(cs, ms, departedUsers, id, user.value).value;
    var c := UpdateOutcome(cs, ms, departedUsers, user, id, name, imageFileName, description, publicity).value;
    RenameKeepsValid(cs, ms, rs, next, stored, c);
  }

  /** update: applies UpdateOutcome, saving the club once. */
  method Update(db: Database, user: Option<UserId>, id: Id, name: string, imageFileName: string,
                description: string, publicity: Publicity)
    returns (r: Result<BookClub>)
    requires db.Valid()
    modifies db
    ensures db.Valid()
    ensures r == UpdateOutcome(old(db.clubs), old(db.memberships), old(db.departedUsers), user, id, name, imageFileName,
                               description, publicity)
    ensures r.Ok? ==> db.clubs == SaveClub(old(db.clubs), r.value)
    ensures r.Err? ==> db.clubs == old(db.clubs)
    ensures db.memberships == old(db.memberships) && db.requests == old(db.requests)
    ensures db.departedUsers == old(db.departedUsers) && db.nextId == old(db.nextId)
  {
    var cs := db.clubs;
    r := UpdateOutcome(cs, db.memberships, db.departedUsers, user, id, name, imageFileName, description, publicity);
    if r.Ok? {
      UpdateKeepsValid(cs, db.memberships, db.requests, db.nextId, db.departedUsers, user, id, name, imageFileName,
                       description, publicity);
      db.clubs := SaveClub(cs, r.value);
    }
  }

  /** Saving a stored club under a name no other club has keeps the store valid. */
  lemma RenameKeepsValid(cs: seq<BookClub>, ms: seq<BookClubMembership>, rs: seq<MembershipRequest>, next: Id,
                         stored: BookClub, c: BookClub)
    requires StoreValid(cs, ms, rs, next)
    requires stored in cs && c.id == stored.id
    requires forall d :: d in cs && d.id != c.id ==> d.name != c.name
    ensures StoreValid(SaveClub(cs, c), ms, rs, next)
  {
    var k :| 0 <= k < |cs| && cs[k] == stored;
    forall i | 0 <= i < |cs| && i != k ensures cs[i].name != c.name { assert cs[i] in cs; }
    SaveClubAt(cs, next, k, c);
    ReplaceClubValid(cs, ms, rs, next, k, c);
  }

  /** checkBookClubMembership: the club, for a signed-in user with a membership record in it, departed or not. */
  function CheckBookClubMembership(db: Database, user: Option<UserId>, club: BookClub): (r: Result<BookClub>)
    reads db
    ensures user.None? ==> r == Err(UserNotFound)
    ensures user.Some? ==>
      if exists m :: m in db.memberships && m.clubId == club.id && m.userId == user.value then r == Ok(club)
      else r == Err(MembershipNotFound)
  {
    if user.None? then Err(UserNotFound)
    else if !MembershipRepo.ExistsByBookClubIdAndUserId(db.memberships, club.id, user.value) then Err(MembershipNotFound)
    else Ok(club)
  }

  /** The club may be shown to `user`: it is not private, or the user has a membership record in it. */
  predicate Visible(ms: seq<BookClubMembership>, user: Option<UserId>, c: BookClub)
  {
    c.publicity != PRIVATE || (user.Some? && exists m :: m in ms && m.clubId == c.id && m.userId == user.value)
  }

  /**
   * findByID: the club with that id, disbanded or not; a private one only
   * for a signed-in user with a membership record in it.
   */
  function FindByID(db: Database, user: Option<UserId>, id: Id): (r: Result<BookClub>)
    reads db
    ensures (forall c :: c in db.clubs ==> c.id != id) <==> r == Err(BookClubNotFound)
    ensures r.Ok? ==> r.value in db.clubs && r.value.id == id && Visible(db.memberships, user, r.value)
    ensures var f := ClubRepo.FindById(db.clubs, id);
      f.Some? ==> (r.Ok? <==> Visible(db.memberships, user, f.value)) && (r.Ok? ==> r.value == f.value)
    ensures r.Err? && r != Err(BookClubNotFound) ==>
      exists c :: c in db.clubs && c.id == id && c.publicity == PRIVATE &&
        r == (if user.None? then Err(UserNotFound) else Err(MembershipNotFound))
  {
    var found := ClubRepo.FindById(db.clubs, id);
    if found.None? then Err(BookClubNotFound)
    else if found.value.publicity != PRIVATE then Ok(found.value)
    else CheckBookClubMembership(db, user, found.value)
  }

  /**
   * findByName: the club with that name, disbanded or not; a private one
   * only for a signed-in user with a membership record in it.
   */
  function FindByName(db: Database, user: Option<UserId>, name: string): (r: Result<BookClub>)
    reads db
    ensures (forall c :: c in db.clubs ==> c.name != name) <==> r == Err(BookClubNotFound)
    ensures r.Ok? ==> r.value in db.clubs && r.value.name == name && Visible(db.memberships, user, r.value)
    ensures var f := ClubRepo.FindByName(db.clubs, name);
      f.Some? ==> (r.Ok? <==> Visible(db.memberships, user, f.value)) && (r.Ok? ==> r.value == f.value)
    ensures r.Err? && r != Err(BookClubNotFound) ==>
      exists c :: c in db.clubs && c.name == name && c.publicity == PRIVATE &&
        r == (if user.None? then Err(UserNotFound) else Err(MembershipNotFound))
  {
    var found := ClubRepo.FindByName(db.clubs, name);
    if found.None? then Err(BookClubNotFound)
    else if found.value.publicity != PRIVATE then Ok(found.value)
    else CheckBookClubMembership(db, user, found.value)
  }

  /**
   * findAllForUser: the caller's active clubs under the page-size rule with
   * a smallest accepted size of 0, so a size of 0 passes the guard and is
   * then refused by the page request.
   */
  function FindAllForUser(db: Database, user: Option<UserId>, pageNum: int, pageSize: int)
    : (r: Result<Page<BookClub>>)
    reads db
    ensures user.None? ==> r == Err(UserNotFound)
    ensures user.Some? ==> r == Paginate(ClubRepo.FindAllForUser(db.clubs, db.memberships, user.value), pageNum, pageSize, 0)
    ensures user.Some? && pageNum >= 0 && pageSize == 0 ==> r == Err(InvalidPageRequest)
    ensures user.Some? && pageNum >= 0 && pageSize < 0 ==> r.Err? && r.error.PageSizeTooSmall? && r.error.payload.size == DefaultPageSize
    ensures Delivered(r).Some? ==> forall c :: c in Delivered(r).value.content ==>
      c in db.clubs && c.disbanded.None? && ClubRepo.ActiveIn(db.memberships, c.id, user.value)
  {
    if user.None? then Err(UserNotFound)
    else
      var rows := ClubRepo.FindAllForUser(db.clubs, db.memberships, user.value);
      DeliveredFromRows(rows, pageNum, pageSize, 0);
      Paginate(rows, pageNum, pageSize, 0)
  }

  /**
   * findAll: every stored club, disbanded ones included, in table order,
   * under the page-size rule with a smallest accepted size of 0.
   */
  function FindAll(db: Database, pageNum: int, pageSize: int): (r: Result<Page<BookClub>>)
    reads db
    ensures r == Paginate(db.clubs, pageNum, pageSize, 0)
    ensures pageNum >= 0 && pageSize == 0 ==> r == Err(InvalidPageRequest)
    ensures pageNum >= 0 && pageSize < 0 ==> r.Err? && r.error.PageSizeTooSmall? && r.error.payload.size == DefaultPageSize
    ensures Delivered(r).Some? ==> forall c :: c in Delivered(r).value.content ==> c in db.clubs
  {
    DeliveredFromRows(db.clubs, pageNum, pageSize, 0);
    Paginate(db.clubs, pageNum, pageSize, 0)
  }

  /**
   * search: the clubs that are not private and whose name contains the
   * term, ignoring case, disbanded ones included, under the page-size rule
   * with a smallest accepted size of 1.
   */
  function Search(db: Database, term: string, pageNum: int, pageSize: int): (r: Result<Page<BookClub>>)
    reads db
    ensures r == Paginate(ClubRepo.FindAllByPublicityNotAndNameContainsIgnoreCase(db.clubs, PRIVATE, term), pageNum, pageSize, 1)
    ensures pageNum >= 0 ==> Delivered(r).Some?
    ensures Delivered(r).Some? ==> forall c :: c in Delivered(r).value.content ==>
      c in db.clubs && c.publicity != PRIVATE && ContainsIgnoreCase(c.name, term)
  {
    var rows := ClubRepo.FindAllByPublicityNotAndNameContainsIgnoreCase(db.clubs, PRIVATE, term);
    DeliveredFromRows(rows, pageNum, pageSize, 1);
    assert pageNum >= 0 ==> Delivered(Paginate(rows, pageNum, pageSize, 1)).Some? by {
      if pageNum >= 0 { PaginateAlwaysDelivers(rows, pageNum, pageSize, 1); }
    }
    Paginate(rows, pageNum, pageSize, 1)
  }

  /** The club a stored membership belongs to. */
  lemma ClubOfMembership(cs: seq<BookClub>, ms: seq<BookClubMembership>, rs: seq<MembershipRequest>, next: Id,
                         m: BookClubMembership)
    requires StoreValid(cs, ms, rs, next) && m in ms
    ensures ClubRepo.FindById(cs, m.clubId).Some?
  {
    var i :| 0 <= i < |ms| && ms[i] == m;
    assert m.clubId in ClubIds(cs);
    var c :| c in cs && c.id == m.clubId;
  }

  /**
   * disbandBookClub, as decided on the membership and its club: the owner
   * of the club stamps `disbanded` on it. Guards, in order: the membership
   * is an owner's; the club is not disbanded yet. Only `disbanded` changes.
   */
  function DisbandOutcome(c: BookClub, m: BookClubMembership, now: Time): (r: Result<BookClub>)
    ensures !m.isOwner ==> r == Err(Unauthorized)
    ensures m.isOwner && c.disbanded.Some? ==> r == Err(BadAction)
    ensures r.Ok? <==> m.isOwner && c.disbanded.None?
    ensures r.Ok? ==> r.value == c.(disbanded := Some(now)) && r.value.disbanded.Some?
  {
    if !m.isOwner then Err(Unauthorized)
    else if c.disbanded.Some? then Err(BadAction)
    else Ok(c.(disbanded := Some(now)))
  }

  /** A club, once disbanded, cannot be disbanded again: every later attempt is refused. */
  lemma DisbandIsFinal(c: BookClub, m: BookClubMembership, now: Time, later: Time)
    requires DisbandOutcome(c, m, now).Ok?
    ensures DisbandOutcome(DisbandOutcome(c, m, now).value, m, later) == Err(BadAction)
  {
  }

  /** Disbanding a stored club keeps the store valid. */
  lemma DisbandKeepsValid(cs: seq<BookClub>, ms: seq<BookClubMembership>, rs: seq<MembershipRequest>, next: Id,
                          c: BookClub, m: BookClubMembership, now: Time)
    requires StoreValid(cs, ms, rs, next) && c in cs && DisbandOutcome(c, m, now).Ok?
    ensures StoreValid(SaveClub(cs, DisbandOutcome(c, m, now).value), ms, rs, next)
  {
    var d := DisbandOutcome(c, m, now).value;
    var k :| 0 <= k < |cs| && cs[k] == c;
    forall i | 0 <= i < |cs| && i != k ensures cs[i].name != d.name { }
    SaveClubAt(cs, next, k, d);
    ReplaceClubValid(cs, ms, rs, next, k, d);
  }

  /** disbandBookClub: applies DisbandOutcome to the membership's club, saving the club once. Memberships are left as they are. */
  method DisbandBookClub(db: Database, m: BookClubMembership, now: Time) returns (r: Result<BookClub>)
    requires db.Valid() && m in db.memberships
    modifies db
    ensures db.Valid()
    ensures old(ClubRepo.FindById(db.clubs, m.clubId)).Some? &&
            r == DisbandOutcome(old(ClubRepo.FindById(db.clubs, m.clubId)).value, m, now)
    ensures r.Ok? ==> db.clubs == SaveClub(old(db.clubs), r.value)
    ensures r.Err? ==> db.clubs == old(db.clubs)
    ensures db.memberships == old(db.memberships) && db.requests == old(db.requests)
    ensures db.departedUsers == old(db.departedUsers) && db.nextId == old(db.nextId)
  {
    var cs := db.clubs;
    ClubOfMembership(cs, db.memberships, db.requests, db.nextId, m);
    var club := ClubRepo.FindById(cs, m.clubId).value;
    r := DisbandOutcome(club, m, now);
    if r.Ok? {
      DisbandKeepsValid(cs, db.memberships, db.requests, db.nextId, club, m, now);
      db.clubs := SaveClub(cs, r.value);
    }
  }

  /** disbandBookClubByID: disband through the caller's membership record in the club with that id, departed or not. */
  method DisbandBookClubByID(db: Database, user: Option<UserId>, id: Id, now: Time) returns (r: Result<BookClub>)
    requires db.Valid()
    modifies db
    ensures db.Valid()
    ensures user.None? ==> r == Err(UserNotFound)
    ensures user.Some? && old(MembershipRepo.FindByBookClubIdAndUserId(db.memberships, id, user.value)).None? ==>
      r == Err(MembershipNotFound)
    ensures user.Some? && old(MembershipRepo.FindByBookClubIdAndUserId(db.memberships, id, user.value)).Some? ==>
      && old(ClubRepo.FindById(db.clubs, id)).Some?
      && r == DisbandOutcome(old(ClubRepo.FindById(db.clubs, id)).value,
                             old(MembershipRepo.FindByBookClubIdAndUserId(db.memberships, id, user.value)).value, now)
    ensures r.Ok? ==> db.clubs == SaveClub(old(db.clubs), r.value)
    ensures r.Err? ==> db.clubs == old(db.clubs)
    ensures db.memberships == old(db.memberships) && db.requests == old(db.requests)
    ensures db.departedUsers == old(db.departedUsers) && db.nextId == old(db.nextId)
  {
    if user.None? { return Err(UserNotFound); }
    var found := MembershipRepo.FindByBookClubIdAndUserId(db.memberships, id, user.value);
    if found.None? { return Err(MembershipNotFound); }
    r := DisbandBookClub(db, found.value, now);
  }

  /** disbandBookClubByName: disband through the caller's membership record in the named club, departed or not. */
  method DisbandBookClubByName(db: Database, user: Option<UserId>, name: string, now: Time) returns (r: Result<BookClub>)
    requires db.Valid()
    modifies db
    ensures db.Valid()
    ensures user.None? ==> r == Err(UserNotFound)
    ensures user.Some? && old(MembershipRepo.FindByBookClubNameAndUserId(db.clubs, db.memberships, name, user.value)).None? ==>
      r == Err(MembershipNotFound)
    ensures user.Some? && old(MembershipRepo.FindByBookClubNameAndUserId(db.clubs, db.memberships, name, user.value)).Some? ==>
      && old(ClubRepo.FindByName(db.clubs, name)).Some?
      && r == DisbandOutcome(old(ClubRepo.FindByName(db.clubs, name)).value,
                             old(MembershipRepo.FindByBookClubNameAndUserId(db.clubs, db.memberships, name, user.value)).value, now)
    ensures r.Ok? ==> db.clubs == SaveClub(old(db.clubs), r.value)
    ensures r.Err? ==> db.clubs == old(db.clubs)
    ensures db.memberships == old(db.memberships) && db.requests == old(db.requests)
    ensures db.departedUsers == old(db.departedUsers) && db.nextId == old(db.nextId)
  {
    if user.None? { return Err(UserNotFound); }
    var found := MembershipRepo.FindByBookClubNameAndUserId(db.clubs, db.memberships, name, user.value);
    if found.None? { return Err(MembershipNotFound); }
    NamedClubOfMembership(db.clubs, db.memberships, db.requests, db.nextId, name, found.value);
    r := DisbandBookClub(db, found.value, now);
  }

  /** The club a membership of the named club belongs to is the one found by that name. */
  lemma NamedClubOfMembership(cs: seq<BookClub>, ms: seq<BookClubMembership>, rs: seq<MembershipRequest>, next: Id,
                              name: string, m: BookClubMembership)
    requires StoreValid(cs, ms, rs, next) && m in ms && MembershipRepo.OfNamedClub(cs, name, m.userId, m)
    ensures ClubRepo.FindByName(cs, name).Some? && ClubRepo.FindById(cs, m.clubId) == ClubRepo.FindByName(cs, name)
  {
    var c :| c in cs && c.id == m.clubId && c.name == name;
    var i :| 0 <= i < |cs| && cs[i] == c;
    ClubRepo.FindByNameUnique(cs, name, i);
    ClubRepo.FindByIdUnique(cs, m.clubId, i);
  }
}
