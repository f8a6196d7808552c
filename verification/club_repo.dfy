/**
 * The club finders of the repository layer, each a filter over the stored
 * clubs (joined with memberships where the query joins them).
 */
module ClubRepo {
  import opened Entities
  import opened Seqs
  import opened Text

  /** findById: the club with that id. */
  function FindById(cs: seq<BookClub>, id: Id): (r: Option<BookClub>)
    ensures r.Some? ==> r.value in cs && r.value.id == id
    ensures r.None? <==> forall c :: c in cs ==> c.id != id
  {
    Find(cs, (c: BookClub) => c.id == id)
  }

  /** findByName: the club with that name (names are unique, so there is at most one). */
  function FindByName(cs: seq<BookClub>, name: string): (r: Option<BookClub>)
    ensures r.Some? ==> r.value in cs && r.value.name == name
    ensures r.None? <==> forall c :: c in cs ==> c.name != name
  {
    Find(cs, (c: BookClub) => c.name == name)
  }

  /** The club with id `clubId` is stored under the name `name` (the join on book_club.name of a derived query). */
  predicate InClubNamed(cs: seq<BookClub>, name: string, clubId: Id)
  {
    exists c :: c in cs && c.id == clubId && c.name == name
  }

  /** Under unique ids and names, the named club is exactly the one `findByName` finds. */
  lemma InClubNamedIsFindByName(cs: seq<BookClub>, name: string, clubId: Id)
    requires forall a, b :: 0 <= a < b < |cs| ==> cs[a].id != cs[b].id && cs[a].name != cs[b].name
    ensures InClubNamed(cs, name, clubId) <==> FindByName(cs, name).Some? && FindByName(cs, name).value.id == clubId
  {
    if InClubNamed(cs, name, clubId) {
      var c :| c in cs && c.id == clubId && c.name == name;
      var i :| 0 <= i < |cs| && cs[i] == c;
      FindByNameUnique(cs, name, i);
    }
  }

  /** The user holds a membership in the club that has not departed. */
  predicate ActiveIn(ms: seq<BookClubMembership>, clubId: Id, user: UserId)
  {
    exists m :: m in ms && m.clubId == clubId && m.userId == user && m.departed.None?
  }

  /** findAllForUser: the clubs not disbanded in which the user has a membership that has not departed. */
  function FindAllForUser(cs: seq<BookClub>, ms: seq<BookClubMembership>, user: UserId): (r: seq<BookClub>)
    ensures forall c :: c in r <==> c in cs && c.disbanded.None? && ActiveIn(ms, c.id, user)
  {
    Filter(cs, (c: BookClub) => c.disbanded.None? && ActiveIn(ms, c.id, user))
  }

  /** findAllByPublicityNotAndNameContainsIgnoreCase: clubs of another publicity whose name contains the term, ignoring case. */
  function FindAllByPublicityNotAndNameContainsIgnoreCase(cs: seq<BookClub>, publicity: Publicity, term: string)
    : (r: seq<BookClub>)
    ensures forall c :: c in r <==> c in cs && c.publicity != publicity && ContainsIgnoreCase(c.name, term)
  {
    Filter(cs, (c: BookClub) => c.publicity != publicity && ContainsIgnoreCase(c.name, term))
  }

  /**
   * findByIdAndUserIsAdmin: the club with that id, provided it is not
   * disbanded, the user holds an ADMIN membership in it that has not
   * departed, and the user's own account is not soft-deleted.
   */
  function FindByIdAndUserIsAdmin(cs: seq<BookClub>, ms: seq<BookClubMembership>, departedUsers: set<UserId>,
                                  id: Id, user: UserId): (r: Option<BookClub>)
    ensures r.Some? ==> r.value in cs && r.value.id == id && r.value.disbanded.None? && user !in departedUsers
    ensures r.Some? ==> exists m :: m in ms && m.clubId == id && m.userId == user && m.departed.None? && m.clubRole == ADMIN
    ensures r.None? <==>
      || user in departedUsers
      || (forall m :: m in ms ==> !(m.clubId == id && m.userId == user && m.departed.None? && m.clubRole == ADMIN))
      || (forall c :: c in cs ==> !(c.id == id && c.disbanded.None?))
  {
    if user in departedUsers then None
    else if !exists m :: m in ms && m.clubId == id && m.userId == user && m.departed.None? && m.clubRole == ADMIN then None
    else Find(cs, (c: BookClub) => c.id == id && c.disbanded.None?)
  }

  /** Club names are unique, so a found club is the only one with that name. */
  lemma FindByNameUnique(cs: seq<BookClub>, name: string, i: int)
    requires forall a, b :: 0 <= a < b < |cs| ==> cs[a].name != cs[b].name
    requires 0 <= i < |cs| && cs[i].name == name
    ensures FindByName(cs, name) == Some(cs[i])
  {
    var r := FindByName(cs, name).value;
    var j :| 0 <= j < |cs| && cs[j] == r;
    if j < i { assert cs[j].name != cs[i].name; }
    else if i < j { assert cs[i].name != cs[j].name; }
  }

  /** Club ids are unique, so a found club is the only one with that id. */
  lemma FindByIdUnique(cs: seq<BookClub>, id: Id, i: int)
    requires forall a, b :: 0 <= a < b < |cs| ==> cs[a].id != cs[b].id
    requires 0 <= i < |cs| && cs[i].id == id
    ensures FindById(cs, id) == Some(cs[i])
  {
    var j :| 0 <= j < |cs| && cs[j] == FindById(cs, id).value;
  }
}
