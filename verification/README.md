# Book club membership core, modelled in Dafny

This project models the membership and authorization core of the Bahubba
book club back end, a Spring Boot service. Users found book clubs, ask to
join them, and are admitted or refused by a club's administrators. The model
covers the three services that carry this workflow and the repositories they
query:

- the book club service: create, update, find, list, search and disband clubs;
- the membership service: list members, read one's role, change a member's
  role, remove a member, add and revoke owners;
- the membership request service: ask to join, see pending requests, list a
  club's requests, and approve or reject a request.

The database is the class `Store.Database`, holding three tables as
sequences (clubs, memberships in `book_club_users`, membership requests),
the set of departed application users, and the next free row id. A JPA
`save` of a loaded row replaces the row with the same id, and a `save` of a
new row appends it under a fresh id. Every repository finder is a function
over these tables. Its contract states exactly which rows it returns.

`Database.Valid()` is the store invariant the services preserve:

- ids are unique;
- club names are unique;
- a user has at most one membership per club;
- every row points at a stored club;
- an owner is an active ADMIN;
- an OPEN request carries no review; a reviewed one records the role granted
  and the review time, while its review message may be null;
- every club has an owner.

No single statement of the source enforces that last invariant. It follows
from three guards together. updateMembership refuses to change an owner's
role (MembershipServiceImpl.java:146). deleteMembership refuses to remove an
owner (MembershipServiceImpl.java:181-185). revokeOwnership demands a caller
who is an active owner and different from the target
(MembershipServiceImpl.java:236-256), so one owner always remains. Removing
a user account is not part of this model: an owner whose account is
soft-deleted still counts as the club's owner.

Each service operation that writes has the same shape. A pure outcome
function decides, from the tables before the call, either the error the
Java code throws or the row it saves. A lemma states the guards in their
source order and what a success stores. A second lemma proves that the
write keeps `Valid()`. The method applies the outcome to the store, and its
`ensures` gives the whole new state. The read operations are functions on
the store.

Behaviour of the source that the contracts make explicit:

- Several lookups do not test `departed`, so a member who has left still
  counts:
  - the ADMIN check of getAll;
  - getRole and getMembership;
  - addOwner's owner check;
  - the membership lookups of both disband operations;
  - checkBookClubMembership;
  - the reviewer and existing-member checks of reviewMembershipRequest,
    which stream over the club's members.
- A reviewer with no membership in the club gets UserNotFound, not
  Unauthorized. The same holds for getMembershipRequestsForBookClub.
- update applies no reserved-name check. Only create does.
- findByID, findByName, findAll and search return disbanded clubs too.
- findAll and findAllForUser refuse only negative page sizes. A size of 0
  passes their guard and is then refused by Spring's `PageRequest`
  (`InvalidPageRequest`).
- create does not test that the name is unused. The unique constraint on
  `book_club.name` refuses a duplicate, which the model reports as
  `NameNotUnique`.

## Model

| member | source | states |
|---|---|---|
| Store.Database.constructor | src/main/java/com/bahubba/bahubbabookclub/repository/BookClubRepo.java:16 | an empty store is valid and holds no rows |
| Store.MembershipKey | src/main/java/com/bahubba/bahubbabookclub/model/entity/BookClubMembership.java:33-39 | two valid membership rows for the same club and user are the same row |
| Store.SaveMembershipAt | src/main/java/com/bahubba/bahubbabookclub/repository/BookClubMembershipRepo.java:15 | saving a loaded membership replaces exactly the row with its id |
| Store.SaveClubAt | src/main/java/com/bahubba/bahubbabookclub/repository/BookClubRepo.java:16 | saving a loaded club replaces exactly the row with its id |
| Store.SaveRequestAt | src/main/java/com/bahubba/bahubbabookclub/repository/MembershipRequestRepo.java:16 | saving a loaded request replaces exactly the row with its id |
| Store.ReplaceMembershipValid | src/main/java/com/bahubba/bahubbabookclub/model/entity/BookClubMembership.java:41-55 | replacing a membership row by one with the same id, club and user, that respects the owner rule and leaves the club an owner, keeps the store valid |
| Store.MembershipAppend | src/main/java/com/bahubba/bahubbabookclub/model/entity/BookClubMembership.java:29-39 | appending a fresh membership of a stored club, for a user without one there, keeps the membership table valid |
| Store.OwnersAfterAppend | src/main/java/com/bahubba/bahubbabookclub/model/entity/BookClubMembership.java:46-48 | appending a membership takes no club's owner away |
| Store.AppendMembershipValid | src/main/java/com/bahubba/bahubbabookclub/service/impl/MembershipRequestServiceImpl.java:167-171 | inserting a new non-owner membership of a stored club for a new member keeps the store valid |
| Store.AppendClubValid | src/main/java/com/bahubba/bahubbabookclub/service/impl/BookClubServiceImpl.java:61-69 | inserting a club with a fresh id and unused name together with its owning ADMIN membership keeps the store valid |
| Store.ClubIdsAppend | src/main/java/com/bahubba/bahubbabookclub/model/entity/BookClub.java:27-30 | the club ids after an insert are the old ids plus the new one |
| Store.ReplaceClubValid | src/main/java/com/bahubba/bahubbabookclub/model/entity/BookClub.java:27-57 | replacing a club by one with the same id and a name no other club has keeps the store valid |
| Store.ClubIdsReplace | src/main/java/com/bahubba/bahubbabookclub/model/entity/BookClub.java:27-30 | replacing a club by one with the same id leaves the set of club ids as it was |
| Store.ReplaceRequestValid | src/main/java/com/bahubba/bahubbabookclub/model/entity/MembershipRequest.java:42-67 | replacing a request by a consistent one with the same id and club keeps the store valid |
| Store.AppendRequestValid | src/main/java/com/bahubba/bahubbabookclub/service/impl/MembershipRequestServiceImpl.java:55-60 | inserting a fresh consistent request for a stored club keeps the store valid |
| Text.Lower | src/main/java/com/bahubba/bahubbabookclub/service/impl/BookClubServiceImpl.java:56-58 | lower-casing keeps the length and folds each character on its own |
| Text.EqualsIgnoreCaseIsFoldedEquality | src/main/java/com/bahubba/bahubbabookclub/service/impl/BookClubServiceImpl.java:56-58 | two names are equal ignoring case exactly when their folded forms are equal |
| Text.ContainsIgnoreCaseBasics | src/main/java/com/bahubba/bahubbabookclub/repository/BookClubRepo.java:33-34 | every name contains the empty term, and a name contains every term it equals ignoring case |
| Paging.Slice | src/main/java/com/bahubba/bahubbabookclub/service/impl/MembershipServiceImpl.java:273-281 | a page holds at most `size` rows, the rows of the result from offset number*size on, in order, and is full when the result reaches past its end |
| Paging.SliceAt | src/main/java/com/bahubba/bahubbabookclub/service/impl/MembershipServiceImpl.java:273-281 | row k of a page is row number*size+k of the result |
| Paging.EveryRowOnItsPage | src/main/java/com/bahubba/bahubbabookclub/service/impl/MembershipServiceImpl.java:273-281 | every row of the result is on page i/size at position i%size |
| Paging.PageOf | src/main/java/com/bahubba/bahubbabookclub/service/impl/MembershipServiceImpl.java:276-277 | a page request succeeds exactly for a non-negative index and a positive size, and then holds that slice |
| Paging.Paginate | src/main/java/com/bahubba/bahubbabookclub/service/impl/MembershipServiceImpl.java:57-64 | the page-size guard: below the minimum, a 10-row page carried by PageSizeTooSmall; above 50, a 50-row page carried by PageSizeTooLarge; otherwise the page asked for; a negative index or size 0 is refused |
| Paging.SliceFromRows | src/main/java/com/bahubba/bahubbabookclub/service/impl/MembershipServiceImpl.java:273-281 | a page holds only rows of the result |
| Paging.PaginateAlwaysDelivers | src/main/java/com/bahubba/bahubbabookclub/service/impl/BookClubServiceImpl.java:183-194 | with a minimum of 1, a valid page index always gets a page of 1 to 50 rows, as a result or as an error's payload |
| Paging.DeliveredFromRows | src/main/java/com/bahubba/bahubbabookclub/service/impl/BookClubServiceImpl.java:150-156 | whatever page is handed back holds only rows of the result, at most 50 per page |
| ClubRepo.FindById | src/main/java/com/bahubba/bahubbabookclub/repository/BookClubRepo.java:16 | the club with that id if there is one, and none exactly when no club has it |
| ClubRepo.FindByName | src/main/java/com/bahubba/bahubbabookclub/repository/BookClubRepo.java:19 | the club with that name if there is one, and none exactly when no club has it |
| ClubRepo.InClubNamedIsFindByName | src/main/java/com/bahubba/bahubbabookclub/repository/BookClubRepo.java:19 | a membership's club has the given name exactly when the name lookup finds that club |
| ClubRepo.FindAllForUser | src/main/java/com/bahubba/bahubbabookclub/repository/BookClubRepo.java:21-31 | exactly the clubs not disbanded in which the user has an active membership |
| ClubRepo.FindAllByPublicityNotAndNameContainsIgnoreCase | src/main/java/com/bahubba/bahubbabookclub/repository/BookClubRepo.java:33-34 | exactly the clubs of another publicity whose name contains the term, ignoring case |
| ClubRepo.FindByIdAndUserIsAdmin | src/main/java/com/bahubba/bahubbabookclub/repository/BookClubRepo.java:36-49 | the club, when not disbanded, the user has not departed and holds an active ADMIN membership in it; none exactly when one of these fails |
| ClubRepo.FindByNameUnique | src/main/java/com/bahubba/bahubbabookclub/model/entity/BookClub.java:32-33 | with unique names, the name lookup returns the one club with that name |
| ClubRepo.FindByIdUnique | src/main/java/com/bahubba/bahubbabookclub/model/entity/BookClub.java:27-30 | with unique ids, the id lookup returns the one club with that id |
| MembershipRepo.FindByBookClubNameAndUserId | src/main/java/com/bahubba/bahubbabookclub/repository/BookClubMembershipRepo.java:16 | a membership of the user in the named club, departed or not; none exactly when there is none |
| MembershipRepo.FindByBookClubNameAndUserIdAndDepartedIsNull | src/main/java/com/bahubba/bahubbabookclub/repository/BookClubMembershipRepo.java:18 | an active membership of the user in the named club; none exactly when there is none |
| MembershipRepo.FindByBookClubNameAndUserIdAndClubRoleAndDepartedIsNull | src/main/java/com/bahubba/bahubbabookclub/repository/BookClubMembershipRepo.java:20-21 | an active membership of the user in the named club with that role; none exactly when there is none |
| MembershipRepo.FindByBookClubIdAndUserId | src/main/java/com/bahubba/bahubbabookclub/repository/BookClubMembershipRepo.java:23 | the user's membership of the club with that id; none exactly when there is none |
| MembershipRepo.ExistsByBookClubIdAndUserId | src/main/java/com/bahubba/bahubbabookclub/repository/BookClubMembershipRepo.java:25 | true exactly when the user has a membership of the club, departed or not |
| MembershipRepo.FindByBookClubNameAndClubRoleAndUserId | src/main/java/com/bahubba/bahubbabookclub/repository/BookClubMembershipRepo.java:27-28 | a membership of the user in the named club with that role, departed or not; none exactly when there is none |
| MembershipRepo.FindAllByBookClubNameOrderByJoined | src/main/java/com/bahubba/bahubbabookclub/repository/BookClubMembershipRepo.java:30 | exactly the memberships of the named club, each as often as in the table, earliest joined first |
| MembershipRepo.FindByBookClubNameAndUserIdAndIsOwnerTrue | src/main/java/com/bahubba/bahubbabookclub/repository/BookClubMembershipRepo.java:32 | an owner membership of the user in the named club, departed or not; none exactly when there is none |
| MembershipRepo.FindAllByBookClubIdAndIsOwnerTrueAndDepartedIsNullAndUserIdIn | src/main/java/com/bahubba/bahubbabookclub/repository/BookClubMembershipRepo.java:34-35 | exactly the active owner memberships of the club held by the listed users |
| MembershipRepo.FindByNameAndUserIsTheRow | src/main/java/com/bahubba/bahubbabookclub/repository/BookClubMembershipRepo.java:16 | in a valid store, the lookup by club name and user finds the user's one row in that club |
| MembershipRepo.ActiveFinderRefines | src/main/java/com/bahubba/bahubbabookclub/repository/BookClubMembershipRepo.java:16-18 | when the active lookup finds a row, the unfiltered lookup finds the same row |
| MembershipRepo.ActiveRoleFinderRefines | src/main/java/com/bahubba/bahubbabookclub/repository/BookClubMembershipRepo.java:18-21 | when the active lookup by role finds a row, the lookup by role finds a row and the active lookup finds the same one |
| MembershipRepo.ActiveRowFoundByActiveFinder | src/main/java/com/bahubba/bahubbabookclub/repository/BookClubMembershipRepo.java:16-18 | when the unfiltered lookup finds an active row, the active lookup finds it too |
| MembershipRepo.OwnerFinderFindsActiveAdmin | src/main/java/com/bahubba/bahubbabookclub/repository/BookClubMembershipRepo.java:32 | in a valid store, the owner lookup finds only an active ADMIN row |
| RequestRepo.ExistsByBookClubNameAndUserIdAndStatus | src/main/java/com/bahubba/bahubbabookclub/repository/MembershipRequestRepo.java:17-18 | true exactly when the user has a request for the named club with that status |
| RequestRepo.ExistsByBookClubNameAndUserIdAndStatusIn | src/main/java/com/bahubba/bahubbabookclub/repository/MembershipRequestRepo.java:20-21 | true exactly when the user has a request for the named club with one of the statuses |
| RequestRepo.StatusInIsAnyStatus | src/main/java/com/bahubba/bahubbabookclub/repository/MembershipRequestRepo.java:17-21 | the status-list query holds exactly when the single-status query holds for some listed status |
| RequestRepo.FindAllByBookClubIdOrderByRequestedDesc | src/main/java/com/bahubba/bahubbabookclub/repository/MembershipRequestRepo.java:23 | exactly the club's requests, each as often as in the table, newest first |
| RequestRepo.FindById | src/main/java/com/bahubba/bahubbabookclub/repository/MembershipRequestRepo.java:16 | the request with that id if there is one, and none exactly when no request has it |
| RequestRepo.ReviewMembershipRequest | src/main/java/com/bahubba/bahubbabookclub/repository/MembershipRequestRepo.java:25-33 | the bulk update sets status, role, review message and review time on the rows with that id, leaves every other row and field alone, and reports how many rows matched |
| ClubService.IsReservedName | src/main/java/com/bahubba/bahubbabookclub/util/APIConstants.java:6 | a name is reserved exactly when it equals "create" or "default", ignoring case |
| ClubService.ReservedNameExamples | src/main/java/com/bahubba/bahubbabookclub/service/impl/BookClubServiceImpl.java:56-58 | "Create", "DEFAULT" and "default" are reserved; "created", "Readers" and "" are not |
| ClubService.CreateOutcomeSpec | src/main/java/com/bahubba/bahubbabookclub/service/impl/BookClubServiceImpl.java:48-80 | create's guards in order (signed in, name not reserved, name unused); success exactly when all hold, storing a club with the next id, with the name, image, description, publicity and time given, not disbanded |
| ClubService.CreateKeepsValid | src/main/java/com/bahubba/bahubbabookclub/service/impl/BookClubServiceImpl.java:61-69 | saving the new club and its founder, an active owning ADMIN, keeps the store valid |
| ClubService.Create | src/main/java/com/bahubba/bahubbabookclub/service/impl/BookClubServiceImpl.java:48-80 | create applies CreateOutcome; on success it appends the club and the founder's owner membership, otherwise it changes nothing; the store stays valid |
| ClubService.UpdateOutcomeSpec | src/main/java/com/bahubba/bahubbabookclub/service/impl/BookClubServiceImpl.java:83-106 | update's guards in order (signed in, caller an active ADMIN of an active club and not departed, name unused by any other club); success exactly when all pass, and it keeps the club's id and creation time and changes only name, description, image and publicity |
| ClubService.UpdateKeepsValid | src/main/java/com/bahubba/bahubbabookclub/service/impl/BookClubServiceImpl.java:96-105 | saving the edited club keeps the store valid |
| ClubService.Update | src/main/java/com/bahubba/bahubbabookclub/service/impl/BookClubServiceImpl.java:83-106 | update applies UpdateOutcome and saves the edited club over the stored one; nothing else changes; the store stays valid |
| ClubService.RenameKeepsValid | src/main/java/com/bahubba/bahubbabookclub/service/impl/BookClubServiceImpl.java:96-105 | saving a stored club under a name no other club has keeps the store valid |
| ClubService.CheckBookClubMembership | src/main/java/com/bahubba/bahubbabookclub/service/impl/BookClubServiceImpl.java:265-280 | the club, for a signed-in user with a membership of it, departed or not; UserNotFound or MembershipNotFound otherwise |
| ClubService.FindByID | src/main/java/com/bahubba/bahubbabookclub/service/impl/BookClubServiceImpl.java:109-122 | BookClubNotFound exactly when no club has the id; a found club, disbanded or not, is returned exactly when it is not private or the signed-in caller has a membership record of it, departed or not; otherwise UserNotFound when signed out, else MembershipNotFound |
| ClubService.FindByName | src/main/java/com/bahubba/bahubbabookclub/service/impl/BookClubServiceImpl.java:125-137 | BookClubNotFound exactly when no club has the name; a found club, disbanded or not, is returned exactly when it is not private or the signed-in caller has a membership record of it, departed or not; otherwise UserNotFound when signed out, else MembershipNotFound |
| ClubService.FindAllForUser | src/main/java/com/bahubba/bahubbabookclub/service/impl/BookClubServiceImpl.java:140-157 | the caller's active, not disbanded clubs under the page-size guard with minimum 0, so size 0 is refused by the page request |
| ClubService.FindAll | src/main/java/com/bahubba/bahubbabookclub/service/impl/BookClubServiceImpl.java:160-176 | every club, disbanded ones too, under the page-size guard with minimum 0 |
| ClubService.Search | src/main/java/com/bahubba/bahubbabookclub/service/impl/BookClubServiceImpl.java:179-195 | the non-private clubs whose name contains the term ignoring case, under the page-size guard with minimum 1; a valid index always gets a page |
| ClubService.ClubOfMembership | src/main/java/com/bahubba/bahubbabookclub/model/entity/BookClubMembership.java:33-35 | in a valid store every membership's club is stored |
| ClubService.DisbandOutcome | src/main/java/com/bahubba/bahubbabookclub/service/impl/BookClubServiceImpl.java:335-351 | Unauthorized for a membership that is not an owner's, BadAction for an owner of a club already disbanded; success exactly otherwise, and it only stamps the disband time |
| ClubService.DisbandIsFinal | src/main/java/com/bahubba/bahubbabookclub/service/impl/BookClubServiceImpl.java:342-346 | a disbanded club cannot be disbanded again |
| ClubService.DisbandKeepsValid | src/main/java/com/bahubba/bahubbabookclub/service/impl/BookClubServiceImpl.java:348-350 | saving the disbanded club keeps the store valid |
| ClubService.DisbandBookClub | src/main/java/com/bahubba/bahubbabookclub/service/impl/BookClubServiceImpl.java:335-351 | disbands the membership's club as DisbandOutcome decides, saving it over the stored row; nothing else changes |
| ClubService.DisbandBookClubByID | src/main/java/com/bahubba/bahubbabookclub/service/impl/BookClubServiceImpl.java:198-214 | UserNotFound when signed out; MembershipNotFound without a membership of the club with that id, departed or not; otherwise DisbandOutcome on that club |
| ClubService.DisbandBookClubByName | src/main/java/com/bahubba/bahubbabookclub/service/impl/BookClubServiceImpl.java:217-233 | UserNotFound when signed out; MembershipNotFound without a membership of the named club, departed or not; otherwise DisbandOutcome on that club |
| ClubService.NamedClubOfMembership | src/main/java/com/bahubba/bahubbabookclub/service/impl/BookClubServiceImpl.java:217-233 | in a valid store, the club of a membership found by club name is the club with that name |
| MembershipService.GetAll | src/main/java/com/bahubba/bahubbabookclub/service/impl/MembershipServiceImpl.java:41-65 | signed out gives UserNotFound; Unauthorized exactly when the caller has no ADMIN membership of the club, departed or not; otherwise the club's members, earliest joined first, under the page-size guard with minimum 1 |
| MembershipService.GetRole | src/main/java/com/bahubba/bahubbabookclub/service/impl/MembershipServiceImpl.java:68-82 | MembershipNotFound exactly when the caller has no membership of the named club; otherwise the role of that membership, departed or not |
| MembershipService.GetMembership | src/main/java/com/bahubba/bahubbabookclub/service/impl/MembershipServiceImpl.java:85-115 | the caller's membership of the named club, departed or not; without one, a NONE non-owner view of an existing club, or BookClubNotFound |
| MembershipService.UpdateOutcomeSpec | src/main/java/com/bahubba/bahubbabookclub/service/impl/MembershipServiceImpl.java:118-154 | the guards of updateMembership in order (signed in, not oneself, caller an active ADMIN, target active, target not an owner and role changed); success exactly when all pass, and it is the target's active row with only its role changed |
| MembershipService.UpdateKeepsValid | src/main/java/com/bahubba/bahubbabookclub/service/impl/MembershipServiceImpl.java:151-153 | saving the target's row with its new role keeps the store valid |
| MembershipService.UpdateMembership | src/main/java/com/bahubba/bahubbabookclub/service/impl/MembershipServiceImpl.java:118-154 | applies the update outcome, saving the edited row over the stored one; nothing else changes |
| MembershipService.DeleteOutcomeSpec | src/main/java/com/bahubba/bahubbabookclub/service/impl/MembershipServiceImpl.java:157-190 | the guards of deleteMembership in order (signed in, not oneself, caller an active ADMIN, target active and not an owner); success exactly when all pass, and it is the target's row with only its departure time set |
| MembershipService.DeleteKeepsValid | src/main/java/com/bahubba/bahubbabookclub/service/impl/MembershipServiceImpl.java:187-189 | saving the departed row keeps the store valid |
| MembershipService.DeleteMembership | src/main/java/com/bahubba/bahubbabookclub/service/impl/MembershipServiceImpl.java:157-190 | applies the delete outcome as a soft delete, saving the departed row over the stored one; nothing else changes |
| MembershipService.AddOwnerOutcomeSpec | src/main/java/com/bahubba/bahubbabookclub/service/impl/MembershipServiceImpl.java:193-224 | the guards of addOwner in order (signed in, not oneself, caller an owner, departed or not, target active); success exactly when the target is an active member, and it makes that row an owning ADMIN |
| MembershipService.PromotionKeepsValid | src/main/java/com/bahubba/bahubbabookclub/service/impl/MembershipServiceImpl.java:218-221 | saving an active member's row as an owning ADMIN keeps the store valid |
| MembershipService.AddOwner | src/main/java/com/bahubba/bahubbabookclub/service/impl/MembershipServiceImpl.java:193-224 | applies the addOwner outcome, saving the promoted row; the caller's row and everything else are left unchanged |
| MembershipService.EditKeepsValid | src/main/java/com/bahubba/bahubbabookclub/service/impl/MembershipServiceImpl.java:151-153 | editing a stored row without changing its id, club or user, respecting the owner rule and taking no ownership away, keeps the store valid |
| MembershipService.RevokeOutcomeSpec | src/main/java/com/bahubba/bahubbabookclub/service/impl/MembershipServiceImpl.java:227-263 | the guards of revokeOwnership in order (signed in, not oneself, caller an active owner, target an active owner); a success is the target's active row with only its owner flag cleared |
| MembershipService.RevocationKeepsValid | src/main/java/com/bahubba/bahubbabookclub/service/impl/MembershipServiceImpl.java:260-262 | clearing the target's ownership keeps the store valid: the caller still owns the club |
| MembershipService.RevokeOwnership | src/main/java/com/bahubba/bahubbabookclub/service/impl/MembershipServiceImpl.java:227-263 | applies the revoke outcome, saving the target's row; nothing else changes |
| MembershipService.RevokeKeepsValid | src/main/java/com/bahubba/bahubbabookclub/service/impl/MembershipServiceImpl.java:260-262 | clearing one row's owner flag keeps the store valid while another user's row still owns the club |
| MembershipService.OwnersListed | src/main/java/com/bahubba/bahubbabookclub/service/impl/MembershipServiceImpl.java:241-258 | the owner query over caller and target lists a user exactly when that user is an active owner of the club |
| MembershipService.DepartedAdminStillLists | src/main/java/com/bahubba/bahubbabookclub/service/impl/MembershipServiceImpl.java:51-54 | an ADMIN whose membership has departed is still let through to the member list |
| MembershipService.DepartedMemberKeepsRole | src/main/java/com/bahubba/bahubbabookclub/service/impl/MembershipServiceImpl.java:68-82 | a member who has departed still reads back the role held on leaving |
| RequestService.RequestOutcomeSpec | src/main/java/com/bahubba/bahubbabookclub/service/impl/MembershipRequestServiceImpl.java:41-61 | signed out gives UserNotFound, an unknown club BookClubNotFound; otherwise a new OPEN request of the caller for that club under the next id, unviewed, with the message and time given and no review fields |
| RequestService.RequestKeepsValid | src/main/java/com/bahubba/bahubbabookclub/service/impl/MembershipRequestServiceImpl.java:55-60 | inserting the new request keeps the store valid |
| RequestService.RequestMembership | src/main/java/com/bahubba/bahubbabookclub/service/impl/MembershipRequestServiceImpl.java:41-61 | applies the request outcome, appending the request; nothing else changes |
| RequestService.HasPendingRequest | src/main/java/com/bahubba/bahubbabookclub/service/impl/MembershipRequestServiceImpl.java:64-74 | true exactly when the caller has an OPEN request for the named club |
| RequestService.GetMembershipRequestsForBookClub | src/main/java/com/bahubba/bahubbabookclub/service/impl/MembershipRequestServiceImpl.java:78-116 | UserNotFound when signed out, and for a known club exactly when the caller has no membership row in it; BookClubNotFound for an unknown name; Unauthorized only for a caller whose row is not ADMIN; any other outcome only for an ADMIN, and then it is the page-size guard with minimum 1 applied to the club's requests newest first (the 10-row page on a size below 1, the 50-row page on a size above 50), so some page is delivered for every page number from 0; every delivered request is stored and belongs to the named club; a successful page has the number and size asked for, the size between 1 and 50 |
| RequestService.ReviewOutcomeFields | src/main/java/com/bahubba/bahubbabookclub/service/impl/MembershipRequestServiceImpl.java:175-187 | a review keeps the request's identity, author, club, message and times, closes it as APPROVED exactly on approval, records the role granted (NONE on rejection), reviewer, message and time |
| RequestService.ReviewRequestOutcomeSpec | src/main/java/com/bahubba/bahubbabookclub/service/impl/MembershipRequestServiceImpl.java:119-191 | the guards of reviewMembershipRequest in order (signed in, request exists, caller has a membership row of its club, with ADMIN role, request OPEN, on approval the requester not yet a member); when all pass the outcome is that request reviewed; a success reviews a stored OPEN request, and an approval only for a requester with no membership of the club |
| RequestService.ReviewKeepsValid | src/main/java/com/bahubba/bahubbabookclub/service/impl/MembershipRequestServiceImpl.java:155-190 | saving the reviewed request, and on approval the new membership, keeps the store valid |
| RequestService.ReviewMembershipRequest | src/main/java/com/bahubba/bahubbabookclub/service/impl/MembershipRequestServiceImpl.java:119-191 | applies the review outcome: on approval it appends the requester's non-owner membership with the role chosen, and it saves the reviewed request over the stored one; an error changes nothing |
| RequestService.RejectionKeepsValid | src/main/java/com/bahubba/bahubbabookclub/service/impl/MembershipRequestServiceImpl.java:175-190 | saving a reviewed request without a new membership keeps the store valid |
| RequestService.ApprovalKeepsValid | src/main/java/com/bahubba/bahubbabookclub/service/impl/MembershipRequestServiceImpl.java:166-171 | adding the requester's membership and saving the reviewed request keeps the store valid |
| RequestService.StoredRequestIsPending | src/main/java/com/bahubba/bahubbabookclub/service/impl/MembershipRequestServiceImpl.java:64-74 | once a new OPEN request is stored, the requester has a pending request for that club |
| RequestService.ReviewIsFinal | src/main/java/com/bahubba/bahubbabookclub/service/impl/MembershipRequestServiceImpl.java:147-150 | after a review is saved, the stored request is no longer OPEN, so a second review is refused |
| Scenarios.JoinByRequest | src/main/java/com/bahubba/bahubbabookclub/service/impl/MembershipRequestServiceImpl.java:119-191 | a club is created, user 2 asks to join, user 1 approves; user 2 then holds the USER role and a second review of the request is refused |
| Scenarios.CreateReaders | src/main/java/com/bahubba/bahubbabookclub/service/impl/BookClubServiceImpl.java:48-80 | on an empty store, create gives the club "Readers" under id 0, with the description and the PRIVATE publicity given |
| Scenarios.AskToJoin | src/main/java/com/bahubba/bahubbabookclub/service/impl/MembershipRequestServiceImpl.java:41-61 | user 2's request for "Readers" is OPEN, under the next id |
| Scenarios.ApproveRequest | src/main/java/com/bahubba/bahubbabookclub/service/impl/MembershipRequestServiceImpl.java:119-191 | the owner may approve an OPEN request of a non-member; the approval adds the new member and saves the request |
| Scenarios.ReviewAgain | src/main/java/com/bahubba/bahubbabookclub/service/impl/MembershipRequestServiceImpl.java:147-150 | reviewing an approved request is refused with BadAction |
| Scenarios.JoinedRole | src/main/java/com/bahubba/bahubbabookclub/service/impl/MembershipServiceImpl.java:68-82 | after the approval, the role lookup finds the new member's row |
| Seqs.FindIndex | src/main/java/com/bahubba/bahubbabookclub/service/impl/MembershipRequestServiceImpl.java:138-142 | the index of the first element satisfying the test, or none when no element does |
| Seqs.Find | src/main/java/com/bahubba/bahubbabookclub/service/impl/MembershipRequestServiceImpl.java:138-142 | an element satisfying the test, or none exactly when no element does |
| Seqs.Filter | src/main/java/com/bahubba/bahubbabookclub/repository/BookClubMembershipRepo.java:34-35 | exactly the elements satisfying the test, each as often as in the input |
| Seqs.Count | src/main/java/com/bahubba/bahubbabookclub/repository/MembershipRequestRepo.java:25-33 | the number of matching elements, zero exactly when none matches |
| Seqs.CountIsFilterLength | src/main/java/com/bahubba/bahubbabookclub/repository/MembershipRequestRepo.java:25-33 | the count of matching elements is the length of their filter |
| Seqs.Insert | src/main/java/com/bahubba/bahubbabookclub/repository/BookClubMembershipRepo.java:30 | inserting into a sorted sequence adds the element and keeps it sorted |
| Seqs.InsertHead | src/main/java/com/bahubba/bahubbabookclub/repository/BookClubMembershipRepo.java:30 | a sorted sequence stays sorted when its tail is replaced by a sorted sequence of its head's successors |
| Seqs.SortBy | src/main/java/com/bahubba/bahubbabookclub/repository/BookClubMembershipRepo.java:30 | a sorted permutation of the rows |
| Seqs.SortByKeepsRows | src/main/java/com/bahubba/bahubbabookclub/repository/BookClubMembershipRepo.java:30 | sorting keeps exactly the same rows |

## Left out

- Authentication is left out. The signed-in user from the security context is the parameter `user: Option<UserId>`.
- The clock is a parameter `now`. `LocalDateTime.now()` cannot be read in the model.
- Application users are not an entity. Only the set of departed users is kept, and no operation here changes it.
- UUIDs are natural numbers taken from a counter, `nextId`.
- Stock club images (`getStockBookClubImages`) and the S3 client are left out, as storage outside the core.
- Mapping entities to DTOs is left out. A membership DTO is modelled only as `MembershipView`.
- The notification that create saves for the founder is left out. Notifications are outside the membership core.
- `@Transactional` boundaries and concurrent requests are not modelled. Each operation is atomic.
- Database constraint violations other than a duplicate club name are not modelled.
- Case folding covers ASCII letters only. The JVM's Unicode case mapping is not modelled.
- Rows that tie on `joined` or `requested` come in the order the model's insertion sort gives them; the database leaves that order unspecified. `findFirst` over a club's member set uses table order; in the source that order is unspecified too.
- ClubService.FindAll, ClubService.FindAllForUser and ClubService.Search: their queries have no ORDER BY, so the database may hand rows back in any order. The model returns them in table order, and which rows land on which page holds for that order only.
- A null name, image, description, publicity or role in a request body is not modelled: the source would pass it on to a NOT NULL column and the save would fail. The model takes these fields as values, copied as given. The join-request message and the review message are optional, as in the source.
- Spring `Page` metadata (total elements, total pages) is not modelled. A page is its index, size and rows.
- NameNotUnique and InvalidPageRequest stand for exceptions raised by the database and by Spring Data. The services do not raise them themselves.
- The request repository's bulk UPDATE query is modelled, but no service uses it. The request service saves the loaded entity instead.
- The repository's status-list query is modelled, although no service here calls it.
