/** Identity: the custom user model with its three roles, the role
    predicates every other app consults, and the user-administration views. */
module Accounts {
  import opened Wrappers
  import opened Queries
  import Text

  type UserId = int

  /** `User.ROLE_CHOICES`: exactly three roles. */
  datatype Role = Regular | Moderator | Admin

  /** The value stored in the `role` column. */
  function RoleCode(r: Role): string {
    match r
    case Regular => "user"
    case Moderator => "moderator"
    case Admin => "admin"
  }

  /** Reads a stored `role` value back; anything but the three codes is no role. */
  function RoleFromCode(code: string): (r: Option<Role>)
    ensures r.Some? ==> RoleCode(r.value) == code
    ensures r.None? <==> code != "user" && code != "moderator" && code != "admin"
  {
    if code == "user" then Some(Regular)
    else if code == "moderator" then Some(Moderator)
    else if code == "admin" then Some(Admin)
    else None
  }

  /** The codes of distinct roles differ, so a role survives storage. */
  lemma RoleCodeRoundTrip(r: Role)
    ensures RoleFromCode(RoleCode(r)) == Some(r)
  {
  }

  /** The `role` field's default. */
  const DefaultRole: Role := Regular

  datatype User = User(id: UserId, username: string, role: Role, dateJoined: int)

  /** A freshly registered account. */
  function NewUser(id: UserId, username: string, now: int): (u: User)
    ensures u.id == id && u.username == username && u.dateJoined == now
    ensures !IsModerator(u) && !IsAdmin(u)
  {
    User(id, username, DefaultRole, now)
  }

  /** `User.is_moderator`: the role is one of moderator and admin. */
  predicate IsModerator(u: User)
    ensures IsModerator(u) <==> u.role != Regular
  {
    RoleCode(u.role) in ["moderator", "admin"]
  }

  /** `User.is_admin`. */
  predicate IsAdmin(u: User)
    ensures IsAdmin(u) <==> RoleCode(u.role) == "admin"
  {
    u.role == Admin
  }

  /** Every admin passes every moderator check. */
  lemma AdminIsModerator(u: User)
    requires IsAdmin(u)
    ensures IsModerator(u)
  {
  }

  /** The edit and delete gate of posts, comments, topics, messages, gallery
      and portfolio items: the requester owns the object or moderates. */
  predicate OwnerOrModerator(requester: User, owner: UserId)
    ensures OwnerOrModerator(requester, owner) <==> requester.id == owner || requester.role != Regular
  {
    requester.id == owner || IsModerator(requester)
  }

  /** The stricter gate of announcements: a moderator who is the author, or
      an admin. */
  predicate ModeratorAndAuthorOrAdmin(requester: User, author: UserId)
    ensures ModeratorAndAuthorOrAdmin(requester, author) <==>
      (requester.role == Moderator && requester.id == author) || requester.role == Admin
  {
    IsModerator(requester) && (requester.id == author || IsAdmin(requester))
  }

  /** Why a request was refused before it did anything: the object does not
      exist (404) or the requester failed the view's `test_func` (403). */
  datatype Refusal = NotFound | Forbidden

  /** The `test_func` of an update or delete view whose object must exist:
      `get_object()` answers 404 for a missing object before the ownership
      test can answer 403. `owner` is the owner of the object, if it exists. */
  function OwnerGate(requester: User, owner: Option<UserId>): (r: Option<Refusal>)
    ensures r.None? <==> owner.Some? && OwnerOrModerator(requester, owner.value)
    ensures r == Some(NotFound) <==> owner.None?
  {
    if owner.None? then Some(NotFound)
    else if !OwnerOrModerator(requester, owner.value) then Some(Forbidden)
    else None
  }

  /** The `test_func` of a view that tests the requester's role alone: it
      runs before `get_object()`, so a refused requester gets 403 even for
      a missing object, and an allowed one gets the 404. */
  function RoleGate(allowed: bool, found: bool): (r: Option<Refusal>)
    ensures r.None? <==> allowed && found
    ensures !allowed ==> r == Some(Forbidden)
    ensures allowed && !found ==> r == Some(NotFound)
  {
    if !allowed then Some(Forbidden)
    else if !found then Some(NotFound)
    else None
  }

  /** `UserListView.test_func`. */
  predicate CanListUsers(requester: User) { IsModerator(requester) }

  /** `UserRoleUpdateView.test_func`. */
  predicate CanChangeRole(requester: User) { IsAdmin(requester) }

  /** `UserDeleteView.test_func`. */
  predicate CanDeleteUser(requester: User) { IsAdmin(requester) }

  /** Newest account first (`order_by('-date_joined')`). */
  function NewestJoined(u: User): (int, int) { (-u.dateJoined, 0) }

  /** The two optional query parameters of the user list, applied one after
      the other: an empty parameter keeps every user. */
  predicate MatchesQuery(u: User, roleFilter: string, search: string) {
    (roleFilter == "" || RoleCode(u.role) == roleFilter)
    && (search == "" || Text.IContains(u.username, search))
  }

  /** `UserListView`: moderators only; an empty parameter filters nothing. */
  function ListUsers(requester: User, users: seq<User>, roleFilter: string, search: string)
    : (r: Result<seq<User>, Refusal>)
    ensures r.Failure? <==> !IsModerator(requester)
    ensures r.Failure? ==> r.error == Forbidden
    ensures r.Success? ==> SortedBy(r.value, NewestJoined)
    ensures r.Success? ==> forall u :: u in r.value <==> u in users && MatchesQuery(u, roleFilter, search)
    ensures r.Success? && roleFilter == "" && search == "" ==> multiset(r.value) == multiset(users)
  {
    if !CanListUsers(requester) then Failure(Forbidden)
    else
      var selected := Filter(users, (u: User) => MatchesQuery(u, roleFilter, search));
      var sorted := SortBy(selected, NewestJoined);
      assert forall u :: u in sorted <==> u in multiset(sorted);
      Success(sorted)
  }

  /** `UserRoleUpdateView`: admins only, then the 404 of `get_object()`;
      only the role changes. */
  function ChangeRole(requester: User, target: Option<User>, newRole: Role): (r: Result<User, Refusal>)
    ensures r.Success? <==> IsAdmin(requester) && target.Some?
    ensures !IsAdmin(requester) ==> r == Failure(Forbidden)
    ensures IsAdmin(requester) && target.None? ==> r == Failure(NotFound)
    ensures r.Success? ==> r.value == target.value.(role := newRole)
  {
    match RoleGate(CanChangeRole(requester), target.Some?)
    case Some(refusal) => Failure(refusal)
    case None => Success(target.value.(role := newRole))
  }

  /** Giving a user their old role back undoes a role change. */
  lemma ChangeRoleUndo(admin: User, u: User, newRole: Role)
    requires IsAdmin(admin)
    ensures ChangeRole(admin, Some(ChangeRole(admin, Some(u), newRole).value), u.role) == Success(u)
  {
  }

  /** `cannot_delete_self` on the delete confirmation page. */
  predicate CannotDeleteSelf(requester: User, target: User) {
    requester.id == target.id
  }

  /** `UserDeleteView`: the gate is checked before the lookup, and deleting
      oneself is not prevented (the flag above is only shown). */
  function DeleteUser(requester: User, users: seq<User>, targetId: UserId): (r: Result<seq<User>, Refusal>)
    ensures r.Success? <==> IsAdmin(requester) && Find(users, (u: User) => u.id, targetId).Some?
    ensures !IsAdmin(requester) ==> r == Failure(Forbidden)
    ensures IsAdmin(requester) ==> (r == Failure(NotFound) <==> Find(users, (u: User) => u.id, targetId).None?)
    ensures r.Success? ==> forall u :: u in r.value <==> u in users && u.id != targetId
  {
    match RoleGate(CanDeleteUser(requester), Find(users, (u: User) => u.id, targetId).Some?)
    case Some(refusal) => Failure(refusal)
    case None => Success(Filter(users, (u: User) => u.id != targetId))
  }

  /** An admin may delete their own account: the flag is not enforced. */
  lemma AdminMayDeleteSelf(admin: User, users: seq<User>)
    requires IsAdmin(admin) && admin in users
    ensures CannotDeleteSelf(admin, admin)
    ensures DeleteUser(admin, users, admin.id).Success?
  {
    assert Find(users, (u: User) => u.id, admin.id).Some?;
  }
}
