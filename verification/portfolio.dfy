/** Players' portfolios: screenshots, demos and highlights, tagged with the
    player's role, map and weapon, public once a moderator approves them. */
module Portfolio {
  import opened Wrappers
  import opened Queries
  import opened Accounts
  import opened Moderation
  import Text

  /** The fields `PortfolioItemForm` edits. */
  datatype ItemFields = ItemFields(
    title: string, description: string, itemType: string,
    role: string, gameMap: string, weapon: string)

  datatype PortfolioItem = PortfolioItem(
    id: int,
    owner: UserId,
    fields: ItemFields,
    isApproved: bool,
    createdAt: int)

  function OwnerOfItem(p: PortfolioItem): UserId { p.owner }
  function IsApprovedItem(p: PortfolioItem): bool { p.isApproved }
  function NewestItem(p: PortfolioItem): (int, int) { (-p.createdAt, 0) }

  /** `PortfolioItemCreateView.form_valid`; the new item's page follows
      whether or not it is approved. */
  function CreateItem(requester: User, id: int, fields: ItemFields, now: int): (p: PortfolioItem)
    ensures p.owner == requester.id && p.fields == fields && p.id == id
    ensures p.isApproved <==> IsModerator(requester)
  {
    PortfolioItem(id, requester.id, fields, ApprovedOnCreate(requester), now)
  }

  function OwnerOf(p: Option<PortfolioItem>): Option<UserId> {
    if p.Some? then Some(p.value.owner) else None
  }

  /** `PortfolioItemUpdateView`: owner or moderator; a non-moderator's edit
      withdraws the approval. */
  function EditItem(requester: User, item: Option<PortfolioItem>, fields: ItemFields)
    : (r: Result<PortfolioItem, Refusal>)
    ensures item.None? ==> r == Failure(NotFound)
    ensures r.Success? <==> item.Some? && OwnerOrModerator(requester, item.value.owner)
    ensures r.Success? ==> r.value == item.value.(fields := fields, isApproved := r.value.isApproved)
    ensures r.Success? ==> (r.value.isApproved <==> item.value.isApproved && IsModerator(requester))
  {
    match OwnerGate(requester, OwnerOf(item))
    case Some(refusal) => Failure(refusal)
    case None => Success(item.value.(fields := fields, isApproved := ApprovalAfterEdit(requester, item.value.isApproved)))
  }

  /** An owner who edits an approved item sends it back to the queue; a
      moderator who edits it keeps it public. */
  lemma EditByOwnerRequeues(owner: User, m: User, p: PortfolioItem, fields: ItemFields)
    requires owner.role == Regular && owner.id == p.owner
    requires m.role != Regular
    ensures EditItem(owner, Some(p), fields).Success?
    ensures p.id in (set q | q in AwaitingApproval([EditItem(owner, Some(p), fields).value], IsApprovedItem) :: q.id)
    ensures EditItem(m, Some(p), fields).Success?
    ensures EditItem(m, Some(p), fields).value.isApproved == p.isApproved
  {
    var e := EditItem(owner, Some(p), fields).value;
    assert e in AwaitingApproval([e], IsApprovedItem);
  }

  /** `PortfolioItemDeleteView`: owner or moderator. */
  function DeleteItem(requester: User, items: seq<PortfolioItem>, id: int): (r: Result<seq<PortfolioItem>, Refusal>)
    ensures Find(items, (p: PortfolioItem) => p.id, id).None? ==> r == Failure(NotFound)
    ensures r.Success? <==> (Find(items, (p: PortfolioItem) => p.id, id).Some?
      && OwnerOrModerator(requester, Find(items, (p: PortfolioItem) => p.id, id).value.owner))
    ensures r.Success? ==> forall p :: p in r.value <==> p in items && p.id != id
  {
    match OwnerGate(requester, OwnerOf(Find(items, (p: PortfolioItem) => p.id, id)))
    case Some(refusal) => Failure(refusal)
    case None => Success(Filter(items, (p: PortfolioItem) => p.id != id))
  }

  /** `ApprovePortfolioItemView`: the moderator test runs before the lookup. */
  function ApproveItem(requester: User, item: Option<PortfolioItem>): (r: Result<PortfolioItem, Refusal>)
    ensures r.Success? <==> IsModerator(requester) && item.Some?
    ensures !IsModerator(requester) ==> r == Failure(Forbidden)
    ensures IsModerator(requester) && item.None? ==> r == Failure(NotFound)
    ensures r.Success? ==> r.value == item.value.(isApproved := true)
  {
    match RoleGate(IsModerator(requester), item.Some?)
    case Some(refusal) => Failure(refusal)
    case None => Success(item.value.(isApproved := true))
  }

  /** `RejectPortfolioItemView`: a moderator-only delete. */
  function RejectItem(requester: User, items: seq<PortfolioItem>, id: int): (r: Result<seq<PortfolioItem>, Refusal>)
    ensures r.Success? <==> IsModerator(requester) && Find(items, (p: PortfolioItem) => p.id, id).Some?
    ensures !IsModerator(requester) ==> r == Failure(Forbidden)
    ensures IsModerator(requester) && Find(items, (p: PortfolioItem) => p.id, id).None? ==> r == Failure(NotFound)
    ensures r.Success? ==> forall p :: p in r.value <==> p in items && p.id != id
  {
    ModeratorRemove(requester, items, (p: PortfolioItem) => p.id, id)
  }

  /** `PortfolioListView`: approved, newest first. */
  function PublicPortfolio(items: seq<PortfolioItem>): (r: seq<PortfolioItem>)
    ensures SortedBy(r, NewestItem)
    ensures forall p :: p in r <==> p in items && p.isApproved
  {
    var r := SortBy(ApprovedOnly(items, IsApprovedItem), NewestItem);
    assert forall p :: p in r <==> p in multiset(r);
    r
  }

  /** `UserPortfolioListView`: 404 for an unknown user; the owner sees all
      their items, anyone else the approved ones. */
  function UserPortfolio(viewer: Option<UserId>, owner: UserId, users: seq<User>, items: seq<PortfolioItem>)
    : (r: Result<seq<PortfolioItem>, Refusal>)
    ensures r.Failure? <==> Find(users, (u: User) => u.id, owner).None?
    ensures r.Success? ==> SortedBy(r.value, NewestItem)
    ensures r.Success? ==> forall p :: p in r.value <==> p in items && p.owner == owner && (viewer == Some(owner) || p.isApproved)
  {
    if Find(users, (u: User) => u.id, owner).None? then Failure(NotFound)
    else
      var r := SortBy(OwnerPage(items, OwnerOfItem, IsApprovedItem, viewer, owner), NewestItem);
      assert forall p :: p in r <==> p in multiset(r);
      Success(r)
  }

  /** An anonymous visitor of a portfolio sees exactly its approved part. */
  lemma AnonymousSeesApprovedOnly(owner: UserId, users: seq<User>, items: seq<PortfolioItem>, p: PortfolioItem)
    requires Find(users, (u: User) => u.id, owner).Some?
    ensures UserPortfolio(None, owner, users, items).Success?
    ensures p in UserPortfolio(None, owner, users, items).value <==> p in PublicPortfolio(items) && p.owner == owner
  {
  }

  /** The predicate `PortfolioSearchView` filters by. */
  predicate SearchMatches(p: PortfolioItem, q: string) {
    Text.IContains(p.fields.title, q) || Text.IContains(p.fields.description, q)
      || Text.IContains(p.fields.gameMap, q) || Text.IContains(p.fields.weapon, q)
  }

  /** `PortfolioSearchView`: nothing for an empty query, otherwise approved
      items matching the query in title, description, map or weapon. */
  function SearchItems(items: seq<PortfolioItem>, q: string): (r: seq<PortfolioItem>)
    ensures q == "" ==> r == []
    ensures SortedBy(r, NewestItem)
    ensures q != "" ==> forall p :: p in r <==> (p in items && p.isApproved && SearchMatches(p, q))
  {
    if q == "" then []
    else
      var r := SortBy(Filter(items, (p: PortfolioItem) => p.isApproved && SearchMatches(p, q)), NewestItem);
      assert forall p :: p in r <==> p in multiset(r);
      r
  }

  /** The search ignores ASCII case: a query and its lower-case form find
      the same items. */
  lemma SearchIgnoresCase(items: seq<PortfolioItem>, q: string)
    requires q != ""
    ensures forall p :: p in SearchItems(items, q) <==> p in SearchItems(items, Text.AsciiLower(q))
  {
    Text.AsciiLowerIdempotent(q);
  }

  /** The approved items whose chosen field equals `value`, newest first:
      the list views by role and by type differ only in the field. */
  function ApprovedWhere(items: seq<PortfolioItem>, field: ItemFields -> string, value: string): (r: seq<PortfolioItem>)
    ensures SortedBy(r, NewestItem)
    ensures forall p :: p in r <==> p in items && p.isApproved && field(p.fields) == value
  {
    var r := SortBy(Filter(items, (p: PortfolioItem) => field(p.fields) == value && p.isApproved), NewestItem);
    assert forall p :: p in r <==> p in multiset(r);
    r
  }

  /** `PortfolioByRoleListView`. */
  function ItemsByRole(items: seq<PortfolioItem>, role: string): (r: seq<PortfolioItem>)
    ensures SortedBy(r, NewestItem)
    ensures forall p :: p in r <==> p in items && p.isApproved && p.fields.role == role
  {
    ApprovedWhere(items, (f: ItemFields) => f.role, role)
  }

  /** `PortfolioByTypeListView`. */
  function ItemsByType(items: seq<PortfolioItem>, itemType: string): (r: seq<PortfolioItem>)
    ensures SortedBy(r, NewestItem)
    ensures forall p :: p in r <==> p in items && p.isApproved && p.fields.itemType == itemType
  {
    ApprovedWhere(items, (f: ItemFields) => f.itemType, itemType)
  }

  /** `PortfolioByMapListView`: the map is matched as a case-insensitive
      substring, not as an exact value. */
  function ItemsByMap(items: seq<PortfolioItem>, gameMap: string): (r: seq<PortfolioItem>)
    ensures SortedBy(r, NewestItem)
    ensures forall p :: p in r <==> p in items && p.isApproved && Text.IContains(p.fields.gameMap, gameMap)
  {
    var r := SortBy(Filter(items, (p: PortfolioItem) => Text.IContains(p.fields.gameMap, gameMap) && p.isApproved), NewestItem);
    assert forall p :: p in r <==> p in multiset(r);
    r
  }

  /** `PortfolioModerationListView`: moderators only; the unapproved items. */
  function ModerationQueue(requester: User, items: seq<PortfolioItem>): (r: Result<seq<PortfolioItem>, Refusal>)
    ensures r.Success? <==> IsModerator(requester)
    ensures r.Success? ==> SortedBy(r.value, NewestItem)
    ensures r.Success? ==> forall p :: p in r.value <==> p in items && !p.isApproved
  {
    if !IsModerator(requester) then Failure(Forbidden)
    else
      var r := SortBy(AwaitingApproval(items, IsApprovedItem), NewestItem);
      assert forall p :: p in r <==> p in multiset(r);
      Success(r)
  }

  /** `similar_items` on the detail page: the newest four other approved
      items of the same player, or all of them when there are fewer. */
  function SimilarItems(item: PortfolioItem, items: seq<PortfolioItem>): (r: seq<PortfolioItem>)
    ensures |r| <= 4
    ensures SortedBy(r, NewestItem)
    ensures forall p :: p in r ==> p in items && p.isApproved && p.owner == item.owner && p.id != item.id
    ensures |r| < 4 ==> forall p :: p in items && p.isApproved && p.owner == item.owner && p.id != item.id ==> p in r
    ensures forall p, x ::
      p in items && p.isApproved && p.owner == item.owner && p.id != item.id && p !in r && x in r ==> p.createdAt <= x.createdAt
  {
    var all := SortBy(Filter(items, (p: PortfolioItem) => p.owner == item.owner && p.isApproved && p.id != item.id), NewestItem);
    assert forall p :: p in all <==> p in multiset(all);
    var r := Prefix(all, 4);
    forall p, x | p in items && p.isApproved && p.owner == item.owner && p.id != item.id && p !in r && x in r
      ensures p.createdAt <= x.createdAt
    {
      PrefixOfSorted(all, 4, NewestItem, x, p);
    }
    r
  }
}
