/** The media gallery: screenshots, memes and clips, shown publicly once a
    moderator approves them. */
module Gallery {
  import opened Wrappers
  import opened Queries
  import opened Accounts
  import opened Moderation
  import Text

  /** The fields `MediaItemForm` edits. */
  datatype MediaFields = MediaFields(title: string, mediaType: string, description: string)

  datatype MediaItem = MediaItem(
    id: int,
    owner: UserId,
    fields: MediaFields,
    isApproved: bool,
    likes: nat,      // a bare counter: nobody is recorded as having liked
    createdAt: int)

  function OwnerOfItem(m: MediaItem): UserId { m.owner }
  function IsApprovedItem(m: MediaItem): bool { m.isApproved }
  function NewestMedia(m: MediaItem): (int, int) { (-m.createdAt, 0) }
  function MostLiked(m: MediaItem): (int, int) { (0 - m.likes as int, 0) }

  /** `MediaUploadView.form_valid`. */
  function Upload(requester: User, id: int, fields: MediaFields, now: int): (m: MediaItem)
    ensures m.owner == requester.id && m.fields == fields && m.likes == 0
    ensures m.isApproved <==> IsModerator(requester)
  {
    MediaItem(id, requester.id, fields, ApprovedOnCreate(requester), 0, now)
  }

  datatype UploadRedirect = ToDetail | ToGallery

  /** `MediaUploadView.get_success_url`. */
  function AfterUpload(m: MediaItem): (r: UploadRedirect)
    ensures r == ToDetail <==> m.isApproved
  {
    if m.isApproved then ToDetail else ToGallery
  }

  /** A moderator lands on the new item's page, anyone else on the gallery. */
  lemma UploadRedirectsByRole(requester: User, id: int, fields: MediaFields, now: int)
    ensures AfterUpload(Upload(requester, id, fields, now)) == ToDetail <==> requester.role != Regular
  {
  }

  function OwnerOf(m: Option<MediaItem>): Option<UserId> {
    if m.Some? then Some(m.value.owner) else None
  }

  /** `MediaUpdateView`: owner or moderator; the new fields replace the old
      ones and a non-moderator's edit withdraws the approval. */
  function Edit(requester: User, item: Option<MediaItem>, fields: MediaFields): (r: Result<MediaItem, Refusal>)
    ensures item.None? ==> r == Failure(NotFound)
    ensures r.Success? <==> item.Some? && OwnerOrModerator(requester, item.value.owner)
    ensures r.Success? ==> r.value == item.value.(fields := fields, isApproved := r.value.isApproved)
    ensures r.Success? ==> (r.value.isApproved <==> item.value.isApproved && IsModerator(requester))
  {
    match OwnerGate(requester, OwnerOf(item))
    case Some(refusal) => Failure(refusal)
    case None => Success(item.value.(fields := fields, isApproved := ApprovalAfterEdit(requester, item.value.isApproved)))
  }

  /** `MediaDeleteView`: owner or moderator. */
  function Delete(requester: User, items: seq<MediaItem>, id: int): (r: Result<seq<MediaItem>, Refusal>)
    ensures Find(items, (m: MediaItem) => m.id, id).None? ==> r == Failure(NotFound)
    ensures r.Success? <==> (Find(items, (m: MediaItem) => m.id, id).Some?
      && OwnerOrModerator(requester, Find(items, (m: MediaItem) => m.id, id).value.owner))
    ensures r.Success? ==> forall m :: m in r.value <==> m in items && m.id != id
  {
    match OwnerGate(requester, OwnerOf(Find(items, (m: MediaItem) => m.id, id)))
    case Some(refusal) => Failure(refusal)
    case None => Success(Filter(items, (m: MediaItem) => m.id != id))
  }

  /** `LikeMediaView`: every request adds one like, whoever sends it. */
  function Like(item: Option<MediaItem>): (r: Result<MediaItem, Refusal>)
    ensures r.Failure? <==> item.None?
    ensures r.Success? ==> r.value.likes == item.value.likes + 1 && r.value == item.value.(likes := r.value.likes)
  {
    if item.None? then Failure(NotFound) else Success(item.value.(likes := item.value.likes + 1))
  }

  /** Likes are not deduplicated: the same visitor liking twice adds two. */
  lemma LikeTwiceAddsTwo(m: MediaItem)
    ensures Like(Like(Some(m)).ToOption()).Success?
    ensures Like(Like(Some(m)).ToOption()).value.likes == m.likes + 2
  {
  }

  /** `ApproveMediaView`: the moderator test runs before the lookup. */
  function Approve(requester: User, item: Option<MediaItem>): (r: Result<MediaItem, Refusal>)
    ensures r.Success? <==> IsModerator(requester) && item.Some?
    ensures !IsModerator(requester) ==> r == Failure(Forbidden)
    ensures IsModerator(requester) && item.None? ==> r == Failure(NotFound)
    ensures r.Success? ==> r.value == item.value.(isApproved := true)
  {
    match RoleGate(IsModerator(requester), item.Some?)
    case Some(refusal) => Failure(refusal)
    case None => Success(item.value.(isApproved := true))
  }

  /** Approving an approved item changes nothing. */
  lemma ApproveIdempotent(requester: User, m: MediaItem)
    requires IsModerator(requester)
    ensures Approve(requester, Approve(requester, Some(m)).ToOption()) == Approve(requester, Some(m))
  {
  }

  /** `RejectMediaView`: a moderator-only delete; the moderator test runs
      before the lookup. */
  function Reject(requester: User, items: seq<MediaItem>, id: int): (r: Result<seq<MediaItem>, Refusal>)
    ensures r.Success? <==> IsModerator(requester) && Find(items, (m: MediaItem) => m.id, id).Some?
    ensures !IsModerator(requester) ==> r == Failure(Forbidden)
    ensures IsModerator(requester) && Find(items, (m: MediaItem) => m.id, id).None? ==> r == Failure(NotFound)
    ensures r.Success? ==> forall m :: m in r.value <==> m in items && m.id != id
  {
    ModeratorRemove(requester, items, (m: MediaItem) => m.id, id)
  }

  /** `UserGalleryListView`: 404 for an unknown user; the owner sees all
      their items, anyone else the approved ones; newest first. */
  function UserGallery(viewer: Option<UserId>, owner: UserId, users: seq<User>, items: seq<MediaItem>)
    : (r: Result<seq<MediaItem>, Refusal>)
    ensures r.Failure? <==> Find(users, (u: User) => u.id, owner).None?
    ensures r.Success? ==> SortedBy(r.value, NewestMedia)
    ensures r.Success? ==> forall m :: m in r.value <==> m in items && m.owner == owner && (viewer == Some(owner) || m.isApproved)
  {
    if Find(users, (u: User) => u.id, owner).None? then Failure(NotFound)
    else
      var r := SortBy(OwnerPage(items, OwnerOfItem, IsApprovedItem, viewer, owner), NewestMedia);
      assert forall m :: m in r <==> m in multiset(r);
      Success(r)
  }

  /** What a stranger sees of a gallery, its owner sees too. */
  lemma OwnerSeesMore(stranger: UserId, owner: UserId, users: seq<User>, items: seq<MediaItem>, m: MediaItem)
    requires UserGallery(Some(stranger), owner, users, items).Success?
    requires m in UserGallery(Some(stranger), owner, users, items).value
    ensures m in UserGallery(Some(owner), owner, users, items).value
  {
  }

  /** `GalleryListView` and `LatestMediaListView`: approved, newest first. */
  function PublicGallery(items: seq<MediaItem>): (r: seq<MediaItem>)
    ensures SortedBy(r, NewestMedia)
    ensures forall m :: m in r <==> m in items && m.isApproved
  {
    var r := SortBy(ApprovedOnly(items, IsApprovedItem), NewestMedia);
    assert forall m :: m in r <==> m in multiset(r);
    r
  }

  /** `PopularMediaListView`: approved, most liked first. */
  function PopularMedia(items: seq<MediaItem>): (r: seq<MediaItem>)
    ensures SortedBy(r, MostLiked)
    ensures forall m :: m in r <==> m in items && m.isApproved
  {
    var r := SortBy(ApprovedOnly(items, IsApprovedItem), MostLiked);
    assert forall m :: m in r <==> m in multiset(r);
    r
  }

  /** The `featured` strip: the four most liked approved items, or all
      approved items when there are fewer. */
  function Featured(items: seq<MediaItem>): (r: seq<MediaItem>)
    ensures |r| <= 4
    ensures forall m :: m in r ==> m in items && m.isApproved
    ensures forall i, j :: 0 <= i < j < |r| ==> r[i].likes >= r[j].likes
    ensures |r| < 4 ==> forall m :: m in items && m.isApproved ==> m in r
    ensures forall m, x :: m in items && m.isApproved && m !in r && x in r ==> m.likes <= x.likes
  {
    var popular := PopularMedia(items);
    var r := Prefix(popular, 4);
    assert forall i, j :: 0 <= i < j < |r| ==> LexLe(MostLiked(popular[i]), MostLiked(popular[j]));
    forall m, x | m in items && m.isApproved && m !in r && x in r ensures m.likes <= x.likes {
      PrefixOfSorted(popular, 4, MostLiked, x, m);
    }
    r
  }

  /** `MediaByTypeListView`: approved items of one type. */
  function MediaByType(items: seq<MediaItem>, mediaType: string): (r: seq<MediaItem>)
    ensures SortedBy(r, NewestMedia)
    ensures forall m :: m in r <==> m in items && m.isApproved && m.fields.mediaType == mediaType
  {
    var r := SortBy(Filter(items, (m: MediaItem) => m.isApproved && m.fields.mediaType == mediaType), NewestMedia);
    assert forall m :: m in r <==> m in multiset(r);
    r
  }

  /** `GalleryModerationListView`: moderators only; exactly the items
      awaiting approval, newest first. */
  function ModerationQueue(requester: User, items: seq<MediaItem>): (r: Result<seq<MediaItem>, Refusal>)
    ensures r.Success? <==> IsModerator(requester)
    ensures r.Success? ==> SortedBy(r.value, NewestMedia)
    ensures r.Success? ==> forall m :: m in r.value <==> m in items && !m.isApproved
  {
    if !IsModerator(requester) then Failure(Forbidden)
    else
      var r := SortBy(AwaitingApproval(items, IsApprovedItem), NewestMedia);
      assert forall m :: m in r <==> m in multiset(r);
      Success(r)
  }

  /** The owner's name, matched by `user__username__icontains`. */
  predicate OwnerNameMatches(users: seq<User>, owner: UserId, q: string) {
    exists u :: u in users && u.id == owner && Text.IContains(u.username, q)
  }

  /** `GallerySearchView`: nothing for an empty query, otherwise approved
      items whose title, description or owner's name contains the query. */
  function Search(items: seq<MediaItem>, users: seq<User>, q: string): (r: seq<MediaItem>)
    ensures q == "" ==> r == []
    ensures SortedBy(r, NewestMedia)
    ensures q != "" ==> forall m :: m in r <==> (m in items && m.isApproved
      && (Text.IContains(m.fields.title, q) || Text.IContains(m.fields.description, q) || OwnerNameMatches(users, m.owner, q)))
  {
    if q == "" then []
    else
      var r := SortBy(Filter(items, (m: MediaItem) => m.isApproved
        && (Text.IContains(m.fields.title, q) || Text.IContains(m.fields.description, q) || OwnerNameMatches(users, m.owner, q))),
        NewestMedia);
      assert forall m :: m in r <==> m in multiset(r);
      r
  }

  /** `similar_media` on the detail page: up to six other approved items of
      the same type, in table order (the query has no `order_by`); all of
      them when there are fewer than six. */
  function SimilarMedia(item: MediaItem, items: seq<MediaItem>): (r: seq<MediaItem>)
    ensures |r| <= 6
    ensures forall m :: m in r ==> m in items && m.isApproved && m.fields.mediaType == item.fields.mediaType && m.id != item.id
    ensures |r| < 6 ==>
      forall m :: m in items && m.isApproved && m.fields.mediaType == item.fields.mediaType && m.id != item.id ==> m in r
  {
    Prefix(Filter(items, (m: MediaItem) => m.fields.mediaType == item.fields.mediaType && m.isApproved && m.id != item.id), 6)
  }
}
