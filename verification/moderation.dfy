/** The approval workflow that gallery media and portfolio items share:
    moderators' uploads are approved at once, an owner's edit sends the item
    back to the moderation queue, and strangers see approved items only. */
module Moderation {
  import opened Wrappers
  import opened Queries
  import opened Accounts

  /** `is_approved` of a new item: set for a moderator's upload, otherwise
      the field default (false). */
  function ApprovedOnCreate(requester: User): (r: bool)
    ensures r <==> requester.role == Moderator || requester.role == Admin
  {
    if IsModerator(requester) then true else false
  }

  /** `is_approved` after an edit: a non-moderator's edit resets it, a
      moderator's edit leaves it as it was. */
  function ApprovalAfterEdit(requester: User, wasApproved: bool): (r: bool)
    ensures !IsModerator(requester) ==> !r
    ensures IsModerator(requester) ==> r == wasApproved
    ensures r ==> wasApproved
  {
    if !IsModerator(requester) then false else wasApproved
  }

  /** Whether `viewer` (None for an anonymous visitor) sees an item of
      `owner` on that owner's page. */
  predicate VisibleTo(viewer: Option<UserId>, owner: UserId, approved: bool) {
    viewer == Some(owner) || approved
  }

  /** An owner's page as `viewer` sees it: everything for the owner
      themselves, only the approved items for anyone else. */
  function OwnerPage<T(!new)>(items: seq<T>, ownerOf: T -> UserId, approvedOf: T -> bool,
                             viewer: Option<UserId>, owner: UserId): (r: seq<T>)
    ensures viewer == Some(owner) ==> forall x :: x in r <==> x in items && ownerOf(x) == owner
    ensures viewer != Some(owner) ==> forall x :: x in r <==> x in items && ownerOf(x) == owner && approvedOf(x)
  {
    Filter(items, (x: T) => ownerOf(x) == owner && VisibleTo(viewer, owner, approvedOf(x)))
  }

  /** The public lists: approved items only. */
  function ApprovedOnly<T(!new)>(items: seq<T>, approvedOf: T -> bool): (r: seq<T>)
    ensures forall x :: x in r <==> x in items && approvedOf(x)
  {
    Filter(items, approvedOf)
  }

  /** The moderation queue: exactly the items still awaiting approval. */
  function AwaitingApproval<T(!new)>(items: seq<T>, approvedOf: T -> bool): (r: seq<T>)
    ensures forall x :: x in r <==> x in items && !approvedOf(x)
  {
    Filter(items, (x: T) => !approvedOf(x))
  }

  /** The reject views of both apps: a moderator-only delete whose
      moderator test runs before the lookup; exactly the rows with that id
      go. */
  function ModeratorRemove<T(!new)>(requester: User, items: seq<T>, idOf: T -> int, id: int)
    : (r: Result<seq<T>, Refusal>)
    ensures r.Success? <==> IsModerator(requester) && Find(items, idOf, id).Some?
    ensures !IsModerator(requester) ==> r == Failure(Forbidden)
    ensures IsModerator(requester) && Find(items, idOf, id).None? ==> r == Failure(NotFound)
    ensures r.Success? ==> forall x :: x in r.value <==> x in items && idOf(x) != id
  {
    match RoleGate(IsModerator(requester), Find(items, idOf, id).Some?)
    case Some(refusal) => Failure(refusal)
    case None => Success(Filter(items, (x: T) => idOf(x) != id))
  }

  /** Every item is either public or queued, never both. */
  lemma PublicOrQueued<T(!new)>(items: seq<T>, approvedOf: T -> bool, x: T)
    requires x in items
    ensures x in ApprovedOnly(items, approvedOf) <==> x !in AwaitingApproval(items, approvedOf)
  {
  }
}
