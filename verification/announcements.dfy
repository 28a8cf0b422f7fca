/** Announcements: written and pinned by moderators; edited or deleted by
    their author (if still a moderator) or by an admin. */
module Announcements {
  import opened Wrappers
  import opened Accounts

  /** The four `announcement_type` choices. */
  datatype AnnouncementType = Tournament | ServerNews | Rules | Update

  datatype Announcement = Announcement(id: int, author: UserId, kind: AnnouncementType, isPinned: bool, createdAt: int)

  /** The stored code of a type. */
  function TypeCode(t: AnnouncementType): string {
    match t
    case Tournament => "tournament"
    case ServerNews => "server"
    case Rules => "rules"
    case Update => "update"
  }

  /** The heading of `AnnouncementTypeListView`: the type's own label, or
      the fallback label ("unknown type", `None` here) for any other code. */
  function TypeLabel(code: string): (r: Option<AnnouncementType>)
    ensures r.Some? ==> TypeCode(r.value) == code
    ensures r.None? <==> forall t: AnnouncementType :: TypeCode(t) != code
  {
    if code == "tournament" then Some(Tournament)
    else if code == "server" then Some(ServerNews)
    else if code == "rules" then Some(Rules)
    else if code == "update" then Some(Update)
    else
      None
  }

  /** Every type's code is labelled with that type. */
  lemma TypeLabelOfCode(t: AnnouncementType)
    ensures TypeLabel(TypeCode(t)) == Some(t)
  {
  }

  /** `AnnouncementCreateView`: moderators only; the author is the requester
      and a new announcement is not pinned. */
  function CreateAnnouncement(requester: User, id: int, kind: AnnouncementType, now: int)
    : (r: Result<Announcement, Refusal>)
    ensures r.Success? <==> IsModerator(requester)
    ensures r.Success? ==> r.value.author == requester.id && !r.value.isPinned && r.value.kind == kind
  {
    if !IsModerator(requester) then Failure(Forbidden)
    else Success(Announcement(id, requester.id, kind, false, now))
  }

  /** The `test_func` of `AnnouncementUpdateView` and
      `AnnouncementDeleteView`, after the 404 of `get_object`. */
  function EditGate(requester: User, announcement: Option<Announcement>): (r: Option<Refusal>)
    ensures announcement.None? ==> r == Some(NotFound)
    ensures r.None? <==> announcement.Some? && ModeratorAndAuthorOrAdmin(requester, announcement.value.author)
  {
    if announcement.None? then Some(NotFound)
    else if !ModeratorAndAuthorOrAdmin(requester, announcement.value.author) then Some(Forbidden)
    else None
  }

  /** A moderator may not touch another moderator's announcement; an admin
      may touch every announcement; a plain user none, not even their own. */
  lemma EditGateCases(requester: User, a: Announcement)
    ensures requester.role == Moderator && requester.id != a.author ==> EditGate(requester, Some(a)) == Some(Forbidden)
    ensures requester.role == Admin ==> EditGate(requester, Some(a)) == None
    ensures requester.role == Regular ==> EditGate(requester, Some(a)) == Some(Forbidden)
  {
  }

  /** `PinAnnouncementView`: the moderator test runs before the lookup; a
      pin flips `is_pinned` and nothing else. */
  function PinAnnouncement(requester: User, announcement: Option<Announcement>): (r: Result<Announcement, Refusal>)
    ensures r.Success? <==> IsModerator(requester) && announcement.Some?
    ensures !IsModerator(requester) ==> r == Failure(Forbidden)
    ensures IsModerator(requester) && announcement.None? ==> r == Failure(NotFound)
    ensures r.Success? ==> (r.value.isPinned == !announcement.value.isPinned
      && r.value == announcement.value.(isPinned := r.value.isPinned))
  {
    match RoleGate(IsModerator(requester), announcement.Some?)
    case Some(refusal) => Failure(refusal)
    case None => Success(announcement.value.(isPinned := !announcement.value.isPinned))
  }

  /** Two pins restore the announcement. */
  lemma PinAnnouncementTwice(requester: User, a: Announcement)
    requires IsModerator(requester)
    ensures PinAnnouncement(requester, Some(PinAnnouncement(requester, Some(a)).value)) == Success(a)
  {
  }
}
