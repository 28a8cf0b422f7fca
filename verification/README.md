# CS2 community site: request logic in Dafny

A Django site for a Counter-Strike 2 community. Members post short
messages with hashtags, talk in a forum, read announcements, upload media
to a moderated gallery and portfolio, share training materials, follow
events, and answer polls ("votes") and surveys. This project models the
decision logic inside the site's views and forms as pure functions over
immutable tables, and proves what those functions promise.

How the model is put together:

- Each Django app is one module: `Accounts`, `Posts` (with `PostsAdmin`),
  `Forum`, `Announcements`, `Gallery`, `Portfolio`, `Materials`, `Events`
  and `Votes`. The survey app is split into `SurveyModel` (tables),
  `SurveyForms` (the response form), `SurveySession` (the multi-page answer
  store) and `SurveyViews` (the handlers). `SurveyScenarios` walks concrete
  surveys through the handlers, and `SurveyAsWritten` holds the two
  submission handlers exactly as written (see below).
- Shared pieces: `Wrappers` (`Option`, `Result`), `Queries` (primary-key
  lookup, `filter`, `order_by` as an insertion sort on a two-column key,
  slicing), `Tally` (totals and percentages, as `real`), `Text` (`strip`,
  `lower`, `split`, `replace`, and the `icontains` substring test) and
  `Moderation` (the approval workflow that gallery and portfolio share).
- A table is a sequence of rows, and the query order is the sequence
  order. "Now" is an integer parameter, and the requester is a `User`
  value.
- A handler returns either a refusal or the new rows. A refusal carries no
  state, so every rejected request leaves the tables as they were.
  `NotFound` stands for a 404 and `Forbidden` for a failed `test_func`.
  Their order follows the code: views whose `test_func` calls
  `get_object()` answer 404 first, and the others answer 403 first.
- Votes: `Cast` checks its guards in the view's order, and
  `CastPreservesWellFormed` proves that a successful cast keeps the tables
  consistent. Consistent means unique keys, one ballot per user and vote,
  and every option counter equal to its number of ballots.

Where the site's behaviour is surprising, the model follows the code, with the one exception described after this list:

- `surveys/views.py` calls `render` without importing it. Every path that
  would render a page is therefore a server error in the model: the take
  GET of a single-page survey, an invalid take POST, every page GET, and
  an invalid page POST. A request that fails with a server error does not
  save its session changes.
- The "already took this survey" check of the take GET tests a reverse
  relation that the user model does not have. It is always false, so the
  model leaves it out. Retaking a single-page survey is allowed.
- The number of pages is the number of distinct page values, not the
  highest page. With questions on pages 1 and 3, posting page 2 completes
  the survey (`SurveyScenarios.GapSkipsLastPage`).
- The page POST does not check `is_multi_page`. Any page number at or past
  the page count completes the survey.
- All surveys share one session key for their stored answers. An answer
  left behind by an abandoned survey is counted when another survey is
  completed (`SurveyScenarios.AbandonedAnswerCountedElsewhere`).
- The final flush saves each counter in turn. If a stored choice has been
  deleted, the lookup fails part-way: the counters saved before it stay
  raised, and the stored answers are kept (`SurveySession.FlushStopsAtMissing`).
- On the survey results page, a question with choices but no votes
  divides by zero (see Findings). Inactive surveys are still shown there.
- The cast view answers a foreign option id with a 404, not with a message
  and a redirect.
- Gallery likes are a bare counter: the same user can like as often as
  they want.
- An event's `is_upcoming` flag is strict (`date > now`), while the
  upcoming list includes events at `date == now`.
- A portfolio create always redirects to the new item's page. A gallery
  upload redirects there only when the item was approved at once.
- The user admin shows `cannot_delete_self`, but nothing enforces it: an
  admin can delete their own account.

The exception is the answer of a survey field. Its cleaned value is a
`Choice` row, and both submission views treat it as an id: the single-page
view passes it to `Choice.objects.get(id=...)`, and the page view stores it
in the JSON-serialised session and later does the same lookup. As written,
every submission that chooses something therefore fails with a server
error, and no survey vote is ever counted (`SurveyAsWritten`, and
Findings). `SurveyViews.TakePost` and `SurveyViews.PagePost` read the
choice's id instead, which is what the code evidently means, and the other
survey members, the scenarios above included, build on that reading. The
session key `str(question.id)` is modelled as the question's integer id.

## Model

| member | source | states |
|---|---|---|
| Queries.Find | posts/views.py:163 | the primary-key lookup returns a row with that key, and finds nothing iff no row has it |
| Queries.FindUnique | votes/models.py:35-36 | with unique keys, the lookup by a row's key returns that row |
| Queries.Filter | posts/views.py:17 | `filter` keeps exactly the rows satisfying the condition, each as often as it occurs |
| Queries.Insert | posts/views.py:17 | inserting a row into an ordered list keeps it ordered and adds exactly that row |
| Queries.SortBy | posts/views.py:17 | `order_by` returns a permutation of the rows, ordered by the key |
| Queries.Prefix | gallery/views.py:27 | a slice `[:n]` is the first `min(n, len)` rows of the list, in order, so it is the whole list when that is short |
| Queries.FlatMapMember | posts/views.py:50-52 | a value is in a comprehension that keeps zero or more values per row iff some row's image holds it |
| Queries.PrefixOfSorted | gallery/views.py:27 | a row kept by a slice of a sorted list is ordered at or before every row the slice left out |
| Text.TrimStart | posts/views.py:50 | dropping leading whitespace removes only whitespace and leaves no leading whitespace |
| Text.TrimEnd | posts/views.py:50 | dropping trailing whitespace removes only whitespace and leaves no trailing whitespace |
| Text.Strip | posts/views.py:50 | `strip()` yields the slice left after removing whitespace from both ends: what it drops is whitespace, it has none at either end, it is empty iff the input is all whitespace, and an already stripped text comes back unchanged |
| Text.StripIdempotent | posts/views.py:50 | stripping a stripped text changes nothing |
| Text.StripPadded | posts/views.py:50 | spaces around a text with no whitespace at its ends are exactly what `strip()` removes |
| Text.PyLowerChar | posts/views.py:50 | `lower()` on a character maps `A`-`Z` to `a`-`z`, keeps lower-case letters and digits, and produces only lower-case letters when it changes anything |
| Text.PyLowerCharIdempotent | posts/views.py:50 | lowering a lowered character changes nothing |
| Text.PyLower | posts/views.py:50 | `lower()` keeps the length, lowers each character, and yields a lower-case string |
| Text.AsciiLower | accounts/views.py:72 | the case folding of `icontains` keeps the length, removes every upper-case ASCII letter, and keeps all other characters |
| Text.AsciiLowerIdempotent | accounts/views.py:72 | folding twice is folding once |
| Text.Split | posts/views.py:50 | `split(',')` yields at least one piece, none containing the separator |
| Text.SplitWithoutSeparator | posts/views.py:50 | a text without the separator is one piece |
| Text.JoinSplit | posts/views.py:50 | joining the pieces with the separator gives the text back |
| Text.SplitAround | posts/views.py:50 | the pieces of `a,b` are the pieces of `a` followed by those of `b` |
| Text.RemoveChar | posts/views.py:50 | `replace('#', '')` keeps every other character with its multiplicity and in order, and removes every `#`; a text without `#` is unchanged |
| Text.RemoveCharAppend | posts/views.py:50 | `replace` works piecewise: removing from `a + b` is removing from `a` and from `b` |
| Text.RemoveCharSingle | posts/views.py:50 | one character is removed iff it is the one replaced |
| Text.Contains | accounts/views.py:72 | the substring test holds iff the query occurs at some position of the text |
| Accounts.RoleFromCode | accounts/models.py:7-12 | a stored role value reads back as one of exactly three roles, and any other value is no role |
| Accounts.RoleCodeRoundTrip | accounts/models.py:7-11 | each of the three roles is read back as itself after being stored |
| Accounts.NewUser | accounts/models.py:12 | a new account has the default role `user`, which is neither moderator nor admin |
| Accounts.IsModerator | accounts/models.py:18-19 | a user is a moderator iff the role is moderator or admin |
| Accounts.IsAdmin | accounts/models.py:21-22 | a user is an admin iff the stored role is `admin` |
| Accounts.AdminIsModerator | accounts/models.py:18-22 | every admin passes the moderator test |
| Accounts.OwnerOrModerator | posts/views.py:84 | the edit/delete test passes iff the requester owns the object or is a moderator |
| Accounts.ModeratorAndAuthorOrAdmin | announcements/views.py:51-54 | the announcement test passes iff the requester is a moderator who is the author, or an admin |
| Accounts.OwnerGate | posts/views.py:82-84 | an edit/delete of a missing object is not-found; otherwise it is refused unless the owner-or-moderator test passes |
| Accounts.RoleGate | gallery/views.py:160-167 | for views whose `test_func` does not load the object: the request passes iff the role test passes and the object exists, and the role test is checked first (403 before 404) |
| Accounts.ListUsers | accounts/views.py:58-74 | only moderators may list; the list holds exactly the users matching the non-empty role filter and the case-insensitive username search, newest first, and empty parameters keep everyone |
| Accounts.ChangeRole | accounts/views.py:82-92 | a non-admin is refused before the lookup (403); an admin changing a missing user gets not-found; otherwise the change succeeds and only the role changes |
| Accounts.ChangeRoleUndo | accounts/views.py:82-92 | an admin who changes a role and then sets the old one back restores the user exactly |
| Accounts.DeleteUser | accounts/views.py:97-106 | the delete succeeds iff the requester is an admin and the user exists; non-admins are refused first; an admin deletes exactly the named user |
| Accounts.AdminMayDeleteSelf | accounts/views.py:108-110 | `cannot_delete_self` holds when an admin deletes their own account, yet the deletion succeeds |
| Posts.CleanContent | posts/forms.py:29-33 | the required, stripped content field: it succeeds iff the stripped text is non-empty, free of NUL and at most 280 characters, and then yields the stripped text; blank content is refused as required |
| Posts.CleanComment | posts/models.py:36 | the required, stripped comment field: it succeeds iff the stripped text is non-empty, free of NUL and at most 500 characters, and then yields the stripped text; blank content is refused as required |
| Posts.CleanText | posts/forms.py:29-33 | a required, stripped text field with a length limit: success iff the stripped text is non-empty, free of NUL and within the limit, yielding it; an all-whitespace text is refused as required, a NUL as a null character, and nothing else is refused |
| Posts.CleanTextStable | posts/forms.py:29-33 | cleaning a cleaned text again gives the same result |
| Posts.ContentLimitAfterStrip | posts/forms.py:29-33 | any NUL-free text of 1 to 280 characters with no outer blanks is accepted with a trailing space or with spaces on both sides, and the result drops those spaces: the limit counts the stripped text |
| Posts.TagsOf | posts/views.py:50-52 | at most one name is kept per comma-separated piece; with `TagsOfNames`, the kept names are exactly the non-empty normalized pieces |
| Posts.TagsOfNames | posts/views.py:50-52 | a name is kept iff some piece normalizes to it and that name is non-empty |
| Posts.TagsOfFlat | posts/views.py:50-52 | the kept names are the pieces' contributions concatenated in input order |
| Posts.Kept | posts/views.py:50-52 | a piece contributes nothing iff its normalized name is empty, and otherwise exactly that name; the blank test on the stripped piece never decides on its own |
| Posts.NormalizeWellFormed | posts/views.py:50 | `strip().lower().replace('#', '')` of a comma-free piece is lower-case and free of `,` and `#` |
| Posts.ParseHashtags | posts/views.py:47-52 | every parsed hashtag is non-empty and lower-case, and contains neither `,` nor `#` |
| Posts.ParseHashtagsNames | posts/views.py:47-52 | a name is parsed iff some comma-separated piece, stripped, lowered and rid of `#`, gives exactly that name and it is non-empty |
| Posts.TagsWellFormed | posts/views.py:50-52 | each kept name is non-empty and lower-case, and contains neither `,` nor `#` |
| Posts.ParseAround | posts/views.py:50-52 | parsing keeps input order: the names of `a,b` are the names of `a` followed by those of `b` |
| Posts.TagsOfAppend | posts/views.py:50 | filtering pieces distributes over concatenation |
| Posts.ParseCleanWord | posts/views.py:50-52 | a piece that is already a clean lower-case name parses to itself |
| Posts.HashtagLengthNotEnforced | posts/models.py:6 | some text parses to a name longer than the 50-character column limit |
| Posts.SpaceAfterHashKept | posts/views.py:50 | `"# a"` parses to `" a"`: a space that stood after `#` is kept |
| Posts.HashCapitalsNormalized | posts/views.py:50 | `" #CS2 "` parses to the single name `cs2` |
| Posts.TagSet | posts/views.py:50-54 | the linked hashtags are exactly the parsed names, each a clean non-empty lower-case name |
| Posts.TagSetAround | posts/views.py:50-54 | the tags linked for `a,b` are those of `a` together with those of `b` |
| Posts.TagSetDuplicate | posts/views.py:50-54 | repeating the hashtag text links nothing new |
| Posts.CreatePost | posts/views.py:42-54 | a post is created iff the content passes the form and the hashtag text has no NUL; it stores the stripped content, belongs to the requester, is unpinned, has no likes, and links exactly the names parsed from the stripped hashtag text |
| Posts.UpdatePost | posts/views.py:82-100 | a missing post is not-found; the update succeeds iff the requester is owner or moderator, the content passes the form and the hashtag text has no NUL; it stores the stripped content and the tag set becomes exactly the parsed set of the new text |
| Posts.DeletePost | posts/views.py:112-114 | deletion succeeds iff the post exists and the requester is its owner or a moderator, and removes exactly that post |
| Posts.CommentGate | posts/views.py:139-141 | a comment edit/delete passes iff the comment exists and the requester is its author or a moderator |
| Posts.CreateComment | posts/views.py:119-129 | a comment is created iff the post exists and the content passes the form; the form is checked before the post lookup; it stores the stripped content, attached to the post and written by the requester |
| Posts.ToggleLike | posts/views.py:164-169 | a like toggles the requester's membership in `likes`, and `liked` reports membership afterwards |
| Posts.ToggleLikeTwice | posts/views.py:164-169 | liking twice restores the post |
| Posts.LikePost | posts/views.py:162-169 | liking a missing post is not-found; otherwise it toggles |
| Posts.PinPost | posts/views.py:212-219 | the pin succeeds iff the requester is a moderator and the post exists; non-moderators are refused before the lookup; a pin flips `is_pinned` and nothing else |
| Posts.PinTwice | posts/views.py:218 | two pins restore the post |
| Posts.MainList | posts/views.py:16-17 | the main list holds exactly the unpinned posts, newest first |
| Posts.PinnedPosts | posts/views.py:22 | the pinned list holds exactly the pinned posts |
| Posts.MainAndPinnedPartition | posts/views.py:17-22 | every post is in exactly one of the main list and the pinned list |
| Posts.HashtagPosts | posts/views.py:193-196 | the lookup lowers the name; an unknown name is not-found; otherwise the page holds exactly the unpinned posts with that tag, newest first |
| Posts.HashtagLookupIgnoresCase | posts/views.py:195 | asking with the lowered name gives the same answer |
| Posts.CommentsOf | posts/models.py:41 | a post's comments are exactly those attached to it, newest first |
| PostsAdmin.ShortContent | posts/admin.py:13-14 | content of at most 50 characters is shown unchanged; longer content is shown as its first 50 characters plus `...`, 53 in total; the result always begins with `content[:50]` |
| Forum.TopicGate | forum/views.py:65-67 | a topic edit/delete passes iff the topic exists and the requester created it or is a moderator; a missing topic is not-found |
| Forum.MessageGate | forum/views.py:140-142 | a message edit/delete passes iff the message exists and the requester wrote it or is a moderator |
| Forum.ModeratorGate | forum/views.py:89-91 | close and pin look the topic up first (not-found), then require a moderator |
| Forum.CloseTopic | forum/views.py:93-96 | a moderator's close flips `is_closed` and nothing else |
| Forum.PinTopic | forum/views.py:107-110 | a moderator's pin flips `is_pinned` and nothing else |
| Forum.CloseTwice | forum/views.py:95 | two closes restore the topic |
| Forum.PostMessage | forum/views.py:121-128 | a message is accepted iff the topic exists and is open or the poster is a moderator; it is attached to the topic and written by the requester |
| Forum.ClosedTopicRejectsMembers | forum/views.py:123-125 | after a moderator closes an open topic, a member who could post is refused and the moderator still may post |
| Forum.TopicList | forum/views.py:21-34 | an unknown category is not-found; otherwise the list holds exactly the topics of that category (every topic for id 0, which `if category_id:` does not filter), newest first |
| Forum.TopicListOwnCategory | forum/views.py:21-28 | two different non-zero categories never list the same topic |
| Forum.TopicMessages | forum/views.py:57 | a topic's messages are exactly those posted in it, oldest first |
| Announcements.TypeLabel | announcements/views.py:106-112 | a code names a type iff it is one of the four type codes; any other code gets the fallback label |
| Announcements.TypeLabelOfCode | announcements/views.py:106-111 | every type's own code is labelled with that type |
| Announcements.CreateAnnouncement | announcements/views.py:33-37 | only moderators may create; the author is the requester and the announcement starts unpinned |
| Announcements.EditGate | announcements/views.py:49-54 | a missing announcement is not-found; edit and delete pass iff the requester is a moderator who is the author, or an admin |
| Announcements.EditGateCases | announcements/views.py:69-72 | a moderator who is not the author is refused, an admin always passes, and a regular user never does |
| Announcements.PinAnnouncement | announcements/views.py:76-84 | the pin succeeds iff the requester is a moderator and the announcement exists; non-moderators are refused before the lookup; a pin flips `is_pinned` and nothing else |
| Announcements.PinAnnouncementTwice | announcements/views.py:82 | two pins restore the announcement |
| Moderation.ApprovedOnCreate | gallery/views.py:84-86 | a new item is approved iff its creator is a moderator or an admin |
| Moderation.ApprovalAfterEdit | gallery/views.py:108-111 | an edit by a non-moderator clears approval; an edit by a moderator keeps it; an edit never grants approval |
| Moderation.OwnerPage | gallery/views.py:197-201 | the owner sees all their items; anyone else sees only the approved ones |
| Moderation.ApprovedOnly | gallery/views.py:22 | a public list holds exactly the approved items |
| Moderation.AwaitingApproval | gallery/views.py:158 | a moderation queue holds exactly the unapproved items |
| Moderation.PublicOrQueued | gallery/views.py:157-158 | every item is in exactly one of the moderation queue (unapproved, here) and the public list (approved, line 22) |
| Moderation.ModeratorRemove | gallery/views.py:172-177 | the delete of the moderation views succeeds iff the requester is a moderator and the item exists, refusing non-moderators first, and removes exactly the named item |
| Gallery.Upload | gallery/views.py:81-91 | the uploader owns the item, which starts with no likes, and is approved iff the uploader is a moderator |
| Gallery.AfterUpload | gallery/views.py:93-97 | after an upload the redirect goes to the detail page iff the item is approved |
| Gallery.UploadRedirectsByRole | gallery/views.py:84-97 | a moderator's upload lands on its detail page, anyone else's on the gallery |
| Gallery.Edit | gallery/views.py:104-116 | a missing item is not-found; an edit passes iff the requester is owner or moderator; only the edited fields and the approval change, and approval survives only a moderator's edit |
| Gallery.Delete | gallery/views.py:125-127 | a delete passes iff the item exists and the requester is owner or moderator, and removes exactly that item |
| Gallery.Like | gallery/views.py:133-138 | a like on a missing item is not-found; otherwise `likes` rises by exactly one and nothing else changes |
| Gallery.LikeTwiceAddsTwo | gallery/views.py:136-137 | likes are not deduplicated: liking twice adds two |
| Gallery.Approve | gallery/views.py:160-167 | approval succeeds iff the requester is a moderator and the item exists; non-moderators are refused before the lookup; it sets `is_approved` and nothing else |
| Gallery.ApproveIdempotent | gallery/views.py:166 | approving twice is approving once |
| Gallery.Reject | gallery/views.py:172-177 | rejection succeeds iff the requester is a moderator and the item exists; non-moderators are refused before the lookup; it deletes exactly the named item |
| Gallery.UserGallery | gallery/views.py:193-201 | an unknown user is not-found; the owner sees all their items and anyone else only the approved ones, newest first |
| Gallery.OwnerSeesMore | gallery/views.py:198-201 | every item a stranger sees in a gallery, its owner sees too |
| Gallery.PublicGallery | gallery/views.py:20-22 | the gallery holds exactly the approved items, newest first |
| Gallery.PopularMedia | gallery/views.py:215-216 | the popular list holds exactly the approved items, most liked first |
| Gallery.Featured | gallery/views.py:27 | at most four approved items in non-increasing order of likes; every approved item is shown when there are fewer than four, and none left out has more likes than one shown |
| Gallery.MediaByType | gallery/views.py:36-41 | the type list holds exactly the approved items of that type, newest first |
| Gallery.ModerationQueue | gallery/views.py:154-158 | only moderators see the queue, which holds exactly the unapproved items, newest first |
| Gallery.Search | gallery/views.py:233-241 | an empty query finds nothing; otherwise exactly the approved items whose title, description or owner name contains the query, ignoring ASCII case, newest first |
| Gallery.SimilarMedia | gallery/views.py:69-72 | at most six other approved items of the same media type, in table order; all of them when there are fewer than six |
| Portfolio.CreateItem | portfolio/views.py:80-90 | the creator owns the new item, which is approved iff the creator is a moderator |
| Portfolio.EditItem | portfolio/views.py:100-112 | a missing item is not-found; an edit passes iff the requester is owner or moderator; only the edited fields and the approval change, and approval survives only a moderator's edit |
| Portfolio.EditByOwnerRequeues | portfolio/views.py:104-107 | an owner who is not a moderator sends an edited item back to the moderation queue; a moderator's edit keeps its approval |
| Portfolio.DeleteItem | portfolio/views.py:121-123 | a delete passes iff the item exists and the requester is owner or moderator, and removes exactly that item |
| Portfolio.ApproveItem | portfolio/views.py:228-235 | approval succeeds iff the requester is a moderator and the item exists; non-moderators are refused before the lookup; it sets `is_approved` and nothing else |
| Portfolio.RejectItem | portfolio/views.py:240-245 | rejection succeeds iff the requester is a moderator and the item exists; non-moderators are refused before the lookup; it deletes exactly the named item |
| Portfolio.PublicPortfolio | portfolio/views.py:19-21 | the public list holds exactly the approved items, newest first |
| Portfolio.UserPortfolio | portfolio/views.py:35-43 | an unknown user is not-found; the owner sees all their items and anyone else only the approved ones, newest first |
| Portfolio.AnonymousSeesApprovedOnly | portfolio/views.py:40-43 | an anonymous visitor of a portfolio sees exactly its part of the public list |
| Portfolio.SearchItems | portfolio/views.py:134-143 | an empty query finds nothing; otherwise exactly the approved items whose title, description, map or weapon contains the query, ignoring ASCII case, newest first |
| Portfolio.SearchIgnoresCase | portfolio/views.py:137-142 | a query and its lower-case form find the same items |
| Portfolio.ItemsByRole | portfolio/views.py:156-161 | exactly the approved items with that role, newest first |
| Portfolio.ItemsByType | portfolio/views.py:180-185 | exactly the approved items of that type, newest first |
| Portfolio.ItemsByMap | portfolio/views.py:204-209 | exactly the approved items whose map contains the requested one, ignoring ASCII case, newest first |
| Portfolio.ModerationQueue | portfolio/views.py:222-226 | only moderators see the queue, which holds exactly the unapproved items, newest first |
| Portfolio.SimilarItems | portfolio/views.py:61-64 | at most four other approved items of the same owner, newest first; all of them when there are fewer than four, and none left out is newer than one shown |
| Materials.Clean | materials/forms.py:39-49 | the form is rejected iff none of file, link and embed is truthy; on success the cleaned data is returned unchanged |
| Materials.AnyOneSourceSuffices | materials/forms.py:46 | any single truthy source is enough, whatever the others hold |
| Materials.EmptyEmbedCountsAsAbsent | materials/forms.py:46 | an empty embed string counts as absent, as does an empty file name |
| Events.NewEvent | events/models.py:14-18 | a new event is active by default and its end date is optional |
| Events.ActiveEvents | events/views.py:17-18 | the list holds exactly the active events, soonest first |
| Events.CalendarEvents | events/views.py:110-117 | the calendar holds each active event as often as the table does and no inactive one |
| Events.CalendarMatchesList | events/views.py:110-117 | the calendar shows the same events as the event list, only unordered |
| Events.Upcoming | events/views.py:39-44 | the upcoming list holds exactly the active events at or after now, soonest first |
| Events.Past | events/views.py:52-57 | the past list holds exactly the active events before now, latest first |
| Events.UpcomingPastPartition | events/views.py:39-57 | every active event is in exactly one of the upcoming and past lists, and inactive ones in neither |
| Events.Previews | events/views.py:22-30 | each preview holds at most five events of its list, the whole list when it is that short; no upcoming event left out is sooner than one shown, and no past event left out is later than one shown |
| Events.UpcomingFlagBoundary | events/views.py:67 | `is_upcoming` is strict: every flagged event is in the upcoming list, and a listed event is unflagged iff its date is exactly now |
| Events.EventsOfType | events/views.py:134-139 | exactly the active events of that type, soonest first |
| Events.Register | events/views.py:120-126 | registering for an unknown event is not-found; otherwise nothing changes |
| Events.ManageGate | events/views.py:75-76 | create, update and delete pass iff the requester is a moderator and the event exists; non-moderators are refused first |
| Votes.NewVote | votes/models.py:13-15 | a new vote is active by default and its end date is optional |
| Votes.NewOption | votes/models.py:21-24 | a new option belongs to one vote and starts with zero votes |
| Votes.ClosedGuard | votes/views.py:83-93 | the cast view's closed test is exactly the negation of the open test of the detail page |
| Votes.BallotCountAppend | votes/views.py:110 | one more ballot adds one to the count of its own option and nothing to the others |
| Votes.EmptyWellFormed | votes/models.py:20-36 | the empty tables satisfy the invariant: unique keys, options in votes, ballots for their own vote's options, one ballot per user and vote, counters equal to ballot counts |
| Votes.AddOptionWellFormed | votes/models.py:21-24 | adding a fresh option with zero votes to an existing vote keeps the invariant |
| Votes.BallotCountZero | votes/models.py:24 | an option nobody chose has a ballot count of zero |
| Votes.Cast | votes/views.py:89-112 | guards run in order unknown vote, closed, already voted, no option, option not of this vote; each failure leaves the tables as they were; a success appends exactly one ballot and raises only that option's counter by one |
| Votes.IncrementKeepsKeys | votes/views.py:111 | raising a counter keeps every option's id and vote |
| Votes.IncrementTotal | votes/views.py:111-112 | raising the chosen counter adds to the total of all counters exactly the number of rows carrying that id |
| Votes.CarriedOnce | votes/views.py:107 | with unique option ids, an id that names an option is carried by exactly one row |
| Votes.IncrementAddsOne | votes/views.py:107-112 | in a well-formed options table a cast raises the total of all counters by exactly one |
| Votes.IncrementKeepsReferences | votes/views.py:111-112 | raising a counter keeps unique option ids and every reference between the tables |
| Votes.AppendKeepsOneBallot | votes/models.py:35-36 | a ballot of a user who has none for that vote keeps one ballot per user and vote |
| Votes.AppendKeepsCounters | votes/views.py:110-112 | recording the ballot and raising its option's counter together keep counters equal to ballot counts |
| Votes.AppendKeepsOwnOptions | votes/views.py:107-110 | a ballot for an option of its own vote keeps every ballot pointing at its own vote's options |
| Votes.CastPreservesWellFormed | votes/views.py:89-112 | a successful cast keeps the invariant, so at most one ballot exists per user and vote and counters match ballots |
| Votes.SecondCastRejected | votes/views.py:98-100 | once a user's cast succeeded, every later cast of theirs in that vote is rejected whatever option they send |
| Votes.ForeignOptionRejected | votes/views.py:107 | an option that belongs to another vote is rejected |
| Votes.ActiveVotes | votes/views.py:33-39 | the active list holds exactly the open votes, newest first |
| Votes.ListedVotesAcceptBallots | votes/views.py:35-112 | an open vote is on the active list and accepts a ballot for one of its options from a user who has not voted |
| Votes.ActivityCounts | votes/views.py:23-24 | the active and inactive counts add up to the number of votes |
| Votes.OptionsOf | votes/views.py:127 | a vote's options are exactly the options that reference it |
| Votes.ResultRows | votes/views.py:130-136 | one row per ranked option, in that order, each with its share of the total |
| Votes.MostVotesDescending | votes/views.py:127 | ordering by `-votes` leaves the counters in non-increasing order |
| Votes.Rank | votes/views.py:127-136 | the rows are the given options rearranged into non-increasing order of votes, the total is their sum, and each percentage is the row's share of it |
| Votes.VoteResults | votes/views.py:124-139 | an unknown vote is not-found; otherwise the rows are the vote's options in non-increasing order of votes, the total is the sum of their counters, and each percentage is `votes/total*100`, or 0 when the total is 0 |
| Votes.RankSharesSumTo100 | votes/views.py:127-136 | when the options hold at least one vote, the percentages of their ranking add up to 100 |
| Votes.PercentagesSumTo100 | votes/views.py:128-132 | for an existing vote with at least one vote counted, the results exist and their percentages add up to 100 |
| Tally.SumAppend | votes/views.py:128 | the total of two lists of rows is the sum of their totals |
| Tally.SumPermutation | votes/views.py:127-128 | the total does not depend on the order the rows are listed in |
| Tally.Share | votes/views.py:132 | the share is `part/total*100` when the total is positive and 0 otherwise, and lies between 0 and 100 for a part of the total |
| Tally.Shares | votes/views.py:131-136 | one share per row, in row order |
| Tally.SharesSumScaled | votes/views.py:128-132 | the rows' shares of `total` add up to the share that the rows' own sum would have |
| Tally.ShareAdd | votes/views.py:132 | the share of a sum of parts is the sum of their shares |
| Tally.SharesSumTo100 | votes/views.py:128-132 | when the rows make up the total, their shares add up to exactly 100 |
| SurveyModel.NewSurvey | surveys/models.py:6-7 | a new survey is active and single-page |
| SurveyModel.NewQuestion | surveys/models.py:14-17 | a new question belongs to its survey and sits on page 1 at position 0 |
| SurveyModel.NewChoice | surveys/models.py:26-28 | a new choice belongs to its question and starts with zero votes |
| SurveyModel.ActiveSurvey | surveys/views.py:51 | the lookup finds the survey with that id only when it is active; a missing or inactive survey is not-found |
| SurveyModel.QuestionsOf | surveys/models.py:14 | a survey's questions are exactly those that reference it |
| SurveyModel.QuestionsOnPage | surveys/views.py:105 | a page's questions are exactly the survey's questions with that page number |
| SurveyModel.ChoicesOf | surveys/models.py:26 | a question's choices are exactly those that reference it |
| SurveyModel.TotalPages | surveys/views.py:106 | the page count is the number of distinct page values, never more than the number of questions |
| SurveyModel.PagesBound | surveys/views.py:106 | there are no more distinct page values than questions |
| SurveyModel.IncrementChoice | surveys/views.py:85-87 | only the choices with that id gain a vote, by exactly one, and every other field is unchanged |
| SurveyForms.Fields | surveys/forms.py:38-40 | a field is created for a question iff it has at least one choice |
| SurveyForms.Clean | surveys/forms.py:38-45 | the form is valid iff every question with choices is answered with one of its own choices; each cleaned answer is the posted one |
| SurveyForms.CleanFollowsFields | surveys/forms.py:38-41 | the cleaned answers follow the fields one for one, in question order |
| SurveyForms.CleanAnswersEachQuestionOnce | surveys/forms.py:41 | fields are keyed by question id, so distinct questions give at most one answer each |
| SurveyForms.FieldsDistinct | surveys/forms.py:41 | distinct questions give distinct field keys |
| SurveyForms.NoChoicesAlwaysValid | surveys/forms.py:40 | a form over questions without choices has no fields and is valid whatever is posted |
| SurveySession.Lookup | surveys/views.py:148-149 | a question has a stored answer iff some entry has that question, and the answer is that entry's choice |
| SurveySession.Store | surveys/views.py:138 | storing maps the question to the new choice and leaves every other question as it was; a new question is appended |
| SurveySession.StoreReplaces | surveys/views.py:138 | after storing, every entry is the new answer or an old one |
| SurveySession.StoreKeepsKeysUnique | surveys/views.py:138 | the stored dict still holds each question at most once |
| SurveySession.StoreOverwrites | surveys/views.py:138 | answering a question again overwrites its earlier answer |
| SurveySession.StoreAll | surveys/views.py:135-138 | storing no answers leaves the dict unchanged |
| SurveySession.StoreAllKeepsOthers | surveys/views.py:135-138 | questions the page does not answer keep their stored answers |
| SurveySession.StoreAllKeepsKeysUnique | surveys/views.py:135-138 | storing a page keeps each question at most once |
| SurveySession.StoreAllRecords | surveys/views.py:135-138 | after storing a page of distinct questions, each of them maps to the choice just given |
| SurveySession.IncrementKeepsIds | surveys/views.py:150-152 | raising a counter keeps the set of choice ids |
| SurveySession.Flush | surveys/views.py:148-152 | the flush completes iff every stored choice exists; when it completes, each choice gains exactly as many votes as stored answers name it, and no other field changes |
| SurveySession.FlushStopsAtMissing | surveys/views.py:149-152 | a flush that meets a missing choice fails there, and the counters saved before it stay raised |
| SurveySession.HitsOfDistinct | surveys/views.py:82-87 | answers that name distinct choices name each of them at most once |
| SurveySession.CleanChoicesDistinct | surveys/forms.py:41-42 | the cleaned answers of one form name distinct choices, since each choice belongs to one question |
| SurveyViews.TakeGet | surveys/views.py:50-73 | a missing or inactive survey is not-found; a multi-page survey redirects to page 1; a single-page survey fails, because `render` is never imported |
| SurveyViews.TakePost | surveys/views.py:75-96 | a missing or inactive survey is not-found; a valid form counts the answers and redirects to the results; no other path changes a table, and an invalid form fails for want of `render` |
| SurveyViews.SinglePageCountsEachChoiceOnce | surveys/views.py:80-87 | a valid single-page submission adds exactly one vote to each selected choice and leaves every other choice as it was |
| SurveyViews.AnsweredIffSelected | surveys/views.py:82-85 | a choice is named by a cleaned answer iff it was posted for one of the survey's questions |
| SurveyViews.AnswerNamesOwnQuestion | surveys/forms.py:41-42 | a cleaned answer names a choice of the question it answers |
| SurveyViews.SelectedIsAnswered | surveys/forms.py:38-45 | a choice posted for a question of the survey is among the cleaned answers |
| SurveyViews.QuestionsDistinct | surveys/views.py:77 | the survey's questions, sorted by position, have distinct ids |
| SurveyViews.PageGet | surveys/views.py:99-122 | a missing or inactive survey is not-found; a single-page survey redirects to the take view; a multi-page page fails for want of `render` |
| SurveyViews.PagePost | surveys/views.py:124-169 | a missing or inactive survey is not-found; before the last page no counter changes, and the request advances to the next page iff the form is valid; completing the survey drops the stored answers; a failure before the last page keeps the session |
| SurveyViews.AdvanceStoresPage | surveys/views.py:130-145 | a valid submission before the last page of an active survey redirects to the next page and stores the page's answers in the session |
| SurveyViews.FinalPageFlushes | surveys/views.py:142-159 | on the last page, when every stored answer names an existing choice, the survey completes and each choice gains as many votes as stored answers name it |
| SurveyViews.LastPageDoesNotAdvance | surveys/views.py:144-159 | from the last page on, a submission never redirects to another page: it goes to the results or fails |
| SurveyViews.AbandonChangesNoVotes | surveys/views.py:144-145 | a submission that moves on to another page changes no counter, so leaving before the last page changes no vote |
| SurveyViews.ResultOf | surveys/views.py:190-202 | one row per choice of the question, each with its share of the question's total, which is the sum of its choices' votes |
| SurveyViews.ResultsOf | surveys/views.py:188-202 | one result per question, in the given order |
| SurveyViews.Results | surveys/views.py:178-205 | only an unknown survey is not-found, inactive ones included; a question with choices and no votes divides by zero; otherwise one result per question in (page, order) order |
| SurveyViews.ResultsInPageOrder | surveys/views.py:189 | a shown results page lists every question of the survey once, in (page, order) order |
| SurveyViews.ResultQuestionsOf | surveys/views.py:189-201 | the results hold one entry per question, in the order of the questions they were built from |
| SurveyViews.RowSharesSumTo100 | surveys/views.py:191-195 | a question with choices and at least one vote has percentages adding up to 100 |
| SurveyViews.ResultsSharesSumTo100 | surveys/views.py:195 | on a shown results page, the percentages of every question with choices add up to 100 |
| SurveyScenarios.TwoPagesCount | surveys/views.py:142 | a survey with questions on pages 1 and 2 has two pages |
| SurveyScenarios.FirstPageClean | surveys/views.py:126-130 | the first page's form accepts the posted choice |
| SurveyScenarios.SecondPageClean | surveys/views.py:126-130 | the second page's form accepts the posted choice |
| SurveyScenarios.TwoPageWalkFirst | surveys/views.py:130-145 | answering page 1 of two stores the answer and moves on to page 2 without counting it |
| SurveyScenarios.SecondPageStored | surveys/views.py:135-138 | the second page's answer is appended after the first |
| SurveyScenarios.BothAnswersFlushed | surveys/views.py:148-152 | flushing both stored answers adds one vote to each chosen choice |
| SurveyScenarios.TwoPageWalkSecond | surveys/views.py:142-159 | answering page 2 of two counts both answers, drops them from the session and shows the results |
| SurveyScenarios.GappedCount | surveys/views.py:142 | questions on pages 1 and 3 make a page count of two |
| SurveyScenarios.EmptyPageClean | surveys/views.py:126-130 | a page without questions has a valid empty form |
| SurveyScenarios.GapSkipsLastPage | surveys/views.py:142-159 | with pages 1 and 3, posting page 2 completes the survey: the page-1 answer is counted and the page-3 question is never asked |
| SurveyScenarios.SurveyTwoCount | surveys/views.py:142 | a survey with one page has one page |
| SurveyScenarios.SurveyTwoClean | surveys/views.py:126-130 | the single page's form accepts the posted choice |
| SurveyScenarios.LeakStored | surveys/views.py:132-138 | an answer of another survey stays in the shared session key and the new answer is appended |
| SurveyScenarios.LeakFlushed | surveys/views.py:148-152 | flushing counts the other survey's leftover answer too |
| SurveyScenarios.AbandonedAnswerCountedElsewhere | surveys/views.py:132-159 | an answer left in the session by an abandoned survey is counted when another survey is completed |
| SurveyViews.IntendedResults | surveys/views.py:188-202 | the results page with the guard on the total: only an unknown survey is not-found, one result per question, and a question without votes shows 0% for each choice |
| SurveyViews.IntendedResultsAgree | surveys/views.py:188-202 | wherever the page as written is shown, the intended page shows the same |
| SurveyAsWritten.TakePostAsWritten | surveys/views.py:75-96 | as written, no counter ever moves: a form that chooses anything fails when the `Choice` row is used as an id, so only a form that cleans to no answers reaches the results |
| SurveyAsWritten.TakeAsWrittenFailsOnAnyChoice | surveys/views.py:80-87 | whenever the single-page form chooses something, the view as written fails while the id reading counts the votes and shows the results |
| SurveyAsWritten.TakeAsWrittenAgreesWithoutChoices | surveys/views.py:80-90 | when nothing is chosen, both readings give the same outcome |
| SurveyAsWritten.UntilPosted | surveys/views.py:148-150 | the stored entries counted before the flush meets the first `Choice` row are exactly the leading ones the page did not answer |
| SurveyAsWritten.PagePostAsWritten | surveys/views.py:124-159 | as written, a page that chooses anything fails and keeps the old session; before the last page no counter moves; from a session with no stored answers, the store stays empty and no counter moves; only a page that chooses nothing reaches the results |
| SurveyAsWritten.FreshStoreAllPosted | surveys/views.py:132-138 | storing a page into an empty dict leaves only entries the page answered |
| SurveyAsWritten.StoreAllFrom | surveys/views.py:135-138 | every entry after storing a page is an old entry or one of the page answers |
| SurveyAsWritten.PageAsWrittenAgreesWithoutChoices | surveys/views.py:130-159 | when the page chooses nothing, both readings give the same outcome |
| SurveyAsWritten.PageAsWrittenLosesAnswers | surveys/views.py:135-145 | before the last page, a page that chooses something fails as written and keeps the old session, where the id reading moves on to the next page |
| SurveyAsWritten.PageAsWrittenNeverCounts | surveys/views.py:124-159 | starting from no stored answers, any series of page submissions as written leaves every table unchanged |
| SurveyScenarios.TwoPageWalkFirstAsWritten | surveys/views.py:135-145 | answering page 1 of two, as written, fails with the session still empty, where the id reading moves on to page 2 |
| SurveyScenarios.ZeroVotesCrash | surveys/views.py:195 | a question with one choice and no votes makes the page as written fail, while the intended page shows the choice at 0% |

## Left out

- Templates, messages, pagination (`paginate_by`) and the AJAX JSON replies are presentation. The model keeps the data a page shows and the redirect it answers with.
- Database I/O, transactions and concurrent requests are not modelled. Two simultaneous `votes += 1` could lose an update in the source, and each request here is atomic.
- Counters are unbounded naturals. The database's integer width is not modelled.
- Percentages are exact `real` numbers, not floating point.
- Posted ids are integers. A non-numeric `option` in a vote cast, or a non-numeric field value, raises an error in the source and is not modelled.
- The values `current_survey_id` and `current_page` that the survey views write into the session are not modelled. They are never read, and no request that writes them saves its session: both writes are followed by a call to `render`, which `surveys/views.py` does not import, so those GET requests end in a server error and the session middleware skips the save (`SurveyViews.TakeGet`, `SurveyViews.PageGet`).
- Ties in `order_by` are broken by table order (the sort is stable). The database leaves the order of equal keys unspecified.
- Cascading deletes (a user's posts, a post's comments) are not modelled: a delete removes the one row.
- Text.PyLower: lowers ASCII and the basic Cyrillic block only; Python's full Unicode case mapping is not modelled.
- Posts.CreatePost: a hashtag name over 50 characters is linked as parsed. Whether the database rejects it depends on the backend, which is not modelled.
- Views without decision logic are not modelled: sign-up, profile and profile edit, topic and category creation, the forum search and latest-topics lists, the announcement lists, the post feed, user posts and hashtag list, the vote list, vote-by-type list and vote/option create and edit views, the survey list, detail, create/edit and `SurveySubmitView` views, the event create/edit form contents, the material views, and the `core` app (dashboard statistics, global search, contact mail).
- ModelForm validation of the other fields (title lengths, choice fields, file types) is Django's and is not modelled. Post and comment content are modelled by `Posts.CleanText`.

- TakePost (`SurveyViews.TakePost`): reads a chosen `Choice` as its id; as written the view fails on any choice (`SurveyAsWritten.TakePostAsWritten`).
- PagePost (`SurveyViews.PagePost`): reads a chosen `Choice` as its id; as written the view fails on any choice (`SurveyAsWritten.PagePostAsWritten`).
- SinglePageCountsEachChoiceOnce (`SurveyViews.SinglePageCountsEachChoiceOnce`): holds for the id reading; as written a single-page survey counts nothing.
- AdvanceStoresPage (`SurveyViews.AdvanceStoresPage`): holds for the id reading; as written a page with answers stores nothing.
- FinalPageFlushes (`SurveyViews.FinalPageFlushes`): holds for the id reading; as written the final page counts nothing when it chooses something.
- Flush (`SurveySession.Flush`): flushes stored ids, as in the id reading; as written no id reaches the store.
- FlushStopsAtMissing (`SurveySession.FlushStopsAtMissing`): about the flush of stored ids, as in the id reading.
- TwoPageWalkFirst (`SurveyScenarios.TwoPageWalkFirst`): walks the id reading; `SurveyScenarios.TwoPageWalkFirstAsWritten` is the same request as written.
- BothAnswersFlushed (`SurveyScenarios.BothAnswersFlushed`): walks the id reading.
- TwoPageWalkSecond (`SurveyScenarios.TwoPageWalkSecond`): walks the id reading.
- GapSkipsLastPage (`SurveyScenarios.GapSkipsLastPage`): walks the id reading; as written the same page-count issue exists but no answer is ever counted.
- LeakFlushed (`SurveyScenarios.LeakFlushed`): walks the id reading.
- AbandonedAnswerCountedElsewhere (`SurveyScenarios.AbandonedAnswerCountedElsewhere`): walks the id reading; as written nothing is stored to leak.

## Findings

| source | as written | input that shows it | evidently intended | confidence | as-written member | corrected member |
|---|---|---|---|---|---|---|
| surveys/views.py:195 | the percentage guard `if question.choices.all()` sits inside the loop over those same choices, so it always holds there and the division by the question's total always runs | a survey whose only question has one choice with zero votes | test the total, as the vote results page does, so the choice shows 0% | high; not executed | SurveyScenarios.ZeroVotesCrash | SurveyViews.IntendedResults |
| surveys/views.py:83-87 | the cleaned value of a `ModelChoiceField` is a `Choice` row, and `Choice.objects.get(id=selected_choice_id)` passes that row where an integer id is expected, which raises before any counter is saved | a single-page survey whose question has a choice, submitted with that choice | look the choice up by its id (or use the row), so each chosen choice gains one vote | high; not executed | SurveyAsWritten.TakeAsWrittenFailsOnAnyChoice | SurveyViews.SinglePageCountsEachChoiceOnce |
| surveys/views.py:135-152 | the same `Choice` row is stored in the session: the JSON session serializer refuses it when the redirect is saved, and on the last page the lookup refuses it, so no multi-page answer is ever counted | survey 1 of `SurveyScenarios.TwoPages`, page 1 posted with choice 100 | store the choice's id and count each stored answer on the last page | high; not executed | SurveyScenarios.TwoPageWalkFirstAsWritten | SurveyScenarios.TwoPageWalkSecond |
