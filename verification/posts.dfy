/** Short posts with likes, pins and hashtags, and their comments. */
module Posts {
  import opened Wrappers
  import opened Queries
  import opened Text
  import opened Accounts

  /** `Post.content` carries `MaxLengthValidator(280)`. */
  const MaxPostLength := 280
  /** `Comment.content` carries `MaxLengthValidator(500)`. */
  const MaxCommentLength := 500
  /** `Hashtag.name` is declared with `max_length=50`. */
  const MaxHashtagLength := 50

  datatype Post = Post(
    id: int,
    author: UserId,
    content: string,
    isPinned: bool,
    likes: set<UserId>,    // a many-to-many relation: no user twice
    hashtags: set<string>, // names of the linked `Hashtag` rows
    createdAt: int)

  datatype Comment = Comment(id: int, post: int, author: UserId, content: string, createdAt: int)

  /** Why a post or comment was not saved: refused by a gate, or the form
      found the text empty, holding a NUL character, or too long. */
  datatype PostError = Refused(reason: Refusal) | Required | NullCharacter | TooLong

  /** A required text field of a `ModelForm` (a `TextField` without
      `blank=True`): the form field strips surrounding whitespace, refuses
      an empty result as required, refuses a NUL character (the validator
      every form `CharField` carries), and the length limit then applies to
      the stripped text. */
  function CleanText(content: string, limit: nat): (r: Result<string, PostError>)
    ensures r.Success? <==> |Strip(content)| > 0 && '\0' !in Strip(content) && |Strip(content)| <= limit
    ensures r.Success? ==> r.value == Strip(content)
    ensures r == Failure(Required) <==> forall k :: 0 <= k < |content| ==> IsSpace(content[k])
    ensures r == Failure(NullCharacter) <==> |Strip(content)| > 0 && '\0' in Strip(content)
    ensures r.Failure? ==> r.error in {Required, NullCharacter, TooLong}
  {
    var t := Strip(content);
    if |t| == 0 then Failure(Required)
    else if '\0' in t then Failure(NullCharacter)
    else if |t| > limit then Failure(TooLong)
    else Success(t)
  }

  /** Cleaning is stable: text the form accepted is accepted again as it is. */
  lemma CleanTextStable(content: string, limit: nat)
    requires CleanText(content, limit).Success?
    ensures CleanText(CleanText(content, limit).value, limit) == CleanText(content, limit)
  {
    StripIdempotent(content);
  }

  /** `PostForm.clean_content` on the stripped, required field, with the
      `MaxLengthValidator(280)` of the model agreeing. */
  function CleanContent(content: string): (r: Result<string, PostError>)
    ensures r.Success? <==> |Strip(content)| > 0 && '\0' !in Strip(content) && |Strip(content)| <= MaxPostLength
    ensures r.Success? ==> r.value == Strip(content)
    ensures (forall k :: 0 <= k < |content| ==> IsSpace(content[k])) ==> r == Failure(Required)
  {
    CleanText(content, MaxPostLength)
  }

  /** The limit counts the stripped text: a text of up to 280 characters,
      280 included, is accepted with spaces around it, and the spaces are
      dropped. */
  lemma {:induction false} ContentLimitAfterStrip(c: string)
    requires 0 < |c| <= MaxPostLength && '\0' !in c
    requires !IsSpace(c[0]) && !IsSpace(c[|c| - 1])
    ensures CleanContent(c + " ") == Success(c)
    ensures CleanContent(" " + c + " ") == Success(c)
  {
    StripPadded(c);
  }

  /** The model validator of `Comment.content` (`MaxLengthValidator(500)`)
      on the stripped, required form field of `CommentForm`. */
  function CleanComment(content: string): (r: Result<string, PostError>)
    ensures r.Success? <==> |Strip(content)| > 0 && '\0' !in Strip(content) && |Strip(content)| <= MaxCommentLength
    ensures r.Success? ==> r.value == Strip(content)
    ensures (forall k :: 0 <= k < |content| ==> IsSpace(content[k])) ==> r == Failure(Required)
  {
    CleanText(content, MaxCommentLength)
  }

  /** One comma-separated piece after `strip().lower().replace('#', '')`. */
  function NormalizeTag(piece: string): string {
    RemoveChar(PyLower(Strip(piece)), '#')
  }

  /** The names kept from a list of pieces: a piece must be non-blank after
      `strip()`, and its normalized name must be non-empty. */
  function TagsOf(pieces: seq<string>): (r: seq<string>)
    ensures |r| <= |pieces|
  {
    if |pieces| == 0 then [] else Kept(pieces[0]) + TagsOf(pieces[1..])
  }

  /** What one piece contributes: its normalized name, or nothing. The
      source tests the stripped piece before normalizing; that test only
      matters through the name, which is empty whenever the piece is blank. */
  function Kept(piece: string): (r: seq<string>)
    ensures r == [] <==> |NormalizeTag(piece)| == 0
    ensures r != [] ==> r == [NormalizeTag(piece)]
  {
    NamedPieceNotBlank(piece);
    if |Strip(piece)| > 0 && |NormalizeTag(piece)| > 0 then [NormalizeTag(piece)] else []
  }

  lemma {:induction false} NamedPieceNotBlank(piece: string)
    ensures |NormalizeTag(piece)| <= |Strip(piece)|
  {
  }

  /** Piece `k` names `t`. */
  predicate NamesAt(pieces: seq<string>, k: int, t: string) {
    0 <= k < |pieces| && |NormalizeTag(pieces[k])| > 0 && NormalizeTag(pieces[k]) == t
  }

  /** The names kept are exactly the non-empty normalized pieces. */
  lemma {:induction false} TagsOfNames(pieces: seq<string>)
    ensures forall t :: t in TagsOf(pieces) <==> exists k :: NamesAt(pieces, k, t)
  {
    TagsOfFlat(pieces);
    forall t ensures t in TagsOf(pieces) <==> exists k :: NamesAt(pieces, k, t) {
      FlatMapMember(pieces, Kept, t);
      forall k | 0 <= k < |pieces| ensures t in Kept(pieces[k]) <==> NamesAt(pieces, k, t) {
        KeptNames(pieces[k], t);
      }
    }
  }

  /** A piece contributes `t` iff it normalizes to `t` and `t` is non-empty. */
  lemma {:induction false} KeptNames(piece: string, t: string)
    ensures t in Kept(piece) <==> |NormalizeTag(piece)| > 0 && NormalizeTag(piece) == t
  {
  }

  /** `TagsOf` is the concatenation of what each piece contributes. */
  lemma {:induction false} TagsOfFlat(pieces: seq<string>)
    ensures TagsOf(pieces) == FlatMap(pieces, Kept)
  {
    if |pieces| > 0 {
      TagsOfFlat(pieces[1..]);
    }
  }

  /** A hashtag typed with its `#`, capitals and surrounding spaces is
      read as the bare lower-case name. */
  lemma HashCapitalsNormalized()
    ensures ParseHashtags(" #CS2 ") == ["cs2"]
  {
    assert ',' !in " #CS2 ";
    ParseSingle(" #CS2 ");
    NormalizeHashCapitals();
  }

  lemma {:induction false} NormalizeHashCapitals()
    ensures NormalizeTag(" #CS2 ") == "cs2"
  {
    StripHashCapitals();
    LowerHashCapitals();
    RemoveHash();
    assert NormalizeTag(" #CS2 ") == RemoveChar(PyLower(Strip(" #CS2 ")), '#');
  }

  lemma {:induction false} RemoveHash()
    ensures RemoveChar("#cs2", '#') == "cs2"
  {
    var w := "#cs2";
    assert w[0] == '#' && w[1..] == "cs2";
    assert '#' !in "cs2";
    assert RemoveChar(w, '#') == RemoveChar(w[1..], '#');
  }

  lemma {:induction false} StripHashCapitals()
    ensures Strip(" #CS2 ") == "#CS2"
  {
    var w := "#CS2";
    assert w[0] == '#' && w[|w| - 1] == '2';
    StripPadded(w);
    PadHashCapitals();
  }

  lemma {:induction false} PadHashCapitals()
    ensures " " + "#CS2" + " " == " #CS2 "
  {
  }

  lemma {:induction false} LowerHashCapitals()
    ensures PyLower("#CS2") == "#cs2"
  {
    var low := PyLower("#CS2");
    assert |low| == 4;
    assert low[0] == '#' && low[1] == 'c' && low[2] == 's' && low[3] == '2';
  }

  /** A name as the parser leaves it: non-empty, lower-case, and free of
      the separator and of `#`. */
  predicate CleanName(t: string) {
    |t| > 0 && IsLower(t) && ',' !in t && '#' !in t
  }

  /** The hashtag names read from the optional `hashtags` text, in input
      order, duplicates included. */
  function ParseHashtags(text: string): (r: seq<string>)
    ensures forall t :: t in r ==> CleanName(t)
  {
    var pieces := Split(text, ',');
    TagsWellFormed(pieces);
    TagsOf(pieces)
  }

  /** A name is parsed iff some comma-separated piece normalizes to it and
      it is non-empty. */
  lemma {:induction false} ParseHashtagsNames(text: string)
    ensures forall t :: t in ParseHashtags(text) <==> exists k :: NamesAt(Split(text, ','), k, t)
  {
    ParseHashtagsIsTagsOf(text);
    TagsOfNames(Split(text, ','));
  }

  lemma {:induction false} ParseHashtagsIsTagsOf(text: string)
    ensures ParseHashtags(text) == TagsOf(Split(text, ','))
  {
  }

  lemma {:induction false} TagsWellFormed(pieces: seq<string>)
    requires forall k :: 0 <= k < |pieces| ==> ',' !in pieces[k]
    ensures forall t :: t in TagsOf(pieces) ==> CleanName(t)
  {
    if |pieces| > 0 {
      TagsWellFormed(pieces[1..]);
      KeptWellFormed(pieces[0]);
    }
  }

  /** A kept name is non-empty, lower-case and free of `,` and `#`. */
  lemma {:induction false} KeptWellFormed(p: string)
    requires ',' !in p
    ensures forall t :: t in Kept(p) ==> CleanName(t)
  {
    NormalizeWellFormed(p);
  }

  /** A normalized name is lower-case and free of `,` and `#`. */
  lemma {:induction false} NormalizeWellFormed(p: string)
    requires ',' !in p
    ensures IsLower(NormalizeTag(p)) && ',' !in NormalizeTag(p) && '#' !in NormalizeTag(p)
  {
    var st := Strip(p);
    assert ',' !in st;
    LowerKeepsComma(st);
    RemoveCharKeepsLower(PyLower(st), '#');
  }

  /** Parsing `a,b` parses `a` and `b` separately, in that order: the
      parser keeps input order and treats each piece on its own. */
  lemma ParseAround(a: string, b: string)
    ensures ParseHashtags(a + [','] + b) == ParseHashtags(a) + ParseHashtags(b)
  {
    SplitAround(a, b, ',');
    TagsOfAppend(Split(a, ','), Split(b, ','));
  }

  lemma {:induction false} TagsOfAppend(p: seq<string>, q: seq<string>)
    ensures TagsOf(p + q) == TagsOf(p) + TagsOf(q)
  {
    if |p| == 0 {
      assert p + q == q;
    } else {
      assert (p + q)[0] == p[0];
      assert (p + q)[1..] == p[1..] + q;
      TagsOfAppend(p[1..], q);
      Reassociate(Kept(p[0]), TagsOf(p[1..]), TagsOf(q));
    }
  }

  lemma {:induction false} Reassociate(x: seq<string>, y: seq<string>, z: seq<string>)
    ensures x + (y + z) == x + y + z
  {
  }

  /** A word that is already a clean lower-case name parses to itself,
      however long it is. */
  lemma ParseCleanWord(w: string)
    requires |w| > 0 && IsLower(w) && ',' !in w && '#' !in w
    requires !IsSpace(w[0]) && !IsSpace(w[|w| - 1])
    ensures ParseHashtags(w) == [w]
  {
    ParseSingle(w);
    assert Strip(w) == w;
    assert PyLower(w) == w;
    assert RemoveChar(w, '#') == w;
    assert NormalizeTag(w) == w;
  }

  /** The parser does not enforce the 50-character limit of `Hashtag.name`. */
  lemma HashtagLengthNotEnforced()
    ensures exists text :: exists t :: t in ParseHashtags(text) && |t| > MaxHashtagLength
  {
    var w := seq(51, _ => 'a');
    assert IsLower(w);
    ParseCleanWord(w);
    assert w in ParseHashtags(w);
  }

  /** Normalization keeps inner and leading spaces that stood after a `#`. */
  lemma SpaceAfterHashKept()
    ensures ParseHashtags("# a") == [" a"]
  {
    assert ',' !in "# a";
    ParseSingle("# a");
    KeptHashSpace();
  }

  lemma {:induction false} KeptHashSpace()
    ensures Kept("# a") == [" a"]
  {
    NormalizeHashSpace();
  }

  /** A text without a comma is a single piece. */
  lemma {:induction false} ParseSingle(w: string)
    requires ',' !in w
    ensures ParseHashtags(w) == Kept(w)
  {
    SplitWithoutSeparator(w, ',');
    TagsOfSingle(w);
  }

  lemma {:induction false} NormalizeHashSpace()
    ensures Strip("# a") == "# a"
    ensures NormalizeTag("# a") == " a"
  {
    var text := "# a";
    assert !IsSpace(text[0]) && !IsSpace(text[2]);
    var low := PyLower(text);
    assert low == text by {
      assert |low| == 3;
      assert low[0] == '#' && low[1] == ' ' && low[2] == 'a';
    }
    assert RemoveChar(text, '#') == " a" by {
      assert text[1..] == " a";
      assert RemoveChar(" a", '#') == " a";
    }
  }

  lemma {:induction false} TagsOfSingle(p: string)
    ensures TagsOf([p]) == Kept(p)
  {
    assert [p][1..] == [];
  }

  /** The linked hashtags: duplicate names collapse to one row. */
  function TagSet(text: string): (r: set<string>)
    ensures forall t :: t in r ==> CleanName(t)
    ensures forall t :: t in r <==> t in ParseHashtags(text)
  {
    set t | t in ParseHashtags(text)
  }

  /** Linking the tags of `a,b` links the tags of `a` and of `b`. */
  lemma TagSetAround(a: string, b: string)
    ensures TagSet(a + [','] + b) == TagSet(a) + TagSet(b)
  {
    ParseAround(a, b);
  }

  /** Repeating the hashtag text links nothing new. */
  lemma TagSetDuplicate(a: string)
    ensures TagSet(a + [','] + a) == TagSet(a)
  {
    TagSetAround(a, a);
  }

  /** `PostCreateView.form_valid`: the post belongs to the requester, starts
      unpinned and unliked, and every name parsed from the (stripped)
      optional `hashtags` field is `get_or_create`d in the hashtag table
      `tags` and linked. That field refuses a NUL character too. */
  function CreatePost(requester: User, id: int, content: string, hashtagsText: string,
                      now: int, tags: set<string>): (r: Result<(Post, set<string>), PostError>)
    ensures r.Success? <==> CleanContent(content).Success? && '\0' !in Strip(hashtagsText)
    ensures r.Success? ==> var (p, tags') := r.value;
      && p.id == id && p.author == requester.id && p.content == Strip(content)
      && !p.isPinned && p.likes == {} && p.createdAt == now
      && p.hashtags == TagSet(Strip(hashtagsText))
      && tags' == tags + p.hashtags
  {
    match CleanContent(content)
    case Failure(e) => Failure(e)
    case Success(c) =>
      if '\0' in Strip(hashtagsText) then Failure(NullCharacter)
      else
        var linked := TagSet(Strip(hashtagsText));
        Success((Post(id, requester.id, c, false, {}, linked, now), tags + linked))
  }

  /** The owner of the post, if the lookup found one. */
  function AuthorOf(post: Option<Post>): Option<UserId> {
    if post.Some? then Some(post.value.author) else None
  }

  /** `PostUpdateView`: the gate, then the form, then the links are cleared
      and rebuilt from the new text. Old `Hashtag` rows stay in the table. */
  function UpdatePost(requester: User, post: Option<Post>, content: string, hashtagsText: string,
                      tags: set<string>): (r: Result<(Post, set<string>), PostError>)
    ensures post.None? ==> r == Failure(Refused(NotFound))
    ensures r.Success? <==>
      post.Some? && OwnerOrModerator(requester, post.value.author) && CleanContent(content).Success? && '\0' !in Strip(hashtagsText)
    ensures r.Success? ==> var (p, tags') := r.value;
      && p == post.value.(content := Strip(content), hashtags := TagSet(Strip(hashtagsText)))
      && tags' == tags + TagSet(Strip(hashtagsText))
  {
    match OwnerGate(requester, AuthorOf(post))
    case Some(refusal) => Failure(Refused(refusal))
    case None =>
      match CleanContent(content)
      case Failure(e) => Failure(e)
      case Success(c) =>
        if '\0' in Strip(hashtagsText) then Failure(NullCharacter)
        else
          var linked := TagSet(Strip(hashtagsText));
          Success((post.value.(content := c, hashtags := linked), tags + linked))
  }

  /** `PostDeleteView` and the gates of `CommentUpdateView` and
      `CommentDeleteView`: the author or a moderator. */
  function DeletePost(requester: User, posts: seq<Post>, id: int): (r: Result<seq<Post>, Refusal>)
    ensures r.Success? <==> (Find(posts, (p: Post) => p.id, id).Some?
      && OwnerOrModerator(requester, Find(posts, (p: Post) => p.id, id).value.author))
    ensures r.Success? ==> forall p :: p in r.value <==> p in posts && p.id != id
    ensures Find(posts, (p: Post) => p.id, id).None? ==> r == Failure(NotFound)
  {
    var found := Find(posts, (p: Post) => p.id, id);
    match OwnerGate(requester, AuthorOf(found))
    case Some(refusal) => Failure(refusal)
    case None => Success(Filter(posts, (p: Post) => p.id != id))
  }

  /** `CommentUpdateView` / `CommentDeleteView` gate. */
  function CommentGate(requester: User, comment: Option<Comment>): (r: Option<Refusal>)
    ensures r.None? <==> comment.Some? && (requester.id == comment.value.author || IsModerator(requester))
  {
    OwnerGate(requester, if comment.Some? then Some(comment.value.author) else None)
  }

  /** `CommentCreateView.form_valid`: the form is validated first, then the
      post is looked up; the comment is attached to it and written by the
      requester. */
  function CreateComment(requester: User, post: Option<Post>, id: int, content: string, now: int)
    : (r: Result<Comment, PostError>)
    ensures r.Success? <==> post.Some? && CleanComment(content).Success?
    ensures CleanComment(content).Success? && post.None? ==> r == Failure(Refused(NotFound))
    ensures r.Success? ==>
      r.value.post == post.value.id && r.value.author == requester.id && r.value.content == Strip(content)
  {
    match CleanComment(content)
    case Failure(e) => Failure(e)
    case Success(c) =>
      if post.None? then Failure(Refused(NotFound))
      else Success(Comment(id, post.value.id, requester.id, c, now))
  }

  /** `LikePostView`: toggles the requester's like; `liked` reports whether
      the requester likes the post afterwards. */
  function ToggleLike(post: Post, user: UserId): (r: (Post, bool))
    ensures var (p, liked) := r;
      && (user in p.likes <==> liked)
      && (liked <==> user !in post.likes)
      && p.likes - {user} == post.likes - {user}
      && p == post.(likes := p.likes)
  {
    if user in post.likes then (post.(likes := post.likes - {user}), false)
    else (post.(likes := post.likes + {user}), true)
  }

  /** Liking twice restores the post. */
  lemma ToggleLikeTwice(post: Post, user: UserId)
    ensures ToggleLike(ToggleLike(post, user).0, user).0 == post
  {
    var (p, liked) := ToggleLike(post, user);
    var (q, _) := ToggleLike(p, user);
    assert q.likes == post.likes;
  }

  /** `LikePostView.post` with its lookup. */
  function LikePost(post: Option<Post>, user: UserId): (r: Result<(Post, bool), Refusal>)
    ensures r.Failure? <==> post.None?
    ensures r.Success? ==> r.value == ToggleLike(post.value, user)
  {
    if post.None? then Failure(NotFound) else Success(ToggleLike(post.value, user))
  }

  /** `PinPostView`: the moderator test runs before the lookup; a pin flips
      `is_pinned` and nothing else. */
  function PinPost(requester: User, post: Option<Post>): (r: Result<Post, Refusal>)
    ensures r.Success? <==> IsModerator(requester) && post.Some?
    ensures !IsModerator(requester) ==> r == Failure(Forbidden)
    ensures IsModerator(requester) && post.None? ==> r == Failure(NotFound)
    ensures r.Success? ==> (r.value.isPinned != post.value.isPinned
      && r.value == post.value.(isPinned := r.value.isPinned))
  {
    match RoleGate(IsModerator(requester), post.Some?)
    case Some(refusal) => Failure(refusal)
    case None => Success(post.value.(isPinned := !post.value.isPinned))
  }

  /** Two pins restore the post. */
  lemma PinTwice(requester: User, post: Post)
    requires IsModerator(requester)
    ensures PinPost(requester, Some(PinPost(requester, Some(post)).value)) == Success(post)
  {
  }

  /** Newest first (`order_by('-created_at')`). */
  function NewestPost(p: Post): (int, int) { (-p.createdAt, 0) }

  /** `PostListView.get_queryset` and `PostFeedView`: unpinned, newest first. */
  function MainList(posts: seq<Post>): (r: seq<Post>)
    ensures SortedBy(r, NewestPost)
    ensures forall p :: p in r <==> p in posts && !p.isPinned
  {
    var r := SortBy(Filter(posts, (p: Post) => !p.isPinned), NewestPost);
    assert forall p :: p in r <==> p in multiset(r);
    r
  }

  /** The `pinned_posts` shown beside the main list. */
  function PinnedPosts(posts: seq<Post>): (r: seq<Post>)
    ensures forall p :: p in r <==> p in posts && p.isPinned
  {
    Filter(posts, (p: Post) => p.isPinned)
  }

  /** Every post appears in exactly one of the two lists. */
  lemma MainAndPinnedPartition(posts: seq<Post>, p: Post)
    requires p in posts
    ensures p in MainList(posts) <==> p !in PinnedPosts(posts)
  {
  }

  /** `HashtagPostListView`: the name is lowered before the lookup; the
      posts carrying it, unpinned, newest first. */
  function HashtagPosts(name: string, tags: set<string>, posts: seq<Post>): (r: Result<seq<Post>, Refusal>)
    ensures r.Failure? <==> PyLower(name) !in tags
    ensures r.Success? ==> SortedBy(r.value, NewestPost)
    ensures r.Success? ==> forall p :: p in r.value <==> p in posts && PyLower(name) in p.hashtags && !p.isPinned
  {
    var key := PyLower(name);
    if key !in tags then Failure(NotFound)
    else
      var r := SortBy(Filter(posts, (p: Post) => key in p.hashtags && !p.isPinned), NewestPost);
      assert forall p :: p in r <==> p in multiset(r);
      Success(r)
  }

  /** The lookup ignores case: asking with the lowered name gives the same page. */
  lemma HashtagLookupIgnoresCase(name: string, tags: set<string>, posts: seq<Post>)
    ensures HashtagPosts(PyLower(name), tags, posts) == HashtagPosts(name, tags, posts)
  {
    assert PyLower(PyLower(name)) == PyLower(name);
  }

  /** `Comment.Meta.ordering`: newest first. */
  function NewestComment(c: Comment): (int, int) { (-c.createdAt, 0) }

  /** `post.comments.all()` on the detail page. */
  function CommentsOf(comments: seq<Comment>, postId: int): (r: seq<Comment>)
    ensures SortedBy(r, NewestComment)
    ensures forall c :: c in r <==> c in comments && c.post == postId
  {
    var r := SortBy(Filter(comments, (c: Comment) => c.post == postId), NewestComment);
    assert forall c :: c in r <==> c in multiset(r);
    r
  }
}

/** The admin's `short_content` column for posts and comments. */
module PostsAdmin {

  const ShortLength := 50

  /** The first 50 characters followed by an ellipsis when the content is
      longer than 50, otherwise the content itself. */
  function ShortContent(content: string): (r: string)
    ensures |content| <= ShortLength ==> r == content
    ensures |content| > ShortLength ==> |r| == ShortLength + 3 && r[ShortLength..] == "..."
    ensures content[..if |content| < ShortLength then |content| else ShortLength] <= r
  {
    if |content| > ShortLength then content[..ShortLength] + "..." else content
  }
}
