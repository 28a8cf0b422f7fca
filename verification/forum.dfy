/** Forum topics and the messages posted in them. */
module Forum {
  import opened Wrappers
  import opened Queries
  import opened Accounts

  datatype Topic = Topic(id: int, category: int, createdBy: UserId, isPinned: bool, isClosed: bool, createdAt: int)

  datatype Message = Message(id: int, topic: int, author: UserId, createdAt: int)

  datatype ForumError = Refused(reason: Refusal) | TopicClosed

  /** The creator of the topic, if the lookup found one. */
  function CreatorOf(topic: Option<Topic>): Option<UserId> {
    if topic.Some? then Some(topic.value.createdBy) else None
  }

  /** `TopicUpdateView` / `TopicDeleteView`: the creator or a moderator. */
  function TopicGate(requester: User, topic: Option<Topic>): (r: Option<Refusal>)
    ensures r.None? <==> topic.Some? && (requester.id == topic.value.createdBy || IsModerator(requester))
    ensures topic.None? ==> r == Some(NotFound)
  {
    OwnerGate(requester, CreatorOf(topic))
  }

  /** `MessageUpdateView` / `MessageDeleteView`: the author or a moderator. */
  function MessageGate(requester: User, message: Option<Message>): (r: Option<Refusal>)
    ensures r.None? <==> message.Some? && (requester.id == message.value.author || IsModerator(requester))
    ensures message.None? ==> r == Some(NotFound)
  {
    OwnerGate(requester, if message.Some? then Some(message.value.author) else None)
  }

  /** The `test_func` of `CloseTopicView` and `PinTopicView` looks the topic
      up first, so a missing topic is 404 even for a non-moderator. */
  function ModeratorGate(requester: User, topic: Option<Topic>): (r: Option<Refusal>)
    ensures r.None? <==> topic.Some? && IsModerator(requester)
    ensures topic.None? ==> r == Some(NotFound)
  {
    if topic.None? then Some(NotFound)
    else if !IsModerator(requester) then Some(Forbidden)
    else None
  }

  /** `CloseTopicView`: flips `is_closed` and nothing else. */
  function CloseTopic(requester: User, topic: Option<Topic>): (r: Result<Topic, Refusal>)
    ensures r.Success? <==> topic.Some? && IsModerator(requester)
    ensures r.Success? ==> (r.value.isClosed == !topic.value.isClosed
      && r.value == topic.value.(isClosed := r.value.isClosed))
  {
    match ModeratorGate(requester, topic)
    case Some(refusal) => Failure(refusal)
    case None => Success(topic.value.(isClosed := !topic.value.isClosed))
  }

  /** `PinTopicView`: flips `is_pinned` and nothing else. */
  function PinTopic(requester: User, topic: Option<Topic>): (r: Result<Topic, Refusal>)
    ensures r.Success? <==> topic.Some? && IsModerator(requester)
    ensures r.Success? ==> (r.value.isPinned == !topic.value.isPinned
      && r.value == topic.value.(isPinned := r.value.isPinned))
  {
    match ModeratorGate(requester, topic)
    case Some(refusal) => Failure(refusal)
    case None => Success(topic.value.(isPinned := !topic.value.isPinned))
  }

  /** Closing twice reopens the topic as it was. */
  lemma CloseTwice(requester: User, topic: Topic)
    requires IsModerator(requester)
    ensures CloseTopic(requester, Some(CloseTopic(requester, Some(topic)).value)) == Success(topic)
  {
  }

  /** `MessageCreateView.form_valid`: a closed topic takes messages from
      moderators only. */
  function PostMessage(requester: User, topic: Option<Topic>, id: int, now: int): (r: Result<Message, ForumError>)
    ensures topic.None? ==> r == Failure(Refused(NotFound))
    ensures r.Success? <==> topic.Some? && (!topic.value.isClosed || IsModerator(requester))
    ensures r.Failure? && topic.Some? ==> r.error == TopicClosed
    ensures r.Success? ==> r.value == Message(id, topic.value.id, requester.id, now)
  {
    if topic.None? then Failure(Refused(NotFound))
    else if topic.value.isClosed && !IsModerator(requester) then Failure(TopicClosed)
    else Success(Message(id, topic.value.id, requester.id, now))
  }

  /** A closed topic stays closed to the user who could post before it was
      closed, unless that user moderates. */
  lemma ClosedTopicRejectsMembers(mod: User, member: User, topic: Topic, id: int, now: int)
    requires IsModerator(mod) && !IsModerator(member) && !topic.isClosed
    ensures PostMessage(member, Some(topic), id, now).Success?
    ensures PostMessage(member, CloseTopic(mod, Some(topic)).ToOption(), id, now) == Failure(TopicClosed)
    ensures PostMessage(mod, CloseTopic(mod, Some(topic)).ToOption(), id, now).Success?
  {
  }

  function NewestTopic(t: Topic): (int, int) { (-t.createdAt, 0) }
  function OldestMessage(m: Message): (int, int) { (m.createdAt, 0) }

  /** `TopicListView`, routed only as `category/<int:category_id>/`: the
      context looks the category up and answers 404 when it does not exist.
      The query filters only for a non-zero id (`if category_id:`), so a
      category stored under id 0 would list every topic; newest first.
      `categories` holds the ids of the stored categories. */
  function TopicList(topics: seq<Topic>, categories: set<int>, category: int): (r: Result<seq<Topic>, Refusal>)
    ensures r.Failure? <==> category !in categories
    ensures r.Failure? ==> r.error == NotFound
    ensures r.Success? ==> SortedBy(r.value, NewestTopic)
    ensures r.Success? ==> forall t :: t in r.value <==> t in topics && (category == 0 || t.category == category)
  {
    if category !in categories then Failure(NotFound)
    else
      var filtered := if category != 0 then Filter(topics, (t: Topic) => t.category == category) else topics;
      var r := SortBy(filtered, NewestTopic);
      assert forall t :: t in r <==> t in multiset(r);
      Success(r)
  }

  /** A listed page holds no topic of another category, whatever the
      category (other than 0) it was asked for. */
  lemma TopicListOwnCategory(topics: seq<Topic>, categories: set<int>, a: int, b: int, t: Topic)
    requires a != 0 && b != 0 && a != b
    requires a in categories && b in categories
    ensures TopicList(topics, categories, a).Success? && TopicList(topics, categories, b).Success?
    ensures !(t in TopicList(topics, categories, a).value && t in TopicList(topics, categories, b).value)
  {
  }

  /** `TopicDetailView`: the topic's messages, oldest first. */
  function TopicMessages(messages: seq<Message>, topicId: int): (r: seq<Message>)
    ensures SortedBy(r, OldestMessage)
    ensures forall m :: m in r <==> m in messages && m.topic == topicId
  {
    var r := SortBy(Filter(messages, (m: Message) => m.topic == topicId), OldestMessage);
    assert forall m :: m in r <==> m in multiset(r);
    r
  }
}
