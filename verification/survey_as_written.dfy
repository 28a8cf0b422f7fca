/** The two survey submission handlers exactly as written. The cleaned value
    of a `ModelChoiceField` is a `Choice` row, not an id. `SurveyTakeView.post`
    passes that row to `Choice.objects.get(id=...)`, and the integer `id`
    field refuses it. `SurveyPageView.post` puts the row into the session;
    the JSON session serializer refuses it when the session is saved, and
    the final page's lookup refuses it too. The handlers in `SurveyViews`
    read the choice's id instead, which is what both views evidently mean.
    The lemmas below relate the two readings. */
module SurveyAsWritten {
  import opened Wrappers
  import opened Queries
  import opened SurveyModel
  import opened SurveyForms
  import opened SurveySession
  import opened SurveyViews

  /** `SurveyTakeView.post` as written: the first chosen choice makes the
      lookup fail before any counter is saved, so only a form that cleans
      to no answers at all gets through. */
  function TakePostAsWritten(db: SurveyDb, id: SurveyId, post: map<QuestionId, ChoiceId>): (r: (SurveyDb, Response))
    ensures r.0 == db
    ensures ActiveSurvey(db, id).None? ==> r.1 == NotFound
    ensures ActiveSurvey(db, id).Some? ==>
      (r.1 == Redirect(SurveyResults(id)) <==> Clean(SortBy(QuestionsOf(db, id), ByOrder), db.choices, post) == Some([]))
    ensures r.1 != Redirect(SurveyResults(id)) ==> r.1 == NotFound || r.1 == ServerError
  {
    match ActiveSurvey(db, id)
    case None => (db, NotFound)
    case Some(_) =>
      match Clean(SortBy(QuestionsOf(db, id), ByOrder), db.choices, post)
      case None => (db, ServerError)
      case Some(answers) =>
        if |answers| > 0 then (db, ServerError) else (db, Redirect(SurveyResults(id)))
  }

  /** Wherever the single-page form chooses something, the handler as
      written fails while the id reading counts the votes and shows the
      results. */
  lemma TakeAsWrittenFailsOnAnyChoice(db: SurveyDb, id: SurveyId, post: map<QuestionId, ChoiceId>)
    requires ActiveSurvey(db, id).Some?
    requires var c := Clean(SortBy(QuestionsOf(db, id), ByOrder), db.choices, post); c.Some? && |c.value| > 0
    ensures TakePostAsWritten(db, id, post) == (db, ServerError)
    ensures TakePost(db, id, post).1 == Redirect(SurveyResults(id))
  {
  }

  /** Where nothing is chosen the two readings agree. */
  lemma TakeAsWrittenAgreesWithoutChoices(db: SurveyDb, id: SurveyId, post: map<QuestionId, ChoiceId>)
    requires ActiveSurvey(db, id).None? || Clean(SortBy(QuestionsOf(db, id), ByOrder), db.choices, post) == Some([])
    ensures TakePostAsWritten(db, id, post) == TakePost(db, id, post)
  {
  }

  /** Whether this page's form answered `question`. */
  predicate Posted(answers: seq<Answer>, question: QuestionId) {
    exists a :: a in answers && a.question == question
  }

  /** The length of the leading run of stored entries that this page did not
      answer: those still hold ids read back from the session, and the one
      after them holds a `Choice` row. */
  function UntilPosted(acc: Accumulator, answers: seq<Answer>): (r: nat)
    ensures r <= |acc|
    ensures forall j :: 0 <= j < r ==> !Posted(answers, acc[j].question)
    ensures r < |acc| ==> Posted(answers, acc[r].question)
  {
    if |acc| == 0 || Posted(answers, acc[0].question) then 0
    else 1 + UntilPosted(acc[1..], answers)
  }

  /** `SurveyPageView.post` as written. A page that chooses something puts a
      `Choice` row into the session: before the last page the redirect is
      lost when the session cannot be saved; on the last page the stored
      ids ahead of the first row are counted, one save each, and the lookup
      of that row fails. Either way the response is a server error and the
      session keeps what it had. A page that chooses nothing behaves as in
      the id reading. */
  function PagePostAsWritten(db: SurveyDb, session: Session, id: SurveyId, page: nat, post: map<QuestionId, ChoiceId>)
    : (r: Outcome)
    ensures ActiveSurvey(db, id).None? ==> r == Outcome(db, session, NotFound)
    ensures r.db.surveys == db.surveys && r.db.questions == db.questions
    ensures page < Pages(db, id) ==> r.db == db
    ensures var p := PageAnswers(db, id, page, post);
      ActiveSurvey(db, id).Some? && p.Some? && |p.value| > 0 ==> r.response == ServerError && r.session == session
    ensures Answers(session) == [] ==> Answers(r.session) == [] && r.db == db
    ensures r.response == Redirect(SurveyResults(id)) ==> PageAnswers(db, id, page, post) == Some([]) && r.session == None
  {
    match ActiveSurvey(db, id)
    case None => Outcome(db, session, NotFound)
    case Some(_) =>
      match PageAnswers(db, id, page, post)
      case None => Outcome(db, session, ServerError)
      case Some(answers) =>
        var acc := StoreAll(Answers(session), answers);
        if |answers| == 0 then
          if page < Pages(db, id) then
            Outcome(db, Some(acc), Redirect(SurveyPage(id, page + 1)))
          else
            var f := Flush(db.choices, acc);
            if f.complete then Outcome(db.(choices := f.choices), None, Redirect(SurveyResults(id)))
            else Outcome(db.(choices := f.choices), session, ServerError)
        else if page < Pages(db, id) then
          Outcome(db, session, ServerError)
        else
          FreshStoreAllPosted(Answers(session), answers);
          var f := Flush(db.choices, acc[..UntilPosted(acc, answers)]);
          Outcome(db.(choices := f.choices), session, ServerError)
  }

  /** Storing a page into an empty dict leaves only entries this page
      answered. */
  lemma {:induction false} FreshStoreAllPosted(acc: Accumulator, answers: seq<Answer>)
    ensures acc == [] ==> forall b :: b in StoreAll(acc, answers) ==> Posted(answers, b.question)
  {
    if acc == [] {
      forall b | b in StoreAll(acc, answers) ensures Posted(answers, b.question) {
        StoreAllFrom(acc, answers, b);
      }
    }
  }

  /** An entry left by storing a page is an old entry or one of the page's
      answers. */
  lemma {:induction false} StoreAllFrom(acc: Accumulator, answers: seq<Answer>, b: Answer)
    requires b in StoreAll(acc, answers)
    ensures b in acc || b in answers
    decreases |answers|
  {
    if |answers| > 0 {
      var s := Store(acc, answers[0]);
      StoreAllFrom(s, answers[1..], b);
      if b in s {
        StoreReplaces(acc, answers[0], b);
      }
    }
  }

  /** A page that chooses nothing gets the same outcome under both readings. */
  lemma PageAsWrittenAgreesWithoutChoices(db: SurveyDb, session: Session, id: SurveyId, page: nat,
                                          post: map<QuestionId, ChoiceId>)
    requires ActiveSurvey(db, id).None? || PageAnswers(db, id, page, post).None? || PageAnswers(db, id, page, post) == Some([])
    ensures PagePostAsWritten(db, session, id, page, post) == PagePost(db, session, id, page, post)
  {
  }

  /** Before the last page, a page that chooses something moves on under the
      id reading but fails as written, and its answers are lost. */
  lemma PageAsWrittenLosesAnswers(db: SurveyDb, session: Session, id: SurveyId, page: nat, post: map<QuestionId, ChoiceId>)
    requires ActiveSurvey(db, id).Some? && page < Pages(db, id)
    requires PageAnswers(db, id, page, post).Some? && |PageAnswers(db, id, page, post).value| > 0
    ensures PagePostAsWritten(db, session, id, page, post) == Outcome(db, session, ServerError)
    ensures PagePost(db, session, id, page, post).response == Redirect(SurveyPage(id, page + 1))
  {
  }

  /** From a session without stored answers, no sequence of page submissions
      as written ever stores an answer or moves a counter: each step keeps
      the store empty and the tables as they were. */
  lemma {:induction false} PageAsWrittenNeverCounts(db: SurveyDb, session: Session, id: SurveyId, pages: seq<nat>,
                                                    posts: seq<map<QuestionId, ChoiceId>>)
    requires |pages| == |posts|
    requires Answers(session) == []
    ensures Walk(db, session, id, pages, posts) == db
    decreases |pages|
  {
    if |pages| > 0 {
      var r := PagePostAsWritten(db, session, id, pages[0], posts[0]);
      PageAsWrittenNeverCounts(r.db, r.session, id, pages[1..], posts[1..]);
    }
  }

  /** The tables after a series of page submissions as written, each with
      the session the previous one left. */
  function Walk(db: SurveyDb, session: Session, id: SurveyId, pages: seq<nat>, posts: seq<map<QuestionId, ChoiceId>>)
    : SurveyDb
    requires |pages| == |posts|
    decreases |pages|
  {
    if |pages| == 0 then db
    else
      var r := PagePostAsWritten(db, session, id, pages[0], posts[0]);
      Walk(r.db, r.session, id, pages[1..], posts[1..])
  }
}
