/** The survey request handlers: taking a single-page survey, walking a
    multi-page survey page by page with the answers kept in the session,
    and the results page. Every handler is a function from the tables and
    the session to new tables, a new session and a response. */
module SurveyViews {
  import opened Wrappers
  import opened Queries
  import opened SurveyModel
  import opened SurveyForms
  import opened SurveySession
  import Tally

  datatype Target = TakeSurvey(survey: SurveyId) | SurveyPage(survey: SurveyId, page: nat) | SurveyResults(survey: SurveyId)

  /** `ServerError` stands for the uncaught exceptions of these views. A
      server error also discards the request's session changes, because the
      session middleware saves only responses below 500. */
  datatype Response = NotFound | Redirect(to: Target) | ServerError

  /** The session entry `survey_responses`, when present. */
  type Session = Option<Accumulator>

  /** `SurveyTakeView.get`. A multi-page survey redirects to its first page.
      A single-page one would render its form, but `render` is not imported
      by the module, so that path fails. */
  function TakeGet(db: SurveyDb, id: SurveyId): (r: Response)
    ensures ActiveSurvey(db, id).None? ==> r == NotFound
    ensures r == Redirect(SurveyPage(id, 1)) <==> ActiveSurvey(db, id).Some? && ActiveSurvey(db, id).value.isMultiPage
    ensures r == ServerError <==> ActiveSurvey(db, id).Some? && !ActiveSurvey(db, id).value.isMultiPage
  {
    match ActiveSurvey(db, id)
    case None => NotFound
    case Some(s) => if s.isMultiPage then Redirect(SurveyPage(id, 1)) else ServerError
  }

  /** A choice picked in a single-page submission: it answers one of the
      survey's questions and is the value posted for that question. */
  predicate Selected(db: SurveyDb, id: SurveyId, post: map<QuestionId, ChoiceId>, c: Choice) {
    (exists q :: q in db.questions && q.survey == id && q.id == c.question)
      && c.question in post && post[c.question] == c.id
  }

  /** The well-formedness `TakePost`'s counting relies on: question ids and
      choice ids are primary keys. */
  ghost predicate KeysOk(db: SurveyDb) {
    UniqueKeys(db.questions, QuestionKey) && UniqueKeys(db.choices, ChoiceKey)
  }

  datatype Outcome = Outcome(db: SurveyDb, session: Session, response: Response)

  /** `SurveyTakeView.post`: the survey's questions by position, the form
      over them, and on success one vote for every chosen choice. An invalid
      form would be rendered again, which fails like the GET. */
  function TakePost(db: SurveyDb, id: SurveyId, post: map<QuestionId, ChoiceId>): (r: (SurveyDb, Response))
    ensures ActiveSurvey(db, id).None? ==> r == (db, NotFound)
    ensures r.1 != Redirect(SurveyResults(id)) ==> r.0 == db
    ensures r.0.surveys == db.surveys && r.0.questions == db.questions
    ensures ActiveSurvey(db, id).Some? ==> (r.1 == Redirect(SurveyResults(id)) <==>
      Clean(SortBy(QuestionsOf(db, id), ByOrder), db.choices, post).Some?)
  {
    match ActiveSurvey(db, id)
    case None => (db, NotFound)
    case Some(_) =>
      var questions := SortBy(QuestionsOf(db, id), ByOrder);
      match Clean(questions, db.choices, post)
      case None => (db, ServerError)
      case Some(answers) =>
        var f := Flush(db.choices, answers);
        assert f.complete by {
          forall a | a in answers ensures ChoiceExists(db.choices, a.choice) {
            assert ValidAnswer(db.choices, a.question, a.choice);
          }
        }
        (db.(choices := f.choices), Redirect(SurveyResults(id)))
  }

  /** A valid single-page submission adds exactly one vote to each chosen
      choice and leaves every other counter as it was. */
  lemma SinglePageCountsEachChoiceOnce(db: SurveyDb, id: SurveyId, post: map<QuestionId, ChoiceId>)
    requires KeysOk(db)
    requires TakePost(db, id, post).1 == Redirect(SurveyResults(id))
    ensures |TakePost(db, id, post).0.choices| == |db.choices|
    ensures forall i :: 0 <= i < |db.choices| ==>
      TakePost(db, id, post).0.choices[i] ==
        db.choices[i].(votes := db.choices[i].votes + if Selected(db, id, post, db.choices[i]) then 1 else 0)
  {
    var questions := SortBy(QuestionsOf(db, id), ByOrder);
    var answers := Clean(questions, db.choices, post).value;
    var f := Flush(db.choices, answers);
    assert TakePost(db, id, post).0.choices == f.choices;
    assert f.complete;
    QuestionsDistinct(db, id, questions);
    CleanChoicesDistinct(questions, db.choices, post);
    forall i | 0 <= i < |db.choices|
      ensures Hits(answers, db.choices[i].id) == if Selected(db, id, post, db.choices[i]) then 1 else 0
    {
      HitsOfDistinct(answers, db.choices[i].id);
      AnsweredIffSelected(db, id, post, questions, i);
    }
  }

  /** A choice is named by some cleaned answer exactly when it is selected. */
  lemma AnsweredIffSelected(db: SurveyDb, id: SurveyId, post: map<QuestionId, ChoiceId>, questions: seq<Question>, i: nat)
    requires KeysOk(db)
    requires questions == SortBy(QuestionsOf(db, id), ByOrder)
    requires Clean(questions, db.choices, post).Some?
    requires i < |db.choices|
    ensures (exists a :: a in Clean(questions, db.choices, post).value && a.choice == db.choices[i].id)
      <==> Selected(db, id, post, db.choices[i])
  {
    var answers := Clean(questions, db.choices, post).value;
    var c := db.choices[i];
    assert forall q :: q in questions <==> q in db.questions && q.survey == id by {
      assert forall q :: q in questions <==> q in multiset(questions);
    }
    if a :| a in answers && a.choice == c.id {
      AnswerNamesOwnQuestion(db, id, post, questions, a, i);
    }
    if Selected(db, id, post, c) {
      SelectedIsAnswered(db, id, post, questions, i);
    }
  }

  lemma AnswerNamesOwnQuestion(db: SurveyDb, id: SurveyId, post: map<QuestionId, ChoiceId>, questions: seq<Question>,
                               a: Answer, i: nat)
    requires KeysOk(db)
    requires forall q :: q in questions <==> q in db.questions && q.survey == id
    requires Clean(questions, db.choices, post).Some?
    requires a in Clean(questions, db.choices, post).value
    requires i < |db.choices| && a.choice == db.choices[i].id
    ensures Selected(db, id, post, db.choices[i])
  {
    var answers := Clean(questions, db.choices, post).value;
    var fs := Fields(questions, db.choices);
    assert ValidAnswer(db.choices, a.question, a.choice);
    var c' :| c' in db.choices && c'.id == a.choice && c'.question == a.question;
    UniqueKeysOnce(db.choices, ChoiceKey, c');
    CleanFollowsFields(questions, db.choices, post);
    var k :| 0 <= k < |answers| && answers[k] == a;
    assert AnsweredIds(answers)[k] == a.question;
    assert QuestionIds(fs)[k] == fs[k].id;
    assert fs[k] in fs;
  }

  lemma SelectedIsAnswered(db: SurveyDb, id: SurveyId, post: map<QuestionId, ChoiceId>, questions: seq<Question>, i: nat)
    requires forall q :: q in questions <==> q in db.questions && q.survey == id
    requires Clean(questions, db.choices, post).Some?
    requires i < |db.choices| && Selected(db, id, post, db.choices[i])
    ensures exists a :: a in Clean(questions, db.choices, post).value && a.choice == db.choices[i].id
  {
    var answers := Clean(questions, db.choices, post).value;
    var fs := Fields(questions, db.choices);
    var c := db.choices[i];
    CleanFollowsFields(questions, db.choices, post);
    var q :| q in db.questions && q.survey == id && q.id == c.question;
    assert c in db.choices;
    assert q in fs;
    var k :| 0 <= k < |fs| && fs[k] == q;
    assert QuestionIds(fs)[k] == q.id;
    assert AnsweredIds(answers)[k] == answers[k].question;
    assert answers[k] in answers;
  }

  /** Sorting the survey's questions keeps their ids distinct. */
  lemma QuestionsDistinct(db: SurveyDb, id: SurveyId, questions: seq<Question>)
    requires KeysOk(db)
    requires multiset(questions) == multiset(QuestionsOf(db, id))
    ensures forall i, j :: 0 <= i < j < |questions| ==> questions[i].id != questions[j].id
  {
    UniqueKeysSubMultiset(db.questions, questions, QuestionKey);
  }

  /** `SurveyPageView.get`. A single-page survey is sent to the take view;
      a multi-page one would render the page, which fails for want of
      `render`, so the session values it sets are not kept either. */
  function PageGet(db: SurveyDb, id: SurveyId, page: nat): (r: Response)
    ensures ActiveSurvey(db, id).None? ==> r == NotFound
    ensures r == Redirect(TakeSurvey(id)) <==> ActiveSurvey(db, id).Some? && !ActiveSurvey(db, id).value.isMultiPage
    ensures r == ServerError <==> ActiveSurvey(db, id).Some? && ActiveSurvey(db, id).value.isMultiPage
  {
    match ActiveSurvey(db, id)
    case None => NotFound
    case Some(s) => if !s.isMultiPage then Redirect(TakeSurvey(id)) else ServerError
  }

  /** The stored answers, or a fresh empty dict. */
  function Answers(session: Session): Accumulator {
    if session.Some? then session.value else []
  }

  /** The cleaned form of one page: its questions by position. */
  function PageAnswers(db: SurveyDb, id: SurveyId, page: nat, post: map<QuestionId, ChoiceId>): Option<seq<Answer>> {
    Clean(SortBy(QuestionsOnPage(db, id, page), ByOrder), db.choices, post)
  }

  /** `total_pages`. */
  function Pages(db: SurveyDb, id: SurveyId): nat {
    TotalPages(QuestionsOf(db, id))
  }

  /** `SurveyPageView.post`. The page's questions by position, the form over
      them; on success the answers are stored in the session. Before the
      last page it moves to the next page; on it (any page number at or past
      the number of distinct pages) every stored answer gets its vote and the
      store is dropped. The survey need not be multi-page. An invalid form
      would be rendered with a `total_pages` never assigned on that path;
      either way the request fails. */
  function PagePost(db: SurveyDb, session: Session, id: SurveyId, page: nat, post: map<QuestionId, ChoiceId>)
    : (r: Outcome)
    ensures ActiveSurvey(db, id).None? ==> r == Outcome(db, session, NotFound)
    ensures r.db.surveys == db.surveys && r.db.questions == db.questions
    ensures page < Pages(db, id) ==> r.db == db
    ensures r.response == ServerError && page < Pages(db, id) ==> r.session == session
    ensures r.response == Redirect(SurveyResults(id)) ==> r.session == None
    ensures ActiveSurvey(db, id).Some? && page < Pages(db, id) ==>
      (r.response == Redirect(SurveyPage(id, page + 1)) <==> PageAnswers(db, id, page, post).Some?)
  {
    match ActiveSurvey(db, id)
    case None => Outcome(db, session, NotFound)
    case Some(_) =>
      match PageAnswers(db, id, page, post)
      case None => Outcome(db, session, ServerError)
      case Some(answers) =>
        var acc := StoreAll(Answers(session), answers);
        if page < Pages(db, id) then
          Outcome(db, Some(acc), Redirect(SurveyPage(id, page + 1)))
        else
          var f := Flush(db.choices, acc);
          if f.complete then Outcome(db.(choices := f.choices), None, Redirect(SurveyResults(id)))
          else Outcome(db.(choices := f.choices), session, ServerError)
  }

  /** Moving on to the next page stores the page's answers in the session:
      each question of the page maps to the choice just given, and the
      questions of other pages keep what they had. */
  lemma AdvanceStoresPage(db: SurveyDb, session: Session, id: SurveyId, page: nat, post: map<QuestionId, ChoiceId>)
    requires ActiveSurvey(db, id).Some? && page < Pages(db, id)
    requires PageAnswers(db, id, page, post).Some?
    ensures PagePost(db, session, id, page, post).response == Redirect(SurveyPage(id, page + 1))
    ensures PagePost(db, session, id, page, post).session ==
      Some(StoreAll(Answers(session), PageAnswers(db, id, page, post).value))
  {
    var answers := PageAnswers(db, id, page, post).value;
    assert PagePost(db, session, id, page, post) ==
      Outcome(db, Some(StoreAll(Answers(session), answers)), Redirect(SurveyPage(id, page + 1)));
  }

  /** On the last page, when every stored answer names an existing choice,
      the survey completes and each choice gains as many votes as stored
      answers name it. */
  lemma FinalPageFlushes(db: SurveyDb, session: Session, id: SurveyId, page: nat, post: map<QuestionId, ChoiceId>)
    requires ActiveSurvey(db, id).Some? && page >= Pages(db, id)
    requires PageAnswers(db, id, page, post).Some?
    requires forall a :: a in StoreAll(Answers(session), PageAnswers(db, id, page, post).value) ==>
      ChoiceExists(db.choices, a.choice)
    ensures PagePost(db, session, id, page, post).response == Redirect(SurveyResults(id))
    ensures var acc := StoreAll(Answers(session), PageAnswers(db, id, page, post).value);
      var r := PagePost(db, session, id, page, post).db.choices;
      |r| == |db.choices| && forall i :: 0 <= i < |db.choices| ==>
        r[i] == db.choices[i].(votes := db.choices[i].votes + Hits(acc, db.choices[i].id))
  {
    var answers := PageAnswers(db, id, page, post).value;
    var f := Flush(db.choices, StoreAll(Answers(session), answers));
    assert PagePost(db, session, id, page, post) == Outcome(db.(choices := f.choices), None, Redirect(SurveyResults(id)));
  }

  /** A page submission that is not the last never touches a counter, so
      leaving a survey before its last page changes no vote. */
  lemma AbandonChangesNoVotes(db: SurveyDb, session: Session, id: SurveyId, page: nat, post: map<QuestionId, ChoiceId>)
    requires PagePost(db, session, id, page, post).response.Redirect?
    requires PagePost(db, session, id, page, post).response.to.SurveyPage?
    ensures PagePost(db, session, id, page, post).db == db
    ensures page < Pages(db, id)
  {
    LastPageDoesNotAdvance(db, session, id, page, post);
  }

  /** From the last page on, a submission never leads to another page. */
  lemma {:induction false} LastPageDoesNotAdvance(db: SurveyDb, session: Session, id: SurveyId, page: nat, post: map<QuestionId, ChoiceId>)
    ensures var r := PagePost(db, session, id, page, post).response;
      page >= Pages(db, id) ==> !(r.Redirect? && r.to.SurveyPage?)
  {
    if page >= Pages(db, id) && ActiveSurvey(db, id).Some? {
      match PageAnswers(db, id, page, post)
      case None =>
      case Some(answers) =>
        var f := Flush(db.choices, StoreAll(Answers(session), answers));
        assert PagePost(db, session, id, page, post) ==
          if f.complete then Outcome(db.(choices := f.choices), None, Redirect(SurveyResults(id)))
          else Outcome(db.(choices := f.choices), session, ServerError);
    }
  }

  /** One row of the results page. */
  datatype ChoiceRow = ChoiceRow(choice: Choice, percentage: real)
  datatype QuestionResult = QuestionResult(question: Question, rows: seq<ChoiceRow>, total: nat)

  datatype ResultsError = SurveyNotFound | ResultsCrash

  /** The percentage guard `if question.choices.all()` sits inside the loop
      over those very choices, so it always holds there: a question that has
      choices but no votes divides by zero. */
  predicate DividesByZero(choices: seq<Choice>, q: Question) {
    |ChoicesOf(choices, q.id)| > 0 && Tally.Sum(ChoicesOf(choices, q.id), ChoiceVotes) == 0
  }

  function ResultOf(choices: seq<Choice>, q: Question): (r: QuestionResult)
    ensures r.question == q
    ensures r.total == Tally.Sum(ChoicesOf(choices, q.id), ChoiceVotes)
    ensures |r.rows| == |ChoicesOf(choices, q.id)|
    ensures forall k :: 0 <= k < |r.rows| ==>
      (r.rows[k].choice == ChoicesOf(choices, q.id)[k] && r.rows[k].percentage == Tally.Share(r.rows[k].choice.votes, r.total))
  {
    var cs := ChoicesOf(choices, q.id);
    var total := Tally.Sum(cs, ChoiceVotes);
    QuestionResult(q, seq(|cs|, k requires 0 <= k < |cs| => ChoiceRow(cs[k], Tally.Share(cs[k].votes, total))), total)
  }

  function ResultsOf(choices: seq<Choice>, questions: seq<Question>): (r: seq<QuestionResult>)
    ensures |r| == |questions|
    ensures forall k :: 0 <= k < |r| ==> r[k] == ResultOf(choices, questions[k])
  {
    seq(|questions|, k requires 0 <= k < |questions| => ResultOf(choices, questions[k]))
  }

  predicate AnyDividesByZero(choices: seq<Choice>, questions: seq<Question>) {
    exists q :: q in questions && DividesByZero(choices, q)
  }

  /** `SurveyResultsView`: 404 only for an unknown survey (inactive ones are
      shown); a crash when some question with choices has no votes yet;
      otherwise one entry per question in (page, position) order, each with
      its total and every choice's share of it. */
  function Results(db: SurveyDb, id: SurveyId): (r: Result<seq<QuestionResult>, ResultsError>)
    ensures r == Failure(SurveyNotFound) <==> Find(db.surveys, SurveyKey, id).None?
    ensures r == Failure(ResultsCrash) <==> (Find(db.surveys, SurveyKey, id).Some?
      && AnyDividesByZero(db.choices, QuestionsOf(db, id)))
    ensures r.Success? ==> r.value == ResultsOf(db.choices, SortBy(QuestionsOf(db, id), PageOrder))
  {
    if Find(db.surveys, SurveyKey, id).None? then Failure(SurveyNotFound)
    else
      var questions := SortBy(QuestionsOf(db, id), PageOrder);
      assert AnyDividesByZero(db.choices, questions) <==> AnyDividesByZero(db.choices, QuestionsOf(db, id)) by {
        assert forall q :: q in questions <==> q in multiset(questions);
      }
      if AnyDividesByZero(db.choices, questions) then Failure(ResultsCrash)
      else Success(ResultsOf(db.choices, questions))
  }

  function ResultQuestions(res: seq<QuestionResult>): seq<Question> {
    seq(|res|, k requires 0 <= k < |res| => res[k].question)
  }

  /** The results list every question of the survey once, in (page,
      position) order. */
  lemma ResultsInPageOrder(db: SurveyDb, id: SurveyId)
    requires Results(db, id).Success?
    ensures multiset(ResultQuestions(Results(db, id).value)) == multiset(QuestionsOf(db, id))
    ensures SortedBy(ResultQuestions(Results(db, id).value), PageOrder)
  {
    ResultQuestionsOf(db.choices, SortBy(QuestionsOf(db, id), PageOrder));
  }

  /** The entries follow the questions they were built from. */
  lemma {:induction false} ResultQuestionsOf(choices: seq<Choice>, questions: seq<Question>)
    ensures ResultQuestions(ResultsOf(choices, questions)) == questions
  {
    var qs := ResultQuestions(ResultsOf(choices, questions));
    assert forall k :: 0 <= k < |qs| ==> qs[k] == questions[k];
  }

  function Percentages(rows: seq<ChoiceRow>): seq<real> {
    seq(|rows|, i requires 0 <= i < |rows| => rows[i].percentage)
  }

  /** On a results page that is shown, every question with choices has
      percentages adding up to 100. */
  lemma ResultsSharesSumTo100(db: SurveyDb, id: SurveyId, k: nat)
    requires Results(db, id).Success?
    requires k < |Results(db, id).value| && |Results(db, id).value[k].rows| > 0
    ensures Tally.SumReals(Percentages(Results(db, id).value[k].rows)) == 100.0
  {
    var questions := SortBy(QuestionsOf(db, id), PageOrder);
    var q := questions[k];
    assert Results(db, id).value[k] == ResultOf(db.choices, q);
    assert q in multiset(questions);
    assert !DividesByZero(db.choices, q);
    RowSharesSumTo100(db.choices, q);
  }

  /** A question with choices and at least one vote: its percentages add up
      to 100. */
  lemma {:induction false} RowSharesSumTo100(choices: seq<Choice>, q: Question)
    requires |ChoicesOf(choices, q.id)| > 0 && !DividesByZero(choices, q)
    ensures Tally.SumReals(Percentages(ResultOf(choices, q).rows)) == 100.0
  {
    var res := ResultOf(choices, q);
    var cs := ChoicesOf(choices, q.id);
    assert Percentages(res.rows) == Tally.Shares(cs, ChoiceVotes, res.total);
    Tally.SharesSumTo100(cs, ChoiceVotes);
  }

  /** The results page as evidently intended: the percentage guard tests the
      total, as the vote results page does, so a question nobody answered
      yet shows 0% for each choice instead of failing. */
  function IntendedResults(db: SurveyDb, id: SurveyId): (r: Result<seq<QuestionResult>, ResultsError>)
    ensures r.Failure? <==> Find(db.surveys, SurveyKey, id).None?
    ensures r.Failure? ==> r.error == SurveyNotFound
    ensures r.Success? ==> |r.value| == |QuestionsOf(db, id)|
    ensures r.Success? ==> forall k, i :: 0 <= k < |r.value| && 0 <= i < |r.value[k].rows| && r.value[k].total == 0 ==>
      r.value[k].rows[i].percentage == 0.0
  {
    if Find(db.surveys, SurveyKey, id).None? then Failure(SurveyNotFound)
    else Success(ResultsOf(db.choices, SortBy(QuestionsOf(db, id), PageOrder)))
  }

  /** Where the page as written is shown, the intended page shows the same. */
  lemma IntendedResultsAgree(db: SurveyDb, id: SurveyId)
    requires Results(db, id).Success?
    ensures IntendedResults(db, id) == Results(db, id)
  {
  }
}
