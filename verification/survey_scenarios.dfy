/** Worked examples of the multi-page survey flow on small concrete
    surveys: the intended two-page walk, a survey whose page numbers have a
    gap, answers of an abandoned survey counted by another one, and a
    results page that divides by zero. */
module SurveyScenarios {
  import opened Wrappers
  import opened Queries
  import opened SurveyModel
  import opened SurveyForms
  import opened SurveySession
  import opened SurveyViews
  import opened SurveyAsWritten
  import Tally

  const Q1 := Question(10, 1, "first", 1, 0)
  const Q2 := Question(20, 1, "second", 2, 0)
  const X := Choice(100, 10, "x", 0)
  const X2 := Choice(101, 10, "x2", 0)
  const Y := Choice(200, 20, "y", 0)
  const Y2 := Choice(201, 20, "y2", 0)

  /** Survey 1: two pages, one question with two choices on each. */
  const TwoPages := SurveyDb([Survey(1, "two pages", true, true, 0)], [Q1, Q2], [X, X2, Y, Y2])

  /** A page with a single question, answered with one of its choices,
      cleans to that one answer. */
  lemma {:induction false} SingleQuestionPage(db: SurveyDb, id: SurveyId, page: nat, post: map<QuestionId, ChoiceId>, q: Question, c: Choice)
    requires QuestionsOnPage(db, id, page) == [q]
    requires c in db.choices && c.question == q.id
    requires q.id in post && post[q.id] == c.id
    ensures PageAnswers(db, id, page, post) == Some([Answer(q.id, c.id)])
  {
    assert SortBy([q], ByOrder) == [q];
    assert HasChoices(db.choices, q.id) && Answered(db.choices, post, q.id);
    var rest := Clean([q][1..], db.choices, post);
    assert [q][1..] == [];
    assert rest == Some([]);
    assert [Answer(q.id, c.id)] + rest.value == [Answer(q.id, c.id)];
  }

  /** A clean submission before the last page stores its answers and moves
      on. */
  lemma {:induction false} Advances(db: SurveyDb, session: Session, id: SurveyId, page: nat, post: map<QuestionId, ChoiceId>, answers: seq<Answer>)
    requires ActiveSurvey(db, id).Some?
    requires PageAnswers(db, id, page, post) == Some(answers)
    requires page < Pages(db, id)
    ensures PagePost(db, session, id, page, post) ==
      Outcome(db, Some(StoreAll(Answers(session), answers)), Redirect(SurveyPage(id, page + 1)))
  {
  }

  /** A clean submission on the last page whose flush completes goes to the
      results with the new counters and an empty session. */
  lemma {:induction false} Finishes(db: SurveyDb, session: Session, id: SurveyId, page: nat, post: map<QuestionId, ChoiceId>, answers: seq<Answer>, counted: seq<Choice>)
    requires ActiveSurvey(db, id).Some?
    requires PageAnswers(db, id, page, post) == Some(answers)
    requires page >= Pages(db, id)
    requires Flush(db.choices, StoreAll(Answers(session), answers)) == FlushResult(counted, true)
    ensures PagePost(db, session, id, page, post) ==
      Outcome(db.(choices := counted), None, Redirect(SurveyResults(id)))
  {
  }

  /** How often a two-answer store names a choice. */
  lemma {:induction false} HitsPair(a: Answer, b: Answer, id: ChoiceId)
    ensures Hits([a, b], id) == (if a.choice == id then 1 else 0) + (if b.choice == id then 1 else 0)
  {
    assert [b][1..] == [];
    assert Hits([b], id) == (if b.choice == id then 1 else 0);
    assert [a, b][1..] == [b];
  }

  /** A flush whose every answer names an existing choice completes, with
      each counter raised by the answers naming it. */
  lemma {:induction false} FlushAll(choices: seq<Choice>, acc: Accumulator, expected: seq<Choice>)
    requires forall a :: a in acc ==> ChoiceExists(choices, a.choice)
    requires |expected| == |choices|
    requires forall i :: 0 <= i < |choices| ==>
      expected[i] == choices[i].(votes := choices[i].votes + Hits(acc, choices[i].id))
    ensures Flush(choices, acc) == FlushResult(expected, true)
  {
    var f := Flush(choices, acc);
    assert f.choices == expected;
  }

  lemma {:induction false} TwoPagesActive()
    ensures ActiveSurvey(TwoPages, 1).Some?
  {
  }

  lemma TwoPagesCount()
    ensures Pages(TwoPages, 1) == 2
  {
    var qs := QuestionsOf(TwoPages, 1);
    assert Q1 in qs && Q2 in qs;
    assert forall q :: q in qs ==> q == Q1 || q == Q2;
    assert (set q | q in qs :: q.page) == {1, 2};
  }

  lemma FirstPageClean()
    ensures PageAnswers(TwoPages, 1, 1, map[10 := 100]) == Some([Answer(10, 100)])
  {
    var p := QuestionsOnPage(TwoPages, 1, 1);
    assert p == [Q1];
    SingleQuestionPage(TwoPages, 1, 1, map[10 := 100], Q1, X);
  }


  lemma SecondPageClean()
    ensures PageAnswers(TwoPages, 1, 2, map[20 := 200]) == Some([Answer(20, 200)])
  {
    var p := QuestionsOnPage(TwoPages, 1, 2);
    assert p == [Q2];
    SingleQuestionPage(TwoPages, 1, 2, map[20 := 200], Q2, Y);
  }


  /** Page 1 answered with x: on to page 2, x stored, no vote yet. */
  lemma TwoPageWalkFirst()
    ensures PagePost(TwoPages, None, 1, 1, map[10 := 100]) ==
      Outcome(TwoPages, Some([Answer(10, 100)]), Redirect(SurveyPage(1, 2)))
  {
    TwoPagesCount();
    FirstPageClean();
    TwoPagesActive();
    assert StoreAll([], [Answer(10, 100)]) == [Answer(10, 100)];
    Advances(TwoPages, None, 1, 1, map[10 := 100], [Answer(10, 100)]);
  }


  /** Page 1 answered with x, as written: the server fails, the session
      stays empty and no counter moves, where the id reading goes on to
      page 2. */
  lemma TwoPageWalkFirstAsWritten()
    ensures PagePostAsWritten(TwoPages, None, 1, 1, map[10 := 100]) == Outcome(TwoPages, None, ServerError)
    ensures PagePost(TwoPages, None, 1, 1, map[10 := 100]).response == Redirect(SurveyPage(1, 2))
  {
    TwoPagesCount();
    FirstPageClean();
    TwoPagesActive();
    PageAsWrittenLosesAnswers(TwoPages, None, 1, 1, map[10 := 100]);
  }

  /** Storing the second page's answer after the first. */
  lemma SecondPageStored()
    ensures StoreAll([Answer(10, 100)], [Answer(20, 200)]) == [Answer(10, 100), Answer(20, 200)]
  {
    assert [Answer(20, 200)][1..] == [];
    assert Store([Answer(10, 100)], Answer(20, 200)) == [Answer(10, 100), Answer(20, 200)];
  }

  /** Flushing both answers adds one vote to x and one to y. */
  lemma BothAnswersFlushed()
    ensures Flush(TwoPages.choices, [Answer(10, 100), Answer(20, 200)]) ==
      FlushResult([X.(votes := 1), X2, Y.(votes := 1), Y2], true)
  {
    var ch := TwoPages.choices;
    var a, b := Answer(10, 100), Answer(20, 200);
    assert ChoiceExists(ch, 100) && ChoiceExists(ch, 200) by {
      assert X in ch && Y in ch;
    }
    HitsPair(a, b, 100);
    HitsPair(a, b, 101);
    HitsPair(a, b, 200);
    HitsPair(a, b, 201);
    FlushAll(ch, [a, b], [X.(votes := 1), X2, Y.(votes := 1), Y2]);
  }


  /** Page 2 answered with y: x and y each gain one vote and the store is
      dropped. */
  lemma TwoPageWalkSecond()
    ensures PagePost(TwoPages, Some([Answer(10, 100)]), 1, 2, map[20 := 200]) ==
      Outcome(TwoPages.(choices := [X.(votes := 1), X2, Y.(votes := 1), Y2]), None, Redirect(SurveyResults(1)))
  {
    TwoPagesCount();
    SecondPageClean();
    SecondPageStored();
    BothAnswersFlushed();
    TwoPagesActive();
    assert Answers(Some([Answer(10, 100)])) == [Answer(10, 100)];
    Finishes(TwoPages, Some([Answer(10, 100)]), 1, 2, map[20 := 200], [Answer(20, 200)],
      [X.(votes := 1), X2, Y.(votes := 1), Y2]);
  }


  const G1 := Question(40, 3, "early", 1, 0)
  const G3 := Question(50, 3, "late", 3, 0)
  const W := Choice(400, 40, "w", 0)
  const V := Choice(500, 50, "v", 0)

  /** Survey 3: questions on pages 1 and 3 only. */
  const Gapped := SurveyDb([Survey(3, "gapped", true, true, 0)], [G1, G3], [W, V])

  lemma {:induction false} GappedActive()
    ensures ActiveSurvey(Gapped, 3).Some?
  {
  }

  lemma GappedCount()
    ensures Pages(Gapped, 3) == 2
  {
    var qs := QuestionsOf(Gapped, 3);
    assert G1 in qs && G3 in qs;
    assert forall q :: q in qs ==> q == G1 || q == G3;
    assert (set q | q in qs :: q.page) == {1, 3};
  }

  lemma EmptyPageClean()
    ensures PageAnswers(Gapped, 3, 2, map[]) == Some([])
  {
    assert QuestionsOnPage(Gapped, 3, 2) == [];
  }

  /** With pages 1 and 3 the page count is two, so page 2, which has no
      questions, is the last page: posting it counts the page 1 answer and
      the page 3 question is never asked. */
  lemma GapSkipsLastPage()
    ensures PagePost(Gapped, Some([Answer(40, 400)]), 3, 2, map[]) ==
      Outcome(Gapped.(choices := [W.(votes := 1), V]), None, Redirect(SurveyResults(3)))
  {
    GappedCount();
    EmptyPageClean();
    var acc := [Answer(40, 400)];
    assert StoreAll(acc, []) == acc;
    GapFlushed();
    assert Answers(Some(acc)) == acc;
    GappedActive();
    Finishes(Gapped, Some(acc), 3, 2, map[], [], [W.(votes := 1), V]);
  }

  /** The page 1 answer alone is counted. */
  lemma {:induction false} GapFlushed()
    ensures Flush(Gapped.choices, [Answer(40, 400)]) == FlushResult([W.(votes := 1), V], true)
  {
    var acc := [Answer(40, 400)];
    assert ChoiceExists(Gapped.choices, 400) by {
      assert W in Gapped.choices;
    }
    assert acc[1..] == [];
    assert Hits(acc, 400) == 1 && Hits(acc, 500) == 0;
    FlushAll(Gapped.choices, acc, [W.(votes := 1), V]);
  }


  const Q3 := Question(30, 2, "only", 1, 0)
  const Z := Choice(300, 30, "z", 0)

  /** Surveys 1 and 2 side by side; survey 2 has a single page. */
  const Both := SurveyDb(
    [Survey(1, "two pages", true, true, 0), Survey(2, "one page", true, true, 0)],
    [Q1, Q2, Q3], [X, X2, Y, Y2, Z])

  lemma SurveyTwoCount()
    ensures Pages(Both, 2) == 1
  {
    var qs := QuestionsOf(Both, 2);
    assert Q3 in qs;
    assert forall q :: q in qs ==> q == Q3;
    assert (set q | q in qs :: q.page) == {1};
  }

  lemma SurveyTwoClean()
    ensures PageAnswers(Both, 2, 1, map[30 := 300]) == Some([Answer(30, 300)])
  {
    OnlyQuestionOfSurveyTwo();
    SingleQuestionPage(Both, 2, 1, map[30 := 300], Q3, Z);
  }

  /** Page 1 of survey 2 holds its one question, though survey 1 has a
      page 1 too. */
  lemma {:induction false} OnlyQuestionOfSurveyTwo()
    ensures QuestionsOnPage(Both, 2, 1) == [Q3]
  {
    var p := QuestionsOnPage(Both, 2, 1);
    assert multiset(Both.questions)[Q3] == 1;
    assert multiset(p)[Q3] == 1;
    assert forall q :: q in multiset(p) ==> q == Q3;
    assert multiset(p) == multiset{Q3};
    assert |p| == |multiset(p)| == 1;
    assert p == [Q3] by { assert p[0] in multiset(p); }
  }


  lemma LeakStored()
    ensures StoreAll([Answer(10, 100)], [Answer(30, 300)]) == [Answer(10, 100), Answer(30, 300)]
  {
    assert [Answer(30, 300)][1..] == [];
    assert Store([Answer(10, 100)], Answer(30, 300)) == [Answer(10, 100), Answer(30, 300)];
  }

  lemma LeakFlushed()
    ensures Flush(Both.choices, [Answer(10, 100), Answer(30, 300)]) ==
      FlushResult([X.(votes := 1), X2, Y, Y2, Z.(votes := 1)], true)
  {
    var ch := Both.choices;
    var a, b := Answer(10, 100), Answer(30, 300);
    assert ChoiceExists(ch, 100) && ChoiceExists(ch, 300) by {
      assert X in ch && Z in ch;
    }
    HitsPair(a, b, 100);
    HitsPair(a, b, 101);
    HitsPair(a, b, 200);
    HitsPair(a, b, 201);
    HitsPair(a, b, 300);
    FlushAll(ch, [a, b], [X.(votes := 1), X2, Y, Y2, Z.(votes := 1)]);
  }


  lemma {:induction false} SurveyTwoActive()
    ensures ActiveSurvey(Both, 2).Some?
  {
    assert Both.surveys[1..] == [Survey(2, "one page", true, true, 0)];
    assert Find(Both.surveys[1..], SurveyKey, 2) == Some(Survey(2, "one page", true, true, 0));
  }

  /** The stored answers live under one session key shared by all surveys:
      a visitor who answers page 1 of survey 1, leaves, and completes
      survey 2 has the survey 1 answer counted as well. */
  lemma AbandonedAnswerCountedElsewhere()
    ensures PagePost(Both, Some([Answer(10, 100)]), 2, 1, map[30 := 300]) ==
      Outcome(Both.(choices := [X.(votes := 1), X2, Y, Y2, Z.(votes := 1)]), None, Redirect(SurveyResults(2)))
  {
    SurveyTwoCount();
    SurveyTwoClean();
    LeakStored();
    LeakFlushed();
    SurveyTwoActive();
    assert Answers(Some([Answer(10, 100)])) == [Answer(10, 100)];
    Finishes(Both, Some([Answer(10, 100)]), 2, 1, map[30 := 300], [Answer(30, 300)],
      [X.(votes := 1), X2, Y, Y2, Z.(votes := 1)]);
  }


  /** Survey 4: one question with one choice that nobody picked yet. */
  const Unanswered := SurveyDb([Survey(4, "fresh", true, false, 0)], [Question(60, 4, "any", 1, 0)], [Choice(600, 60, "u", 0)])

  /** The results page of a survey whose question has a choice but no votes
      divides by zero; the intended page shows that choice at 0%. */
  lemma ZeroVotesCrash()
    ensures Results(Unanswered, 4) == Failure(ResultsCrash)
    ensures IntendedResults(Unanswered, 4).Success?
    ensures IntendedResults(Unanswered, 4).value[0].rows[0].percentage == 0.0
  {
    var q := Question(60, 4, "any", 1, 0);
    var c := Choice(600, 60, "u", 0);
    assert QuestionsOf(Unanswered, 4) == [q];
    assert ChoicesOf(Unanswered.choices, 60) == [c];
    assert Tally.Sum([c], ChoiceVotes) == 0;
    assert DividesByZero(Unanswered.choices, q);
    assert SortBy([q], PageOrder) == [q];
  }
}
