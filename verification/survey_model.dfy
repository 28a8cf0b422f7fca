/** The survey tables: surveys, their questions (grouped into pages) and
    each question's choices with a running vote counter. */
module SurveyModel {
  import opened Wrappers
  import opened Queries
  import Tally

  type SurveyId = int
  type QuestionId = int
  type ChoiceId = int

  datatype Survey = Survey(id: SurveyId, title: string, isActive: bool, isMultiPage: bool, createdAt: int)

  datatype Question = Question(id: QuestionId, survey: SurveyId, text: string, page: nat, order: nat)

  datatype Choice = Choice(id: ChoiceId, question: QuestionId, text: string, votes: nat)

  datatype SurveyDb = SurveyDb(surveys: seq<Survey>, questions: seq<Question>, choices: seq<Choice>)

  /** A new survey is active and single-page. */
  function NewSurvey(id: SurveyId, title: string, now: int): (s: Survey)
    ensures s.isActive && !s.isMultiPage && s.id == id
  {
    Survey(id, title, true, false, now)
  }

  /** A new question sits on page 1 at position 0 of the survey it is added to. */
  function NewQuestion(id: QuestionId, survey: SurveyId, text: string): (q: Question)
    ensures q.page == 1 && q.order == 0 && q.survey == survey
  {
    Question(id, survey, text, 1, 0)
  }

  /** A new choice has no votes. */
  function NewChoice(id: ChoiceId, question: QuestionId, text: string): (c: Choice)
    ensures c.votes == 0 && c.question == question
  {
    Choice(id, question, text, 0)
  }

  function SurveyKey(s: Survey): int { s.id }
  function QuestionKey(q: Question): int { q.id }
  function ChoiceKey(c: Choice): int { c.id }
  function ChoiceVotes(c: Choice): nat { c.votes }

  /** The default ordering of questions: by page, then by position. */
  function PageOrder(q: Question): (int, int) { (q.page, q.order) }

  /** `order_by('order')`, which replaces the default ordering. */
  function ByOrder(q: Question): (int, int) { (q.order, 0) }

  /** `get_object_or_404(Survey, pk=id, is_active=True)`: an inactive
      survey is as missing as an unknown one. */
  function ActiveSurvey(db: SurveyDb, id: SurveyId): (r: Option<Survey>)
    ensures r.Some? ==> r.value in db.surveys && r.value.id == id && r.value.isActive
    ensures r.None? <==> (forall s :: s in db.surveys ==> s.id != id) || !Find(db.surveys, SurveyKey, id).value.isActive
  {
    match Find(db.surveys, SurveyKey, id)
    case None => None
    case Some(s) => if s.isActive then Some(s) else None
  }

  /** `survey.questions`: the survey's questions. */
  function QuestionsOf(db: SurveyDb, survey: SurveyId): (r: seq<Question>)
    ensures forall q :: q in r <==> q in db.questions && q.survey == survey
  {
    Filter(db.questions, (q: Question) => q.survey == survey)
  }

  /** `survey.questions.filter(page=page)`. */
  function QuestionsOnPage(db: SurveyDb, survey: SurveyId, page: nat): (r: seq<Question>)
    ensures forall q :: q in r <==> q in db.questions && q.survey == survey && q.page == page
  {
    Filter(db.questions, (q: Question) => q.survey == survey && q.page == page)
  }

  /** `question.choices.all()`. */
  function ChoicesOf(choices: seq<Choice>, question: QuestionId): (r: seq<Choice>)
    ensures forall c :: c in r <==> c in choices && c.question == question
  {
    Filter(choices, (c: Choice) => c.question == question)
  }

  predicate HasChoices(choices: seq<Choice>, question: QuestionId) {
    exists c :: c in choices && c.question == question
  }

  /** The number of pages: how many distinct page numbers the survey's
      questions use, whatever those numbers are. */
  function TotalPages(questions: seq<Question>): (n: nat)
    ensures n <= |questions|
    ensures n == |set q | q in questions :: q.page|
  {
    PagesBound(questions);
    |set q | q in questions :: q.page|
  }

  lemma {:induction false} PagesBound(questions: seq<Question>)
    ensures |set q | q in questions :: q.page| <= |questions|
  {
    if |questions| > 0 {
      var rest := questions[1..];
      PagesBound(rest);
      assert (set q | q in questions :: q.page) == (set q | q in rest :: q.page) + {questions[0].page} by {
        assert questions == [questions[0]] + rest;
      }
    }
  }

  /** A choice's votes, raised by one where its id is `id`. */
  function IncrementChoice(choices: seq<Choice>, id: ChoiceId): (r: seq<Choice>)
    ensures |r| == |choices|
    ensures forall i :: 0 <= i < |choices| ==> r[i] == choices[i].(votes := r[i].votes)
    ensures forall i :: 0 <= i < |choices| ==> r[i].votes == choices[i].votes + (if choices[i].id == id then 1 else 0)
  {
    seq(|choices|, i requires 0 <= i < |choices| =>
      if choices[i].id == id then choices[i].(votes := choices[i].votes + 1) else choices[i])
  }
}
