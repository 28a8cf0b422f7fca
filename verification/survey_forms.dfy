/** `SurveyResponseForm`: one required radio field per question that has
    choices, keyed by the question's id, accepting only that question's own
    choices. */
module SurveyForms {
  import opened Wrappers
  import opened SurveyModel

  /** One cleaned field: the choice picked for a question. */
  datatype Answer = Answer(question: QuestionId, choice: ChoiceId)

  /** The questions that get a field: those with at least one choice, in
      the order given. */
  function Fields(questions: seq<Question>, choices: seq<Choice>): (r: seq<Question>)
    ensures |r| <= |questions|
    ensures forall q :: q in r <==> q in questions && HasChoices(choices, q.id)
  {
    if |questions| == 0 then []
    else
      var rest := Fields(questions[1..], choices);
      assert questions == [questions[0]] + questions[1..];
      if HasChoices(choices, questions[0].id) then [questions[0]] + rest else rest
  }

  /** The field's queryset: `choice` is one of `question`'s own choices. */
  predicate ValidAnswer(choices: seq<Choice>, question: QuestionId, choice: ChoiceId) {
    exists c :: c in choices && c.id == choice && c.question == question
  }

  /** A required field is answered with one of its own choices. */
  predicate Answered(choices: seq<Choice>, post: map<QuestionId, ChoiceId>, question: QuestionId) {
    question in post && ValidAnswer(choices, question, post[question])
  }

  function QuestionIds(qs: seq<Question>): seq<QuestionId> {
    seq(|qs|, k requires 0 <= k < |qs| => qs[k].id)
  }

  function AnsweredIds(answers: seq<Answer>): seq<QuestionId> {
    seq(|answers|, k requires 0 <= k < |answers| => answers[k].question)
  }

  /** `form.is_valid()` and `form.cleaned_data`. The posted data maps a
      question id to the choice id sent for it; an unanswered question has
      no entry. The form is valid iff every question with choices is
      answered with one of its own choices; the cleaned data then holds
      exactly one answer per such question, in question order, carrying the
      posted choice. Questions without choices are not part of the form. */
  function Clean(questions: seq<Question>, choices: seq<Choice>, post: map<QuestionId, ChoiceId>)
    : (r: Option<seq<Answer>>)
    ensures r.Some? <==> forall q :: q in questions && HasChoices(choices, q.id) ==> Answered(choices, post, q.id)
    ensures r.Some? ==> forall a :: a in r.value ==> a.question in post && a.choice == post[a.question]
    ensures r.Some? ==> forall a :: a in r.value ==> ValidAnswer(choices, a.question, a.choice)
  {
    if |questions| == 0 then Some([])
    else
      var q := questions[0];
      var rest := Clean(questions[1..], choices, post);
      assert questions == [q] + questions[1..];
      if !HasChoices(choices, q.id) then rest
      else if !Answered(choices, post, q.id) then None
      else if rest.None? then None
      else Some([Answer(q.id, post[q.id])] + rest.value)
  }

  /** The cleaned answers follow the fields one for one: the i-th answer is
      for the i-th question that has choices. */
  lemma {:induction false} CleanFollowsFields(questions: seq<Question>, choices: seq<Choice>, post: map<QuestionId, ChoiceId>)
    requires Clean(questions, choices, post).Some?
    ensures AnsweredIds(Clean(questions, choices, post).value) == QuestionIds(Fields(questions, choices))
  {
    if |questions| > 0 {
      var q := questions[0];
      var rest := Clean(questions[1..], choices, post);
      CleanFollowsFields(questions[1..], choices, post);
      if HasChoices(choices, q.id) {
        var fs := Fields(questions[1..], choices);
        assert Clean(questions, choices, post).value == [Answer(q.id, post[q.id])] + rest.value;
        assert Fields(questions, choices) == [q] + fs;
        AnsweredIdsCons(Answer(q.id, post[q.id]), rest.value);
        QuestionIdsCons(q, fs);
      }
    }
  }

  lemma {:induction false} AnsweredIdsCons(a: Answer, rest: seq<Answer>)
    ensures AnsweredIds([a] + rest) == [a.question] + AnsweredIds(rest)
  {
  }

  lemma {:induction false} QuestionIdsCons(q: Question, rest: seq<Question>)
    ensures QuestionIds([q] + rest) == [q.id] + QuestionIds(rest)
  {
  }

  /** Distinct questions give distinct answers: the fields are keyed by the
      question id, so no question is answered twice. */
  lemma {:induction false} CleanAnswersEachQuestionOnce(questions: seq<Question>, choices: seq<Choice>,
                                                        post: map<QuestionId, ChoiceId>)
    requires forall i, j :: 0 <= i < j < |questions| ==> questions[i].id != questions[j].id
    requires Clean(questions, choices, post).Some?
    ensures forall i, j :: 0 <= i < j < |Clean(questions, choices, post).value| ==>
      Clean(questions, choices, post).value[i].question != Clean(questions, choices, post).value[j].question
  {
    var r := Clean(questions, choices, post).value;
    var fs := Fields(questions, choices);
    FieldsDistinct(questions, choices);
    CleanFollowsFields(questions, choices, post);
    forall i, j | 0 <= i < j < |r| ensures r[i].question != r[j].question {
      assert AnsweredIds(r)[i] == r[i].question && AnsweredIds(r)[j] == r[j].question;
      assert QuestionIds(fs)[i] == fs[i].id && QuestionIds(fs)[j] == fs[j].id;
    }
  }

  lemma {:induction false} FieldsDistinct(questions: seq<Question>, choices: seq<Choice>)
    requires forall i, j :: 0 <= i < j < |questions| ==> questions[i].id != questions[j].id
    ensures forall i, j :: 0 <= i < j < |Fields(questions, choices)| ==>
      Fields(questions, choices)[i].id != Fields(questions, choices)[j].id
  {
    if |questions| > 0 {
      var rest := questions[1..];
      assert forall i, j :: 0 <= i < j < |rest| ==> rest[i].id != rest[j].id by {
        forall i, j | 0 <= i < j < |rest| ensures rest[i].id != rest[j].id {
          assert rest[i] == questions[i + 1] && rest[j] == questions[j + 1];
        }
      }
      FieldsDistinct(rest, choices);
      var fr := Fields(rest, choices);
      forall q | q in fr ensures q.id != questions[0].id {
        var k :| 0 <= k < |rest| && rest[k] == q;
        assert questions[k + 1] == q;
      }
    }
  }

  /** A form over questions none of which has a choice has no fields and
      accepts any submission, cleaning to nothing. */
  lemma {:induction false} NoChoicesAlwaysValid(questions: seq<Question>, choices: seq<Choice>, post: map<QuestionId, ChoiceId>)
    requires forall q :: q in questions ==> !HasChoices(choices, q.id)
    ensures Clean(questions, choices, post) == Some([])
  {
    if |questions| > 0 {
      assert questions[0] in questions;
      assert forall q :: q in questions[1..] ==> q in questions;
      NoChoicesAlwaysValid(questions[1..], choices, post);
    }
  }
}
