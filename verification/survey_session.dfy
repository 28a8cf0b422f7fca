/** The per-session answer store of multi-page surveys (`survey_responses`),
    and the flush that turns stored answers into choice votes. */
module SurveySession {
  import opened Wrappers
  import opened Queries
  import opened SurveyModel
  import opened SurveyForms

  /** The session dict from question id to chosen choice, in insertion
      order. The key is `str(question.id)`, which is one-to-one on ids, so
      the model keys by the id itself. */
  type Accumulator = seq<Answer>

  /** A dict holds each key at most once: no entry's key reappears later. */
  predicate KeysUnique(acc: Accumulator) {
    |acc| == 0 || (Lookup(acc[1..], acc[0].question).None? && KeysUnique(acc[1..]))
  }

  /** `acc.get(question)`. */
  function Lookup(acc: Accumulator, question: QuestionId): (r: Option<ChoiceId>)
    ensures r.Some? <==> exists a :: a in acc && a.question == question
    ensures r.Some? ==> Answer(question, r.value) in acc
  {
    if |acc| == 0 then None
    else if acc[0].question == question then Some(acc[0].choice)
    else Lookup(acc[1..], question)
  }

  /** `acc[question] = choice`: an existing key keeps its place and takes
      the new value, a new key goes at the end. */
  function Store(acc: Accumulator, a: Answer): (r: Accumulator)
    ensures Lookup(r, a.question) == Some(a.choice)
    ensures forall q :: q != a.question ==> Lookup(r, q) == Lookup(acc, q)
    ensures Lookup(acc, a.question).None? ==> r == acc + [a]
    ensures Lookup(acc, a.question).Some? ==> |r| == |acc|
  {
    if |acc| == 0 then LookupCons(a, []); [a]
    else
      assert acc == [acc[0]] + acc[1..];
      LookupCons(acc[0], acc[1..]);
      if acc[0].question == a.question then LookupCons(a, acc[1..]); [a] + acc[1..]
      else
        var rest := Store(acc[1..], a);
        LookupCons(acc[0], rest);
        [acc[0]] + rest
  }

  /** Looking up in a dict whose first entry is `x`. */
  lemma {:induction false} LookupCons(x: Answer, rest: Accumulator)
    ensures forall q :: Lookup([x] + rest, q) == if x.question == q then Some(x.choice) else Lookup(rest, q)
  {
    assert ([x] + rest)[1..] == rest;
  }

  /** What `Store` leaves in the dict: the new answer or an old entry. */
  lemma {:induction false} StoreReplaces(acc: Accumulator, a: Answer, b: Answer)
    requires b in Store(acc, a)
    ensures b == a || b in acc
  {
    if |acc| > 0 && acc[0].question != a.question {
      var rest := Store(acc[1..], a);
      if b != acc[0] {
        assert b in rest;
        StoreReplaces(acc[1..], a, b);
      }
    }
  }

  /** Storing keeps every key at most once. */
  lemma {:induction false} StoreKeepsKeysUnique(acc: Accumulator, a: Answer)
    requires KeysUnique(acc)
    ensures KeysUnique(Store(acc, a))
  {
    if |acc| > 0 && acc[0].question != a.question {
      StoreKeepsKeysUnique(acc[1..], a);
      assert Store(acc, a)[1..] == Store(acc[1..], a);
    } else if |acc| > 0 {
      assert Store(acc, a)[1..] == acc[1..];
    }
  }

  /** Answering a question again overwrites the earlier answer. */
  lemma {:induction false} StoreOverwrites(acc: Accumulator, q: QuestionId, c1: ChoiceId, c2: ChoiceId)
    ensures Store(Store(acc, Answer(q, c1)), Answer(q, c2)) == Store(acc, Answer(q, c2))
  {
    if |acc| > 0 && acc[0].question != q {
      StoreOverwrites(acc[1..], q, c1, c2);
    }
  }

  /** Storing a page's cleaned answers one by one. */
  function StoreAll(acc: Accumulator, answers: seq<Answer>): (r: Accumulator)
    ensures |answers| == 0 ==> r == acc
    decreases |answers|
  {
    if |answers| == 0 then acc
    else StoreAll(Store(acc, answers[0]), answers[1..])
  }

  /** Questions the page does not answer keep their stored answers. */
  lemma {:induction false} StoreAllKeepsOthers(acc: Accumulator, answers: seq<Answer>, q: QuestionId)
    requires forall a :: a in answers ==> a.question != q
    ensures Lookup(StoreAll(acc, answers), q) == Lookup(acc, q)
    decreases |answers|
  {
    if |answers| > 0 {
      assert answers[0] in answers;
      assert forall a :: a in answers[1..] ==> a in answers;
      StoreAllKeepsOthers(Store(acc, answers[0]), answers[1..], q);
    }
  }

  lemma {:induction false} StoreAllKeepsKeysUnique(acc: Accumulator, answers: seq<Answer>)
    requires KeysUnique(acc)
    ensures KeysUnique(StoreAll(acc, answers))
    decreases |answers|
  {
    if |answers| > 0 {
      StoreKeepsKeysUnique(acc, answers[0]);
      StoreAllKeepsKeysUnique(Store(acc, answers[0]), answers[1..]);
    }
  }

  /** After storing a page whose questions are distinct, each of them maps
      to the choice given on that page. */
  lemma {:induction false} StoreAllRecords(acc: Accumulator, answers: seq<Answer>, a: Answer)
    requires forall i, j :: 0 <= i < j < |answers| ==> answers[i].question != answers[j].question
    requires a in answers
    ensures Lookup(StoreAll(acc, answers), a.question) == Some(a.choice)
    decreases |answers|
  {
    var rest := answers[1..];
    if answers[0] == a {
      assert forall b :: b in rest ==> b.question != a.question by {
        forall b | b in rest ensures b.question != a.question {
          var k :| 0 <= k < |rest| && rest[k] == b;
          assert answers[k + 1] == b;
        }
      }
      StoreAllKeepsOthers(Store(acc, a), rest, a.question);
    } else {
      assert a in rest;
      assert forall i, j :: 0 <= i < j < |rest| ==> rest[i].question != rest[j].question by {
        forall i, j | 0 <= i < j < |rest| ensures rest[i].question != rest[j].question {
          assert rest[i] == answers[i + 1] && rest[j] == answers[j + 1];
        }
      }
      StoreAllRecords(Store(acc, answers[0]), rest, a);
    }
  }

  predicate ChoiceExists(choices: seq<Choice>, id: ChoiceId) {
    exists c :: c in choices && c.id == id
  }

  /** How many stored answers name the choice `id`. */
  function Hits(acc: Accumulator, id: ChoiceId): nat {
    if |acc| == 0 then 0
    else (if acc[0].choice == id then 1 else 0) + Hits(acc[1..], id)
  }

  /** Raising counters keeps the set of choice ids. */
  lemma IncrementKeepsIds(choices: seq<Choice>, inc: ChoiceId, id: ChoiceId)
    ensures ChoiceExists(IncrementChoice(choices, inc), id) <==> ChoiceExists(choices, id)
  {
    var r := IncrementChoice(choices, inc);
    if ChoiceExists(choices, id) {
      var c :| c in choices && c.id == id;
      var i :| 0 <= i < |choices| && choices[i] == c;
      assert r[i] in r;
    }
    if ChoiceExists(r, id) {
      var c :| c in r && c.id == id;
      var i :| 0 <= i < |r| && r[i] == c;
      assert choices[i] in choices;
    }
  }

  datatype FlushResult = FlushResult(choices: seq<Choice>, complete: bool)

  /** The flush of the final page: for each stored answer, in order, fetch
      the choice and add one vote. Every save commits on its own, so when a
      choice is missing the fetch fails after the earlier answers were
      counted: `complete` is false and those increments remain. */
  function Flush(choices: seq<Choice>, acc: Accumulator): (r: FlushResult)
    ensures |r.choices| == |choices|
    ensures forall i :: 0 <= i < |choices| ==> r.choices[i] == choices[i].(votes := r.choices[i].votes)
    ensures r.complete <==> forall a :: a in acc ==> ChoiceExists(choices, a.choice)
    ensures r.complete ==> forall i :: 0 <= i < |choices| ==> r.choices[i].votes == choices[i].votes + Hits(acc, choices[i].id)
    decreases |acc|
  {
    if |acc| == 0 then FlushResult(choices, true)
    else if !ChoiceExists(choices, acc[0].choice) then FlushResult(choices, false)
    else
      var inc := IncrementChoice(choices, acc[0].choice);
      forall a | a in acc[1..] ensures ChoiceExists(inc, a.choice) <==> ChoiceExists(choices, a.choice) {
        IncrementKeepsIds(choices, acc[0].choice, a.choice);
      }
      assert acc == [acc[0]] + acc[1..];
      Flush(inc, acc[1..])
  }

  /** An interrupted flush has counted exactly the answers before the first
      one whose choice is missing. */
  lemma {:induction false} FlushStopsAtMissing(choices: seq<Choice>, acc: Accumulator, k: nat)
    requires k < |acc| && !ChoiceExists(choices, acc[k].choice)
    requires forall j :: 0 <= j < k ==> ChoiceExists(choices, acc[j].choice)
    ensures !Flush(choices, acc).complete
    ensures Flush(choices, acc).choices == Flush(choices, acc[..k]).choices
    decreases k
  {
    if k > 0 {
      var inc := IncrementChoice(choices, acc[0].choice);
      assert acc[0] == acc[..k][0];
      assert ChoiceExists(choices, acc[0].choice);
      IncrementKeepsIds(choices, acc[0].choice, acc[k].choice);
      forall j | 0 <= j < k - 1 ensures ChoiceExists(inc, acc[1..][j].choice) {
        IncrementKeepsIds(choices, acc[0].choice, acc[j + 1].choice);
      }
      FlushStopsAtMissing(inc, acc[1..], k - 1);
      assert acc[..k][1..] == acc[1..][..k - 1];
    } else {
      assert acc[..0] == [];
    }
  }

  /** Answers naming distinct choices count each of them once. */
  lemma {:induction false} HitsOfDistinct(acc: Accumulator, id: ChoiceId)
    requires forall i, j :: 0 <= i < j < |acc| ==> acc[i].choice != acc[j].choice
    ensures Hits(acc, id) == if exists a :: a in acc && a.choice == id then 1 else 0
  {
    if |acc| > 0 {
      var rest := acc[1..];
      assert forall i, j :: 0 <= i < j < |rest| ==> rest[i].choice != rest[j].choice by {
        forall i, j | 0 <= i < j < |rest| ensures rest[i].choice != rest[j].choice {
          assert rest[i] == acc[i + 1] && rest[j] == acc[j + 1];
        }
      }
      HitsOfDistinct(rest, id);
      if acc[0].choice == id {
        forall a | a in rest ensures a.choice != id {
          var k :| 0 <= k < |rest| && rest[k] == a;
          assert acc[k + 1] == a;
        }
      } else {
        assert forall a :: a in acc && a.choice == id ==> a in rest;
      }
    }
  }

  /** The cleaned answers of one form name distinct choices: each answers a
      different question, and a choice belongs to one question only. */
  lemma CleanChoicesDistinct(questions: seq<Question>, choices: seq<Choice>, post: map<QuestionId, ChoiceId>)
    requires forall i, j :: 0 <= i < j < |questions| ==> questions[i].id != questions[j].id
    requires UniqueKeys(choices, ChoiceKey)
    requires Clean(questions, choices, post).Some?
    ensures forall i, j :: 0 <= i < j < |Clean(questions, choices, post).value| ==>
      Clean(questions, choices, post).value[i].choice != Clean(questions, choices, post).value[j].choice
  {
    var r := Clean(questions, choices, post).value;
    CleanAnswersEachQuestionOnce(questions, choices, post);
    forall i, j | 0 <= i < j < |r| ensures r[i].choice != r[j].choice {
      assert r[i] in r && r[j] in r;
    }
  }
}
