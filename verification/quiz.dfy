/** The skin-type quiz page's state: the answer object keyed by question
    id, the question cursor and the submit check
    (front-end/my-app/src/pages/QuizPage.jsx). */
module Quiz {
  import opened Wrappers
  import opened Objects

  type Id = string

  /** An answer option; the page submits its scores. */
  datatype Choice = Choice(text: string, scores: map<string, int>)

  /** The answer object: question ids in insertion order, each mapped to
      the selected option or to `null`. */
  type Answers = Object<Option<Choice>>

  // ---------------------------------------------------------------------
  // Loading, selecting, moving
  // ---------------------------------------------------------------------

  /** The distinct ids of a question list. */
  function QuestionIds(questions: seq<Id>): set<Id>
  {
    set i | 0 <= i < |questions| :: questions[i]
  }

  lemma QuestionIdsSnoc(questions: seq<Id>)
    requires |questions| > 0
    ensures QuestionIds(questions) ==
      QuestionIds(questions[..|questions| - 1]) + {questions[|questions| - 1]}
  {
    var front := questions[..|questions| - 1];
    forall x | x in QuestionIds(questions)
      ensures x in QuestionIds(front) + {questions[|questions| - 1]}
    {
      var i :| 0 <= i < |questions| && questions[i] == x;
      if i < |front| { assert front[i] == x; }
    }
    forall x | x in QuestionIds(front) ensures x in QuestionIds(questions) {
      var i :| 0 <= i < |front| && front[i] == x;
      assert questions[i] == x;
    }
  }

  /** The answer object after the quiz loads: every question id to `null`
      (a repeated id keeps its first position). */
  function InitAnswers(questions: seq<Id>): (r: Answers)
    ensures UniqueKeys(r)
    ensures Keys(r) == QuestionIds(questions)
    ensures forall i :: 0 <= i < |r| ==> r[i].1.None?
  {
    if questions == [] then []
    else
      var front := questions[..|questions| - 1];
      var prev := InitAnswers(front);
      var r := Put(prev, questions[|questions| - 1], None);
      QuestionIdsSnoc(questions);
      PutKeys(prev, questions[|questions| - 1], None);
      PutKeepsUnique(prev, questions[|questions| - 1], None);
      assert forall i :: 0 <= i < |r| ==> r[i].1.None? by {
        PutKeepsOpen(prev, questions[|questions| - 1]);
      }
      r
  }

  /** Writing `null` into an object whose values are all `null`. */
  lemma {:induction false} PutKeepsOpen(a: Answers, id: Id)
    requires forall i :: 0 <= i < |a| ==> a[i].1.None?
    ensures forall i :: 0 <= i < |Put(a, id, None)| ==> Put(a, id, None)[i].1.None?
    decreases |a|
  {
    if a != [] && a[0].0 != id {
      PutKeepsOpen(a[1..], id);
      assert Put(a, id, None) == [a[0]] + Put(a[1..], id, None);
    }
  }

  /** `handleSelectAnswer`. */
  function SelectAnswer(a: Answers, id: Id, option: Choice): (r: Answers)
    ensures Lookup(r, id) == Some(Some(option))
    ensures forall other :: other != id ==> Lookup(r, other) == Lookup(a, other)
    ensures UniqueKeys(a) ==> UniqueKeys(r)
  {
    var r := Put(a, id, Some(option));
    LookupPut(a, id, Some(option), id);
    assert UniqueKeys(a) ==> UniqueKeys(r) by {
      if UniqueKeys(a) { PutKeepsUnique(a, id, Some(option)); }
    }
    assert forall other :: other != id ==> Lookup(r, other) == Lookup(a, other) by {
      forall other | other != id ensures Lookup(r, other) == Lookup(a, other) {
        LookupPut(a, id, Some(option), other);
      }
    }
    r
  }

  /** `handleNextQuestion`. */
  function Next(index: int, count: nat): (r: int)
    ensures index < count - 1 ==> r == index + 1
    ensures index >= count - 1 ==> r == index
  {
    if index < count - 1 then index + 1 else index
  }

  /** `handlePrevQuestion`. */
  function Prev(index: int): (r: int)
    ensures index > 0 ==> r == index - 1
    ensures index <= 0 ==> r == index
  {
    if index > 0 then index - 1 else index
  }

  /** Starting at 0, any sequence of Next and Prev presses keeps the cursor
      on a question of a non-empty quiz. */
  lemma CursorStaysInRange(index: int, count: nat)
    requires count >= 1 && 0 <= index <= count - 1
    ensures 0 <= Next(index, count) <= count - 1
    ensures 0 <= Prev(index) <= count - 1
  {
  }

  /** The Next button is disabled while the current question's entry is
      missing or `null`. */
  predicate NextDisabled(a: Answers, currentId: Id)
  {
    match Lookup(a, currentId)
    case None => true
    case Some(v) => v.None?
  }

  /** Selecting an answer enables Next for that question. */
  lemma SelectEnablesNext(a: Answers, id: Id, option: Choice)
    ensures !NextDisabled(SelectAnswer(a, id, option), id)
  {
  }

  // ---------------------------------------------------------------------
  // Submitting
  // ---------------------------------------------------------------------

  /** `Object.values(answers).filter(answer => answer === null).length`. */
  function Unanswered(a: Answers): (n: nat)
    ensures n <= |a|
    ensures n == 0 <==> forall i :: 0 <= i < |a| ==> a[i].1.Some?
  {
    if a == [] then 0 else (if a[0].1.None? then 1 else 0) + Unanswered(a[1..])
  }

  /** Answering an open question leaves one fewer open; re-answering an
      answered one changes nothing. */
  lemma {:induction false} SelectCounts(a: Answers, id: Id, option: Choice)
    requires UniqueKeys(a) && id in Keys(a)
    ensures Unanswered(SelectAnswer(a, id, option)) ==
      Unanswered(a) - (if Lookup(a, id) == Some(None) then 1 else 0)
    decreases |a|
  {
    var r := SelectAnswer(a, id, option);
    assert r == Put(a, id, Some(option));
    assert a == [a[0]] + a[1..];
    UniqueCons(a[0], a[1..]);
    KeysCons(a[0], a[1..]);
    if a[0].0 == id {
      assert r[1..] == a[1..];
    } else {
      SelectCounts(a[1..], id, option);
      assert r[1..] == Put(a[1..], id, Some(option));
    }
  }

  /** One formatted answer: the question id and the chosen option's scores. */
  datatype Formatted = Formatted(questionId: Id, score: map<string, int>)

  datatype SubmitResult = Blocked(unanswered: nat) | Submitted(answers: seq<Formatted>)

  /** `handleSubmit`: blocked, with the count reported, while any answer is
      `null`; otherwise one formatted entry per key, in key order. */
  function Submit(a: Answers): (r: SubmitResult)
    ensures r.Blocked? <==> exists i :: 0 <= i < |a| && a[i].1.None?
    ensures r.Blocked? ==> r.unanswered == Unanswered(a) && r.unanswered > 0
    ensures r.Submitted? ==> |r.answers| == |a|
    ensures r.Submitted? ==> forall i :: 0 <= i < |a| ==> a[i].1.Some? && r.answers[i] == Formatted(a[i].0, a[i].1.value.scores)
  {
    var n := Unanswered(a);
    if n > 0 then Blocked(n)
    else Submitted(seq(|a|, i requires 0 <= i < |a| => Formatted(a[i].0, a[i].1.value.scores)))
  }

  /** A freshly loaded quiz with questions cannot be submitted; the count
      reported is the number of distinct questions. */
  lemma FreshQuizBlocked(questions: seq<Id>)
    requires |questions| > 0
    ensures Submit(InitAnswers(questions)) == Blocked(|InitAnswers(questions)|)
  {
    var a := InitAnswers(questions);
    assert questions[0] in QuestionIds(questions);
    AllOpen(a);
  }

  lemma {:induction false} AllOpen(a: Answers)
    requires forall i :: 0 <= i < |a| ==> a[i].1.None?
    ensures Unanswered(a) == |a|
    decreases |a|
  {
    if a != [] {
      AllOpen(a[1..]);
    }
  }
}
