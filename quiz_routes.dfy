// The record transforms of backend/app/routes/quiz_routes.py, which change a
// quiz document in place: `serialize_quiz` (lines 7-14), the id assignment and
// activation of `create_quiz` (lines 23-26), and the removal of correct
// answers in `get_quiz` (lines 57-61).

module QuizRoutes {
  import opened Types
  import opened Grading

  /** A quiz document as the store holds it; `id` is absent before insertion. */
  class QuizDocument {
    var id: Option<Ident>
    var title: string
    var description: Option<string>
    var questions: seq<Question>
    var isActive: Option<bool>

    constructor (id: Option<Ident>, title: string, description: Option<string>,
                 questions: seq<Question>, isActive: Option<bool>)
      ensures this.id == id && this.title == title && this.description == description
      ensures this.questions == questions && this.isActive == isActive
    {
      this.id := id;
      this.title := title;
      this.description := description;
      this.questions := questions;
      this.isActive := isActive;
    }

    /** `create_quiz`, lines 23-26: each question gets the next fresh ObjectId
        (one per question, `newIds[i]` being the hex text of the i-th), then the
        quiz is marked active. */
    method AssignIds(newIds: seq<string>)
      requires |newIds| == |questions|
      modifies this
      ensures |questions| == old(|questions|)
      ensures forall i :: 0 <= i < |questions| ==>
        questions[i] == old(questions[i]).(id := Some(ObjectId(newIds[i])))
      ensures isActive == Some(true)
      ensures id == old(id) && title == old(title) && description == old(description)
    {
      var i := 0;
      while i < |questions|
        invariant 0 <= i <= |questions| == old(|questions|)
        invariant forall j :: 0 <= j < i ==> questions[j] == old(questions[j]).(id := Some(ObjectId(newIds[j])))
        invariant forall j :: i <= j < |questions| ==> questions[j] == old(questions[j])
        invariant id == old(id) && title == old(title) && description == old(description)
        invariant isActive == old(isActive)
      {
        questions := questions[i := questions[i].(id := Some(ObjectId(newIds[i])))];
        i := i + 1;
      }
      isActive := Some(true);
    }

    /** `get_quiz`, lines 58-59: `question.pop('correctAnswer', None)` for each question. */
    method RedactAnswers()
      modifies this
      ensures |questions| == old(|questions|)
      ensures forall i :: 0 <= i < |questions| ==> questions[i].correctAnswer.None?
      ensures forall i :: 0 <= i < |questions| ==> questions[i] == old(questions[i]).(correctAnswer := None)
      ensures id == old(id) && title == old(title) && description == old(description)
      ensures isActive == old(isActive)
    {
      var i := 0;
      while i < |questions|
        invariant 0 <= i <= |questions| == old(|questions|)
        invariant forall j :: 0 <= j < i ==> questions[j] == old(questions[j]).(correctAnswer := None)
        invariant forall j :: i <= j < |questions| ==> questions[j] == old(questions[j])
        invariant id == old(id) && title == old(title) && description == old(description)
        invariant isActive == old(isActive)
      {
        questions := questions[i := questions[i].(correctAnswer := None)];
        i := i + 1;
      }
    }
  }

  /** `str(_id)` stored back as a string id. */
  function SerializeIdent(x: Ident): (r: Ident)
    ensures r.Str? && IdText(r) == IdText(x)
  {
    Str(IdText(x))
  }

  /** What `serialize_quiz` does to one question: a present `_id` becomes its
      string form, an absent one stays absent, and no other field changes. */
  function SerializeQuestion(q: Question): (r: Question)
    ensures r.id.Some? <==> q.id.Some?
    ensures r.id.Some? ==> r.id.value.Str?
    ensures Key(r) == Key(q)
    ensures r.(id := q.id) == q
  {
    if q.id.Some? then q.(id := Some(SerializeIdent(q.id.value))) else q
  }

  /** `serialize_quiz`: an absent quiz (`None`) is returned as it is; otherwise
      the quiz id and each question id present become strings, in place. */
  method SerializeQuiz(quiz: QuizDocument?) returns (r: QuizDocument?)
    requires quiz != null ==> quiz.id.Some?
    modifies quiz
    ensures r == quiz
    ensures quiz != null ==>
      && quiz.id == Some(SerializeIdent(old(quiz.id).value))
      && |quiz.questions| == old(|quiz.questions|)
      && (forall i :: 0 <= i < |quiz.questions| ==> quiz.questions[i] == SerializeQuestion(old(quiz.questions[i])))
      && quiz.questions == SerializeAll(old(quiz.questions))
      && quiz.title == old(quiz.title) && quiz.description == old(quiz.description)
      && quiz.isActive == old(quiz.isActive)
  {
    if quiz != null {
      quiz.id := Some(SerializeIdent(quiz.id.value));
      var i := 0;
      while i < |quiz.questions|
        invariant 0 <= i <= |quiz.questions| == old(|quiz.questions|)
        invariant forall j :: 0 <= j < i ==> quiz.questions[j] == SerializeQuestion(old(quiz.questions[j]))
        invariant forall j :: i <= j < |quiz.questions| ==> quiz.questions[j] == old(quiz.questions[j])
        invariant quiz.id == Some(SerializeIdent(old(quiz.id).value))
        invariant quiz.title == old(quiz.title) && quiz.description == old(quiz.description)
        invariant quiz.isActive == old(quiz.isActive)
      {
        var question := quiz.questions[i];
        if question.id.Some? {
          quiz.questions := quiz.questions[i := question.(id := Some(SerializeIdent(question.id.value)))];
        }
        i := i + 1;
      }
    }
    r := quiz;
  }

  /** `get_quiz`, lines 57-61: what a quiz taker receives has string ids and
      no correct answers; everything else is the stored quiz. */
  method GetQuiz(quiz: QuizDocument) returns (r: QuizDocument)
    requires quiz.id.Some?
    modifies quiz
    ensures r == quiz
    ensures quiz.id == Some(SerializeIdent(old(quiz.id).value))
    ensures |quiz.questions| == old(|quiz.questions|)
    ensures forall i :: 0 <= i < |quiz.questions| ==> quiz.questions[i].correctAnswer.None?
    ensures forall i :: 0 <= i < |quiz.questions| ==>
      quiz.questions[i] == SerializeQuestion(old(quiz.questions[i])).(correctAnswer := None)
    ensures quiz.questions == TakerView(old(quiz.questions))
    ensures quiz.title == old(quiz.title) && quiz.description == old(quiz.description)
    ensures quiz.isActive == old(quiz.isActive)
  {
    quiz.RedactAnswers();
    r := SerializeQuiz(quiz);
  }

  // ----- Serialization and grading -----

  /** The question list after `serialize_quiz`. */
  function SerializeAll(qs: seq<Question>): (r: seq<Question>)
    ensures |r| == |qs|
    ensures forall i :: 0 <= i < |qs| ==> r[i] == SerializeQuestion(qs[i])
  {
    seq(|qs|, i requires 0 <= i < |qs| => SerializeQuestion(qs[i]))
  }

  /** The question list a quiz taker receives from `get_quiz`: serialised
      ids, no correct answers, every other field as stored. */
  function TakerView(qs: seq<Question>): (r: seq<Question>)
    ensures |r| == |qs|
    ensures forall i :: 0 <= i < |qs| ==> r[i] == SerializeQuestion(qs[i]).(correctAnswer := None)
    ensures forall i :: 0 <= i < |qs| ==> Key(r[i]) == Key(qs[i]) && r[i].correctAnswer.None?
  {
    seq(|qs|, i requires 0 <= i < |qs| => SerializeQuestion(qs[i]).(correctAnswer := None))
  }

  /** Two question lists that agree position by position on their keys find
      the same first match for every id. */
  lemma {:induction false} FirstMatchFromSameKeys(qs: seq<Question>, ps: seq<Question>, id: string, from: nat)
    requires |qs| == |ps| && from <= |qs|
    requires forall i :: 0 <= i < |qs| ==> Key(qs[i]) == Key(ps[i])
    ensures FirstMatchFrom(qs, id, from) == FirstMatchFrom(ps, id, from)
    decreases |qs| - from
  {
    if from < |qs| && Key(qs[from]) != id {
      FirstMatchFromSameKeys(qs, ps, id, from + 1);
    }
  }

  /** `submit_quiz` reads the quiz after the store has serialized its ids
      (backend/app/models/quiz.py:29-36); that changes no grading result. */
  lemma {:induction false} SerializePreservesGrading(qs: seq<Question>, answers: seq<Answer>)
    ensures Evaluate(SerializeAll(qs), answers) == Evaluate(qs, answers)
    decreases |answers|
  {
    if answers != [] {
      var ps := SerializeAll(qs);
      var n := |answers| - 1;
      var a := answers[n];
      assert answers == answers[..n] + [a];
      SerializePreservesGrading(qs, answers[..n]);
      EvaluateSnoc(ps, answers[..n], a);
      EvaluateSnoc(qs, answers[..n], a);
      FirstMatchFromSameKeys(ps, qs, a.questionId, 0);
      var fm := FirstMatch(qs, a.questionId);
      if fm.Some? {
        assert ps[fm.value] == SerializeQuestion(qs[fm.value]);
      }
      assert Assess(ps, a) == Assess(qs, a);
    }
  }

  /** Distinct fresh ObjectIds from `create_quiz` give the questions distinct
      keys, and serialization keeps them distinct. */
  lemma FreshIdsGiveDistinctKeys(qs: seq<Question>, newIds: seq<string>)
    requires |qs| == |newIds|
    requires forall i, j :: 0 <= i < j < |newIds| ==> newIds[i] != newIds[j]
    requires forall i :: 0 <= i < |qs| ==> qs[i].id == Some(ObjectId(newIds[i]))
    ensures DistinctKeys(qs) && DistinctKeys(SerializeAll(qs))
  {
  }
}
