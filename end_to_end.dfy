// What the frontend and the backend guarantee together: when a quiz whose
// question ids are distinct is answered through the quiz-taking form
// (frontend/src/components/QuizTaker.tsx:21-24) and graded by the backend
// (backend/app/routes/submission_routes.py:24-45), every question is graded
// once, in quiz order, and the total is the sum of all question points.

module EndToEnd {
  import opened Types
  import opened PyText
  import opened Grading
  import opened QuizTaker
  import opened QuizRoutes

  /** The outcome grading records for `q` when the respondent's sheet is `m`. */
  function Expected(q: Question, m: map<string, string>): Outcome {
    var u := Chosen(m, Key(q));
    Outcome(Key(q), u, Norm(u) == Norm(CorrectText(q)))
  }

  /** Sum of points over the questions answered correctly on sheet `m`. */
  function CorrectPoints(qs: seq<Question>, m: map<string, string>): int
    decreases |qs|
  {
    if qs == [] then 0
    else
      var q := qs[|qs| - 1];
      CorrectPoints(qs[..|qs| - 1], m) + (if Expected(q, m).isCorrect then PointsOf(q) else 0)
  }

  lemma CorrectPointsSnoc(qs: seq<Question>, q: Question, m: map<string, string>)
    ensures CorrectPoints(qs + [q], m) == CorrectPoints(qs, m) + (if Expected(q, m).isCorrect then PointsOf(q) else 0)
  {
    assert (qs + [q])[..|qs|] == qs;
  }

  lemma TakeSnoc<T>(s: seq<T>, k: nat)
    requires 0 < k <= |s|
    ensures s[..k] == s[..k - 1] + [s[k - 1]]
  {
  }

  /** With distinct keys, the answer the form sends for question `k` is graded
      by question `k` itself. */
  lemma AssessInOrder(qs: seq<Question>, m: map<string, string>, k: nat)
    requires DistinctKeys(qs) && k < |qs|
    ensures var q, e := qs[k], Expected(qs[k], m);
      Assess(qs, Answer(Key(q), Chosen(m, Key(q)))) == Tally(if e.isCorrect then PointsOf(q) else 0, PointsOf(q), [e])
  {
    FirstOfDuplicatesUsed(qs, k, Answer(Key(qs[k]), Chosen(m, Key(qs[k]))));
  }

  /** Answers that name the first `|answers|` questions in order, each with the
      answer on sheet `m`; `InOrder` says so. */
  predicate InOrder(qs: seq<Question>, m: map<string, string>, answers: seq<Answer>) {
    |answers| <= |qs| &&
    forall i :: 0 <= i < |answers| ==> answers[i] == Answer(Key(qs[i]), Chosen(m, Key(qs[i])))
  }

  /** Such answers total the points of exactly those questions and score the
      points of the correct ones among them. */
  lemma {:induction false} InOrderTally(qs: seq<Question>, m: map<string, string>, answers: seq<Answer>)
    requires DistinctKeys(qs) && InOrder(qs, m, answers)
    ensures var t, k := Evaluate(qs, answers), |answers|;
      t.total == SumPoints(qs[..k]) && t.score == CorrectPoints(qs[..k], m)
    decreases |answers|
  {
    var k := |answers|;
    if k == 0 {
      assert qs[..0] == [];
    } else {
      var init, q := answers[..k - 1], qs[k - 1];
      InOrderTally(qs, m, init);
      TakeSnoc(answers, k);
      assert answers[..k] == answers;
      EvaluateSnoc(qs, init, answers[k - 1]);
      AssessInOrder(qs, m, k - 1);
      TakeSnoc(qs, k);
      CorrectPointsSnoc(qs[..k - 1], q, m);
      SumPointsAppend(qs[..k - 1], [q]);
      assert SumPoints([q]) == PointsOf(q) by {
        assert [q][..0] == [];
      }
    }
  }

  /** Such answers produce one outcome per question, outcome i for question i. */
  lemma {:induction false} InOrderOutcomes(qs: seq<Question>, m: map<string, string>, answers: seq<Answer>)
    requires DistinctKeys(qs) && InOrder(qs, m, answers)
    ensures var t := Evaluate(qs, answers);
      |t.outcomes| == |answers| &&
      forall i :: 0 <= i < |answers| ==> t.outcomes[i] == Expected(qs[i], m)
    decreases |answers|
  {
    var k := |answers|;
    if k > 0 {
      var init := answers[..k - 1];
      InOrderOutcomes(qs, m, init);
      TakeSnoc(answers, k);
      assert answers[..k] == answers;
      EvaluateSnoc(qs, init, answers[k - 1]);
      AssessInOrder(qs, m, k - 1);
      var before, after := Evaluate(qs, init).outcomes, Evaluate(qs, answers).outcomes;
      assert after == before + [Expected(qs[k - 1], m)];
      forall i | 0 <= i < k
        ensures after[i] == Expected(qs[i], m)
      {
        if i < k - 1 {
          assert after[i] == before[i];
        }
      }
    }
  }

  /** A submission built by the quiz-taking form, against a quiz with distinct
      question ids, grades every question exactly once and in quiz order:
      `total_points` is the sum of all question points, `score` the points of the
      correctly answered ones, and outcome i belongs to question i. */
  lemma FormattedSubmissionCoversQuiz(qs: seq<Question>, m: map<string, string>)
    requires HasIds(qs) && DistinctKeys(qs)
    ensures var t := Evaluate(qs, FormatAnswers(qs, m));
      && t.total == SumPoints(qs)
      && t.score == CorrectPoints(qs, m)
      && |t.outcomes| == |qs|
      && forall i :: 0 <= i < |qs| ==> t.outcomes[i] == Expected(qs[i], m)
  {
    InOrderTally(qs, m, FormatAnswers(qs, m));
    InOrderOutcomes(qs, m, FormatAnswers(qs, m));
    assert qs[..|qs|] == qs;
  }

  /** The form builds its answers from the quiz `get_quiz` sends, which lacks
      the correct answers and has serialised ids: the list is the same as for
      the stored quiz. */
  lemma TakerViewFormatsAlike(qs: seq<Question>, m: map<string, string>)
    requires HasIds(qs)
    ensures HasIds(TakerView(qs))
    ensures FormatAnswers(TakerView(qs), m) == FormatAnswers(qs, m)
  {
  }

  /** The whole round trip: the form answers the quiz `get_quiz` sent, and
      `submit_quiz` reads the serialised stored quiz (backend/app/models/quiz.py:29-36).
      With distinct ids every question is graded once, in quiz order. */
  lemma TakerSubmissionCoversQuiz(qs: seq<Question>, m: map<string, string>)
    requires HasIds(qs) && DistinctKeys(qs)
    ensures var t := Evaluate(SerializeAll(qs), FormatAnswers(TakerView(qs), m));
      && t.total == SumPoints(qs)
      && t.score == CorrectPoints(qs, m)
      && |t.outcomes| == |qs|
      && forall i :: 0 <= i < |qs| ==> t.outcomes[i] == Expected(qs[i], m)
  {
    TakerViewFormatsAlike(qs, m);
    SerializePreservesGrading(qs, FormatAnswers(qs, m));
    FormattedSubmissionCoversQuiz(qs, m);
  }

  /** The quiz of the worked submission: two questions worth 2 and 1 points. */
  function WorkedQuiz(): seq<Question> {
    [Question(Some(Str("q1")), MCQ, "", Some(["A", "B", "C"]), Some("B"), Some(2)),
     Question(Some(Str("q2")), TrueFalse, "", None, Some("True"), Some(1))]
  }

  /** The first answer is right, with different case and padding. */
  lemma WorkedFirstAnswer()
    ensures Assess(WorkedQuiz(), Answer("q1", " b")) == Tally(2, 2, [Outcome("q1", " b", true)])
  {
    assert FirstMatch(WorkedQuiz(), "q1") == Some(0);
    WorkedNorms();
  }

  /** The second answer is wrong. */
  lemma WorkedSecondAnswer()
    ensures Assess(WorkedQuiz(), Answer("q2", "False")) == Tally(0, 1, [Outcome("q2", "False", false)])
  {
    assert FirstMatch(WorkedQuiz(), "q2") == Some(1);
    WorkedNorms();
  }

  /** The tally of the worked submission. */
  lemma WorkedTally()
    ensures Evaluate(WorkedQuiz(), [Answer("q1", " b"), Answer("q2", "False")])
      == Tally(2, 3, [Outcome("q1", " b", true), Outcome("q2", "False", false)])
  {
    EvaluatePair(WorkedQuiz(), Answer("q1", " b"), Answer("q2", "False"));
    WorkedFirstAnswer();
    WorkedSecondAnswer();
  }

  /** A worked submission: the first question answered right with different
      case and padding, the second wrong; 2 of 3 points, 66.67 percent. */
  lemma WorkedSubmission()
    ensures var t := Evaluate(WorkedQuiz(), [Answer("q1", " b"), Answer("q2", "False")]);
      && t == Tally(2, 3, [Outcome("q1", " b", true), Outcome("q2", "False", false)])
      && PercentageOf(t.score, t.total) == TwoDecimals(6667)
  {
    WorkedTally();
    DivUnique(40003, 6, 6667, 1);
  }

  /** The comparisons the worked submission makes. */
  lemma WorkedNorms()
    ensures Norm(" b") == Norm("B")
    ensures Norm("False") != Norm("True")
  {
    PaddingIgnored(" ", "b", "");
    assert " " + "b" + "" == " b";
    assert Lower("B") == "b";
    CaseIgnored("B");
    assert Lower("False")[0] == 'f' && Lower("True")[0] == 't';
    assert !IsSpace('f') && !IsSpace('t');
  }

  /** With no answers submitted nothing is graded: the total is 0 and the
      percentage is the text "0". */
  lemma EmptySubmission(qs: seq<Question>)
    ensures Evaluate(qs, []) == Tally(0, 0, [])
    ensures PercentageOf(0, 0) == ZeroText
  {
  }
}
