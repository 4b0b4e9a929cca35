// Submission grading in backend/app/routes/submission_routes.py: the loop
// that walks the submitted answers (lines 24-45) and the percentage (line 63).
// The quiz is the value the store returns at line 20, reduced to its questions.

module Grading {
  import opened Types
  import opened PyText

  /** `str(q.get('_id', ''))`: the text a submitted `questionId` is compared with. */
  function Key(q: Question): (k: string)
    ensures q.id.Some? ==> k == IdText(q.id.value)
    ensures q.id.None? ==> k == ""
  {
    if q.id.Some? then IdText(q.id.value) else ""
  }

  /** `q.get('points', 1)` */
  function PointsOf(q: Question): (p: int)
    ensures q.points.Some? ==> p == q.points.value
    ensures q.points.None? ==> p == 1
  {
    q.points.GetOr(1)
  }

  /** `q.get('correctAnswer', '')` */
  function CorrectText(q: Question): (c: string)
    ensures q.correctAnswer.Some? ==> c == q.correctAnswer.value
    ensures q.correctAnswer.None? ==> c == ""
  {
    q.correctAnswer.GetOr("")
  }

  /** `next((q for q in questions if key(q) == id), None)`, as the index of that question. */
  function FirstMatch(qs: seq<Question>, id: string): (r: Option<nat>)
    ensures r.Some? ==> r.value < |qs| && Key(qs[r.value]) == id
    ensures forall j :: 0 <= j < |qs| && (r.None? || j < r.value) ==> Key(qs[j]) != id
  {
    FirstMatchFrom(qs, id, 0)
  }

  /** The search of `FirstMatch`, started at position `from`. */
  function FirstMatchFrom(qs: seq<Question>, id: string, from: nat): (r: Option<nat>)
    requires from <= |qs|
    ensures r.Some? ==> from <= r.value < |qs| && Key(qs[r.value]) == id
    ensures forall j :: from <= j < |qs| && (r.None? || j < r.value) ==> Key(qs[j]) != id
    decreases |qs| - from
  {
    if from == |qs| then None
    else if Key(qs[from]) == id then Some(from)
    else FirstMatchFrom(qs, id, from + 1)
  }

  /** No two questions share a key. */
  predicate DistinctKeys(qs: seq<Question>) {
    forall i, j :: 0 <= i < j < |qs| ==> Key(qs[i]) != Key(qs[j])
  }

  predicate Matches(qs: seq<Question>, a: Answer) {
    FirstMatch(qs, a.questionId).Some?
  }

  /** The running state of the loop: `score`, `total_points`, `evaluated_answers`. */
  datatype Tally = Tally(score: int, total: int, outcomes: seq<Outcome>)

  function Plus(t: Tally, u: Tally): Tally {
    Tally(t.score + u.score, t.total + u.total, t.outcomes + u.outcomes)
  }

  /** What one submitted answer adds to the tally (one pass of the loop body). */
  function Assess(qs: seq<Question>, a: Answer): (t: Tally)
    ensures |t.outcomes| <= 1
    ensures t.outcomes == [] <==> !Matches(qs, a)
    ensures t.score == 0 || t.score == t.total
    ensures t.outcomes != [] ==> t.outcomes[0].questionId == a.questionId && t.outcomes[0].userAnswer == a.userAnswer
  {
    match FirstMatch(qs, a.questionId)
    case None => Tally(0, 0, [])
    case Some(j) =>
      var q := qs[j];
      var ok := Norm(a.userAnswer) == Norm(CorrectText(q));
      Tally(if ok then PointsOf(q) else 0, PointsOf(q), [Outcome(a.questionId, a.userAnswer, ok)])
  }

  /** The tally after the loop has consumed `answers`, in submission order. */
  function Evaluate(qs: seq<Question>, answers: seq<Answer>): (t: Tally)
    ensures |t.outcomes| <= |answers|
    ensures answers == [] ==> t == Tally(0, 0, [])
    decreases |answers|
  {
    if answers == [] then Tally(0, 0, [])
    else Plus(Evaluate(qs, answers[..|answers| - 1]), Assess(qs, answers[|answers| - 1]))
  }

  /** The `percentage` field: the literal "0", or `score/total*100` printed with
      two decimals, held here as a whole number of hundredths. */
  datatype Percentage = ZeroText | TwoDecimals(hundredths: int)

  function PercentageOf(score: int, total: int): (p: Percentage)
    ensures p.ZeroText? <==> total <= 0
  {
    if total > 0 then TwoDecimals((20000 * score + total) / (2 * total)) else ZeroText
  }

  datatype SubmissionResult = SubmissionResult(
    submissionId: string,
    score: int,
    totalPoints: int,
    percentage: Percentage,
    answers: seq<Outcome>)

  predicate NonNegativePoints(qs: seq<Question>) {
    forall j :: 0 <= j < |qs| ==> PointsOf(qs[j]) >= 0
  }

  /** `submit_quiz` from the point where the quiz has been fetched; `submissionId`
      is the id the submission store hands back. */
  method SubmitQuiz(questions: seq<Question>, answers: seq<Answer>, submissionId: string)
    returns (r: SubmissionResult)
    ensures Tally(r.score, r.totalPoints, r.answers) == Evaluate(questions, answers)
    ensures NonNegativePoints(questions) ==> 0 <= r.score <= r.totalPoints
    ensures r.percentage == PercentageOf(r.score, r.totalPoints)
    ensures r.submissionId == submissionId
  {
    var score := 0;
    var totalPoints := 0;
    var evaluated: seq<Outcome> := [];
    for i := 0 to |answers|
      invariant Tally(score, totalPoints, evaluated) == Evaluate(questions, answers[..i])
      invariant NonNegativePoints(questions) ==> 0 <= score <= totalPoints
    {
      var answer := answers[i];
      var questionId := answer.questionId;
      var userAnswer := Norm(answer.userAnswer);
      var found := FirstMatch(questions, questionId);
      if found.Some? {
        var question := questions[found.value];
        totalPoints := totalPoints + PointsOf(question);
        var correctAnswer := Norm(CorrectText(question));
        var isCorrect := userAnswer == correctAnswer;
        if isCorrect {
          score := score + PointsOf(question);
        }
        evaluated := evaluated + [Outcome(questionId, answer.userAnswer, isCorrect)];
        AssessFound(questions, answer, found.value);
      } else {
        AssessMissed(questions, answer);
      }
      EvaluatePrefixStep(questions, answers, i);
    }
    assert answers[..|answers|] == answers;
    r := SubmissionResult(submissionId, score, totalPoints, PercentageOf(score, totalPoints), evaluated);
  }

  // ----- What the grading tally means -----

  /** The tally of the first `i + 1` answers extends that of the first `i`. */
  lemma EvaluatePrefixStep(qs: seq<Question>, answers: seq<Answer>, i: nat)
    requires i < |answers|
    ensures Evaluate(qs, answers[..i + 1]) == Plus(Evaluate(qs, answers[..i]), Assess(qs, answers[i]))
  {
    assert answers[..i + 1] == answers[..i] + [answers[i]];
    EvaluateSnoc(qs, answers[..i], answers[i]);
  }

  /** A matched answer's contribution, in terms of the question found. */
  lemma AssessFound(qs: seq<Question>, a: Answer, j: nat)
    requires FirstMatch(qs, a.questionId) == Some(j)
    ensures var q := qs[j]; var ok := Norm(a.userAnswer) == Norm(CorrectText(q));
      Assess(qs, a) == Tally(if ok then PointsOf(q) else 0, PointsOf(q), [Outcome(a.questionId, a.userAnswer, ok)])
  {
  }

  /** An unmatched answer contributes nothing. */
  lemma AssessMissed(qs: seq<Question>, a: Answer)
    requires FirstMatch(qs, a.questionId).None?
    ensures Assess(qs, a) == Tally(0, 0, [])
  {
  }

  lemma PlusZero(t: Tally)
    ensures Plus(Tally(0, 0, []), t) == t && Plus(t, Tally(0, 0, [])) == t
  {
    assert [] + t.outcomes == t.outcomes && t.outcomes + [] == t.outcomes;
  }

  lemma PlusAssoc(t: Tally, u: Tally, v: Tally)
    ensures Plus(Plus(t, u), v) == Plus(t, Plus(u, v))
  {
    assert (t.outcomes + u.outcomes) + v.outcomes == t.outcomes + (u.outcomes + v.outcomes);
  }

  /** One more answer at the end adds its own contribution. */
  lemma EvaluateSnoc(qs: seq<Question>, xs: seq<Answer>, a: Answer)
    ensures Evaluate(qs, xs + [a]) == Plus(Evaluate(qs, xs), Assess(qs, a))
  {
    assert (xs + [a])[..|xs|] == xs;
  }

  /** One answer: unmatched adds nothing; matched adds one outcome, its points to
      the total, and its points to the score exactly when the normal forms agree. */
  lemma AssessOne(qs: seq<Question>, a: Answer)
    ensures FirstMatch(qs, a.questionId).None? ==> Evaluate(qs, [a]) == Tally(0, 0, [])
    ensures FirstMatch(qs, a.questionId).Some? ==>
      var q := qs[FirstMatch(qs, a.questionId).value];
      var ok := Norm(a.userAnswer) == Norm(q.correctAnswer.GetOr(""));
      var p := q.points.GetOr(1);
      Evaluate(qs, [a]) == Tally(if ok then p else 0, p, [Outcome(a.questionId, a.userAnswer, ok)])
  {
    EvaluateSnoc(qs, [], a);
    assert [] + [a] == [a];
    PlusZero(Assess(qs, a));
  }

  /** Grading consumes answers one after another: the tally of a concatenation
      is the sum of the tallies, with the outcome lists concatenated in order. */
  lemma {:induction false} EvaluateAppend(qs: seq<Question>, xs: seq<Answer>, ys: seq<Answer>)
    ensures Evaluate(qs, xs + ys) == Plus(Evaluate(qs, xs), Evaluate(qs, ys))
    decreases |ys|
  {
    if ys == [] {
      assert xs + ys == xs;
      PlusZero(Evaluate(qs, xs));
    } else {
      var n := |ys| - 1;
      var init, last := ys[..n], ys[n];
      assert ys == init + [last];
      assert xs + ys == (xs + init) + [last];
      EvaluateSnoc(qs, xs + init, last);
      EvaluateSnoc(qs, init, last);
      EvaluateAppend(qs, xs, init);
      PlusAssoc(Evaluate(qs, xs), Evaluate(qs, init), Assess(qs, last));
    }
  }

  /** Two answers are graded one after the other. */
  lemma EvaluatePair(qs: seq<Question>, a1: Answer, a2: Answer)
    ensures Evaluate(qs, [a1, a2]) == Plus(Assess(qs, a1), Assess(qs, a2))
  {
    EvaluateSnoc(qs, [], a1);
    EvaluateSnoc(qs, [a1], a2);
    assert [] + [a1] == [a1] && [a1] + [a2] == [a1, a2];
    PlusZero(Assess(qs, a1));
  }

  /** An answer whose `questionId` matches no question changes nothing. */
  lemma UnmatchedIgnored(qs: seq<Question>, xs: seq<Answer>, a: Answer)
    requires !Matches(qs, a)
    ensures Evaluate(qs, xs + [a]) == Evaluate(qs, xs)
  {
    EvaluateSnoc(qs, xs, a);
    PlusZero(Evaluate(qs, xs));
  }

  /** The same answer submitted twice is graded and counted twice. */
  lemma {:induction false} DuplicateCountedTwice(qs: seq<Question>, a: Answer)
    requires Matches(qs, a)
    ensures var once := Evaluate(qs, [a]);
      Evaluate(qs, [a, a]) == Tally(2 * once.score, 2 * once.total, once.outcomes + once.outcomes)
      && |once.outcomes| == 1
  {
    EvaluateAppend(qs, [a], [a]);
    assert [a] + [a] == [a, a];
    AssessOne(qs, a);
  }

  /** When several questions share an id, the first of them grades the answer. */
  lemma FirstOfDuplicatesUsed(qs: seq<Question>, i: nat, a: Answer)
    requires i < |qs| && Key(qs[i]) == a.questionId
    requires forall j :: 0 <= j < i ==> Key(qs[j]) != a.questionId
    ensures FirstMatch(qs, a.questionId) == Some(i)
  {
  }

  /** The answers that found a question, in submission order. */
  function MatchedAnswers(qs: seq<Question>, answers: seq<Answer>): seq<Answer>
    decreases |answers|
  {
    if answers == [] then []
    else
      var last := answers[|answers| - 1];
      MatchedAnswers(qs, answers[..|answers| - 1]) + (if Matches(qs, last) then [last] else [])
  }

  /** The question that grades a matched answer. */
  function GradingQuestion(qs: seq<Question>, a: Answer): Question
    requires Matches(qs, a)
  {
    qs[FirstMatch(qs, a.questionId).value]
  }

  /** The outcome list has one entry per matched answer, in submission order,
      carrying the untrimmed `userAnswer` and the case-insensitive, trimmed verdict. */
  lemma {:induction false} OutcomesFollowSubmission(qs: seq<Question>, answers: seq<Answer>)
    ensures var t := Evaluate(qs, answers); var m := MatchedAnswers(qs, answers);
      |t.outcomes| == |m| &&
      forall k :: 0 <= k < |m| ==>
        Matches(qs, m[k]) &&
        t.outcomes[k] == Outcome(m[k].questionId, m[k].userAnswer,
          Norm(m[k].userAnswer) == Norm(CorrectText(GradingQuestion(qs, m[k]))))
    decreases |answers|
  {
    if answers != [] {
      OutcomesFollowSubmission(qs, answers[..|answers| - 1]);
    }
  }

  /** Sum of `points` over a list of questions (missing points count as 1). */
  function SumPoints(qs: seq<Question>): int
    decreases |qs|
  {
    if qs == [] then 0 else SumPoints(qs[..|qs| - 1]) + PointsOf(qs[|qs| - 1])
  }

  /** The grading question of each matched answer, in submission order. */
  function MatchedQuestions(qs: seq<Question>, answers: seq<Answer>): seq<Question>
    decreases |answers|
  {
    if answers == [] then []
    else
      var last := answers[|answers| - 1];
      MatchedQuestions(qs, answers[..|answers| - 1]) + (if Matches(qs, last) then [GradingQuestion(qs, last)] else [])
  }

  lemma {:induction false} SumPointsAppend(xs: seq<Question>, ys: seq<Question>)
    ensures SumPoints(xs + ys) == SumPoints(xs) + SumPoints(ys)
    decreases |ys|
  {
    if ys == [] {
      assert xs + ys == xs;
    } else {
      var n := |ys| - 1;
      assert (xs + ys)[..|xs + ys| - 1] == xs + ys[..n];
      SumPointsAppend(xs, ys[..n]);
    }
  }

  /** `total_points` is the sum of points of the questions the submitted answers
      matched, one term per matched answer; unanswered questions add nothing. */
  lemma {:induction false} TotalIsMatchedPoints(qs: seq<Question>, answers: seq<Answer>)
    ensures Evaluate(qs, answers).total == SumPoints(MatchedQuestions(qs, answers))
    decreases |answers|
  {
    if answers != [] {
      var init := answers[..|answers| - 1];
      var last := answers[|answers| - 1];
      TotalIsMatchedPoints(qs, init);
      var tail := if Matches(qs, last) then [GradingQuestion(qs, last)] else [];
      SumPointsAppend(MatchedQuestions(qs, init), tail);
      if Matches(qs, last) {
        assert tail[..0] == [];
      }
    }
  }

  /** With non-negative points, `0 <= score <= total_points`. */
  lemma {:induction false} ScoreWithinTotal(qs: seq<Question>, answers: seq<Answer>)
    requires NonNegativePoints(qs)
    ensures 0 <= Evaluate(qs, answers).score <= Evaluate(qs, answers).total
    decreases |answers|
  {
    if answers != [] {
      ScoreWithinTotal(qs, answers[..|answers| - 1]);
    }
  }

  /** Nothing in the source rules out negative `points`; with them the score can
      exceed the total. */
  lemma NegativePointsBreakBound()
    ensures var t := Evaluate(NegativeQuiz(), [Answer("q", "x"), Answer("r", "y")]);
      t.score > t.total
  {
    EvaluatePair(NegativeQuiz(), Answer("q", "x"), Answer("r", "y"));
    NegativeFirstAnswer();
    NegativeSecondAnswer();
  }

  /** Two questions worth -1 point each, both with correct answer "x". */
  function NegativeQuiz(): seq<Question> {
    [Question(Some(Str("q")), TextAnswer, "", None, Some("x"), Some(-1)),
     Question(Some(Str("r")), TextAnswer, "", None, Some("x"), Some(-1))]
  }

  lemma NegativeFirstAnswer()
    ensures Assess(NegativeQuiz(), Answer("q", "x")) == Tally(-1, -1, [Outcome("q", "x", true)])
  {
    AssessFound(NegativeQuiz(), Answer("q", "x"), 0);
  }

  lemma NegativeSecondAnswer()
    ensures Assess(NegativeQuiz(), Answer("r", "y")) == Tally(0, -1, [Outcome("r", "y", false)])
  {
    AssessFound(NegativeQuiz(), Answer("r", "y"), 1);
    assert Norm("y")[0] == 'y' && Norm("x")[0] == 'x';
  }

  /** Submitting the stored correct answer verbatim is graded correct. */
  lemma VerbatimIsCorrect(qs: seq<Question>, a: Answer)
    requires Matches(qs, a)
    requires a.userAnswer == CorrectText(GradingQuestion(qs, a))
    ensures Evaluate(qs, [a]).outcomes == [Outcome(a.questionId, a.userAnswer, true)]
    ensures Evaluate(qs, [a]).score == Evaluate(qs, [a]).total == PointsOf(GradingQuestion(qs, a))
  {
    AssessOne(qs, a);
  }

  // ----- The percentage -----

  /** Two decimals of `score/total*100`: the nearest hundredth (ties upward). */
  lemma PercentageIsNearest(score: int, total: int)
    requires total > 0
    ensures var h := PercentageOf(score, total).hundredths;
      -total < 2 * (h * total - 10000 * score) <= total
  {
    var n := 20000 * score + total;
    var d := 2 * total;
    var h := n / d;
    var r := n % d;
    assert n == d * h + r && 0 <= r < d;
    assert d * h == 2 * (h * total);
    assert 2 * (h * total - 10000 * score) == total - r;
  }

  lemma MulMonotone(a: int, b: int, c: int)
    requires a <= b && c >= 0
    ensures a * c <= b * c
  {
    assert b * c - a * c == (b - a) * c;
  }

  /** With `0 <= score <= total`, the percentage lies in [0.00, 100.00]. */
  lemma PercentageInRange(score: int, total: int)
    requires 0 <= score <= total
    ensures PercentageOf(score, total).TwoDecimals? ==>
      0 <= PercentageOf(score, total).hundredths <= 10000
  {
    if total > 0 {
      var h := PercentageOf(score, total).hundredths;
      PercentageIsNearest(score, total);
      if h < 0 {
        MulMonotone(h, -1, total);
        assert false;
      }
      if h > 10000 {
        MulMonotone(10001, h, total);
        MulMonotone(score, total, 10000);
        assert false;
      }
    }
  }

  /** Full marks give 100.00 and no marks give 0.00 (or "0" when nothing counted). */
  lemma PercentageExtremes(score: int, total: int)
    requires total > 0
    ensures score == total ==> PercentageOf(score, total) == TwoDecimals(10000)
    ensures score == 0 ==> PercentageOf(score, total) == TwoDecimals(0)
  {
    if score == total {
      DivUnique(20000 * score + total, 2 * total, 10000, total);
    }
    if score == 0 {
      DivUnique(20000 * score + total, 2 * total, 0, total);
    }
  }

  /** The quotient of `n` by `d` is the `q` with `n == d * q + r`, `0 <= r < d`. */
  lemma DivUnique(n: int, d: int, q: int, r: int)
    requires d > 0 && 0 <= r < d && n == d * q + r
    ensures n / d == q
  {
    var q', r' := n / d, n % d;
    assert n == d * q' + r' && 0 <= r' < d;
    if q' < q {
      MulMonotone(q' + 1, q, d);
      assert false;
    } else if q < q' {
      MulMonotone(q + 1, q', d);
      assert false;
    }
  }
}
