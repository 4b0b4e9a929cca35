// Answer collection while a quiz is taken (frontend/src/components/QuizTaker.tsx):
// the `answers` state slot keyed by question id (lines 12-16), the choices a
// question offers (lines 62-107), and the submitted answer list (lines 21-24).

module QuizTaker {
  import opened Types
  import Grading

  /** The component's state: the respondent's name and the chosen answers. */
  class AnswerSheet {
    var userName: string
    var answers: map<string, string>

    constructor ()
      ensures userName == "" && answers == map[]
    {
      userName := "";
      answers := map[];
    }

    /** `handleAnswerChange`: the entry for `questionId` becomes `value`;
        every other entry, and the name, stay as they were. */
    method HandleAnswerChange(questionId: string, value: string)
      modifies this
      ensures answers == old(answers)[questionId := value]
      ensures forall k :: k in old(answers) && k != questionId ==> k in answers && answers[k] == old(answers)[k]
      ensures forall k :: k in answers ==> k == questionId || k in old(answers)
      ensures userName == old(userName)
    {
      answers := answers[questionId := value];
    }

    /** A run of `handleAnswerChange` calls, one per change, in order. */
    method ApplyChanges(cs: seq<Change>)
      modifies this
      ensures answers == AfterChanges(old(answers), cs)
      ensures userName == old(userName)
    {
      for i := 0 to |cs|
        invariant answers == AfterChanges(old(answers), cs[..i])
        invariant userName == old(userName)
      {
        HandleAnswerChange(cs[i].questionId, cs[i].value);
        AfterChangesSnoc(old(answers), cs[..i], cs[i]);
        assert cs[..i + 1] == cs[..i] + [cs[i]];
      }
      assert cs[..|cs|] == cs;
    }
  }

  /** One call of `handleAnswerChange`. */
  datatype Change = Change(questionId: string, value: string)

  /** The `answers` slot after a run of changes, applied in order. */
  function AfterChanges(m: map<string, string>, cs: seq<Change>): (r: map<string, string>)
    ensures r.Keys == m.Keys + (set c | c in cs :: c.questionId)
    decreases |cs|
  {
    if cs == [] then m
    else
      var c := cs[|cs| - 1];
      AfterChanges(m, cs[..|cs| - 1])[c.questionId := c.value]
  }

  lemma AfterChangesSnoc(m: map<string, string>, cs: seq<Change>, c: Change)
    ensures AfterChanges(m, cs + [c]) == AfterChanges(m, cs)[c.questionId := c.value]
  {
    assert (cs + [c])[..|cs|] == cs;
  }

  /** Repeated changes to one question keep only the last value given. */
  lemma {:induction false} LastChangeWins(m: map<string, string>, cs: seq<Change>, k: nat)
    requires k < |cs|
    requires forall j :: k < j < |cs| ==> cs[j].questionId != cs[k].questionId
    ensures cs[k].questionId in AfterChanges(m, cs)
    ensures AfterChanges(m, cs)[cs[k].questionId] == cs[k].value
    decreases |cs|
  {
    var n := |cs| - 1;
    assert cs == cs[..n] + [cs[n]];
    AfterChangesSnoc(m, cs[..n], cs[n]);
    if k < n {
      LastChangeWins(m, cs[..n], k);
    }
  }

  /** A question no change mentions keeps its entry (or its absence). */
  lemma {:induction false} UntouchedKept(m: map<string, string>, cs: seq<Change>, id: string)
    requires forall j :: 0 <= j < |cs| ==> cs[j].questionId != id
    ensures (id in AfterChanges(m, cs)) == (id in m)
    ensures id in m ==> AfterChanges(m, cs)[id] == m[id]
    decreases |cs|
  {
    if cs != [] {
      var n := |cs| - 1;
      assert cs == cs[..n] + [cs[n]];
      AfterChangesSnoc(m, cs[..n], cs[n]);
      UntouchedKept(m, cs[..n], id);
    }
  }

  /** `answers[id] || ''`: the chosen answer, or the empty string. */
  function Chosen(answers: map<string, string>, id: string): (u: string)
    ensures id in answers ==> u == answers[id]
    ensures id !in answers ==> u == ""
  {
    if id in answers then answers[id] else ""
  }

  predicate HasIds(qs: seq<Question>) {
    forall i :: 0 <= i < |qs| ==> qs[i].id.Some?
  }

  /** The answer list `handleSubmit` sends: one entry per question, in quiz order.
      `q._id!` asserts that every question carries an id. */
  function FormatAnswers(qs: seq<Question>, answers: map<string, string>): (r: seq<Answer>)
    requires HasIds(qs)
    ensures |r| == |qs|
    ensures forall i :: 0 <= i < |qs| ==>
      r[i].questionId == Grading.Key(qs[i]) && r[i].userAnswer == Chosen(answers, Grading.Key(qs[i]))
  {
    seq(|qs|, i requires 0 <= i < |qs| =>
      var id := IdText(qs[i].id.value);
      Answer(id, if id in answers then answers[id] else ""))
  }

  /** A question the respondent never answered is sent with an empty answer. */
  lemma UnansweredIsBlank(qs: seq<Question>, answers: map<string, string>, i: nat)
    requires HasIds(qs) && i < |qs|
    requires Grading.Key(qs[i]) !in answers
    ensures FormatAnswers(qs, answers)[i] == Answer(Grading.Key(qs[i]), "")
  {
  }

  /** The choices a question offers the respondent: the stored options of a
      multiple-choice question, exactly "True" and "False" for a true/false
      question, and none for a text question (a free text field). */
  function OfferedChoices(q: Question): (r: seq<string>)
    ensures q.kind == TrueFalse ==> r == ["True", "False"]
    ensures q.kind == MCQ ==> r == q.options.GetOr([])
    ensures q.kind == TextAnswer ==> r == []
  {
    match q.kind
    case MCQ => if q.options.Some? then q.options.value else []
    case TrueFalse => ["True", "False"]
    case TextAnswer => []
  }
}
