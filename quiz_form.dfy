// The question-list editor of the quiz authoring form
// (frontend/src/components/QuizForm.tsx:10-39): the initial list, appending a
// default question, changing one field, changing one option, and removing a
// question. Each editor replaces the `questions` state slot with a new list.

module QuizForm {
  import opened Types

  /** The question the form starts with and appends (lines 13 and 19). */
  const DefaultQuestion: Question := Question(None, MCQ, "", Some(["", "", "", ""]), Some(""), Some(1))

  /** A key of the Question record. */
  datatype Field = IdField | KindField | PromptField | OptionsField | CorrectAnswerField | PointsField

  /** A key of the Question record together with a value for it. */
  datatype FieldValue =
    | IdValue(id: Option<Ident>)
    | KindValue(kind: QuestionType)
    | PromptValue(prompt: string)
    | OptionsValue(options: Option<seq<string>>)
    | CorrectAnswerValue(answer: Option<string>)
    | PointsValue(points: Option<int>)

  function FieldOf(v: FieldValue): Field {
    match v
    case IdValue(_) => IdField
    case KindValue(_) => KindField
    case PromptValue(_) => PromptField
    case OptionsValue(_) => OptionsField
    case CorrectAnswerValue(_) => CorrectAnswerField
    case PointsValue(_) => PointsField
  }

  /** `q[field]` */
  function Get(q: Question, f: Field): (v: FieldValue)
    ensures FieldOf(v) == f
  {
    match f
    case IdField => IdValue(q.id)
    case KindField => KindValue(q.kind)
    case PromptField => PromptValue(q.prompt)
    case OptionsField => OptionsValue(q.options)
    case CorrectAnswerField => CorrectAnswerValue(q.correctAnswer)
    case PointsField => PointsValue(q.points)
  }

  /** `{ ...q, [field]: value }`: the named field reads back the new value and
      every other field reads as before. */
  function Set(q: Question, v: FieldValue): (r: Question)
    ensures Get(r, FieldOf(v)) == v
    ensures forall f :: f != FieldOf(v) ==> Get(r, f) == Get(q, f)
  {
    match v
    case IdValue(x) => q.(id := x)
    case KindValue(x) => q.(kind := x)
    case PromptValue(x) => q.(prompt := x)
    case OptionsValue(x) => q.(options := x)
    case CorrectAnswerValue(x) => q.(correctAnswer := x)
    case PointsValue(x) => q.(points := x)
  }

  /** Two questions that agree on every field are the same question. */
  lemma FieldsDetermineQuestion(q: Question, r: Question)
    requires forall f :: Get(q, f) == Get(r, f)
    ensures q == r
  {
    assert Get(q, IdField) == Get(r, IdField);
    assert Get(q, KindField) == Get(r, KindField);
    assert Get(q, PromptField) == Get(r, PromptField);
    assert Get(q, OptionsField) == Get(r, OptionsField);
    assert Get(q, CorrectAnswerField) == Get(r, CorrectAnswerField);
    assert Get(q, PointsField) == Get(r, PointsField);
  }

  /** `[...questions, default]` */
  function AppendDefault(qs: seq<Question>): (r: seq<Question>)
    ensures |r| == |qs| + 1
    ensures r[..|qs|] == qs && r[|qs|] == DefaultQuestion
  {
    qs + [DefaultQuestion]
  }

  /** `updated[index] = { ...updated[index], [field]: value }` on a copy. */
  function UpdateAt(qs: seq<Question>, index: int, v: FieldValue): (r: seq<Question>)
    requires 0 <= index < |qs|
    ensures |r| == |qs|
    ensures forall j :: 0 <= j < |qs| && j != index ==> r[j] == qs[j]
    ensures Get(r[index], FieldOf(v)) == v
    ensures forall f :: f != FieldOf(v) ==> Get(r[index], f) == Get(qs[index], f)
  {
    qs[index := Set(qs[index], v)]
  }

  /** `updateOption`: option `oIndex` of question `qIndex` becomes `value`, in a
      copy of that question's options. */
  function SetOption(qs: seq<Question>, qIndex: int, oIndex: int, value: string): (r: seq<Question>)
    requires 0 <= qIndex < |qs|
    requires 0 <= oIndex < |qs[qIndex].options.GetOr([])|
    ensures |r| == |qs|
    ensures forall j :: 0 <= j < |qs| && j != qIndex ==> r[j] == qs[j]
    ensures forall f :: f != OptionsField ==> Get(r[qIndex], f) == Get(qs[qIndex], f)
    ensures r[qIndex].options.Some?
    ensures var before, after := qs[qIndex].options.GetOr([]), r[qIndex].options.value;
      |after| == |before| && after[oIndex] == value &&
      forall k :: 0 <= k < |before| && k != oIndex ==> after[k] == before[k]
  {
    var options := qs[qIndex].options.GetOr([]);
    qs[qIndex := qs[qIndex].(options := Some(options[oIndex := value]))]
  }

  /** `s.filter((_, i) => i !== index)`, kept element by element. */
  function RemoveAt<T>(s: seq<T>, index: int): (r: seq<T>)
    ensures 0 <= index < |s| ==> r == s[..index] + s[index + 1..]
    ensures !(0 <= index < |s|) ==> r == s
    decreases |s|
  {
    if s == [] then []
    else
      var n := |s| - 1;
      RemoveAt(s[..n], index) + (if index == n then [] else [s[n]])
  }

  /** `removeQuestion(i)` drops exactly position `i` and keeps the order of the rest. */
  lemma RemoveAtShifts<T>(s: seq<T>, index: int)
    requires 0 <= index < |s|
    ensures |RemoveAt(s, index)| == |s| - 1
    ensures forall j :: 0 <= j < index ==> RemoveAt(s, index)[j] == s[j]
    ensures forall j :: index <= j < |s| - 1 ==> RemoveAt(s, index)[j] == s[j + 1]
  {
  }

  /** The Remove button is only rendered, for an existing position, when the
      list holds more than one question. */
  predicate RemoveOffered(qs: seq<Question>, index: int) {
    |qs| > 1 && 0 <= index < |qs|
  }

  /** So the form can never be left without a question. */
  lemma OfferedRemovalKeepsAQuestion(qs: seq<Question>, index: int)
    requires RemoveOffered(qs, index)
    ensures |RemoveAt(qs, index)| >= 1
  {
  }

  /** The form's state slots. */
  class QuizFormState {
    var title: string
    var description: string
    var questions: seq<Question>

    constructor ()
      ensures title == "" && description == ""
      ensures questions == [Question(None, MCQ, "", Some(["", "", "", ""]), Some(""), Some(1))]
    {
      title := "";
      description := "";
      questions := [DefaultQuestion];
    }

    method AddQuestion()
      modifies this
      ensures questions == AppendDefault(old(questions))
      ensures title == old(title) && description == old(description)
    {
      questions := AppendDefault(questions);
    }

    method UpdateQuestion(index: int, v: FieldValue)
      requires 0 <= index < |questions|
      modifies this
      ensures questions == UpdateAt(old(questions), index, v)
      ensures title == old(title) && description == old(description)
    {
      questions := UpdateAt(questions, index, v);
    }

    method UpdateOption(qIndex: int, oIndex: int, value: string)
      requires 0 <= qIndex < |questions|
      requires 0 <= oIndex < |questions[qIndex].options.GetOr([])|
      modifies this
      ensures questions == SetOption(old(questions), qIndex, oIndex, value)
      ensures title == old(title) && description == old(description)
    {
      questions := SetOption(questions, qIndex, oIndex, value);
    }

    method RemoveQuestion(index: int)
      modifies this
      ensures questions == RemoveAt(old(questions), index)
      ensures RemoveOffered(old(questions), index) ==> |questions| >= 1
      ensures title == old(title) && description == old(description)
    {
      questions := RemoveAt(questions, index);
    }
  }
}
