// Shapes shared by the backend and the frontend of the quiz application:
// the Question, Answer and per-answer outcome records of frontend/src/lib/api.ts.
// Keys that a record may lack are `Option`s; `None` is "key absent".

module Types {

  datatype Option<+T> = None | Some(value: T) {
    /** `dict.get(key, default)` / `x || default` for an optional key. */
    function GetOr(default: T): T {
      match this
      case Some(v) => v
      case None => default
    }
  }

  /** An `_id` value: a database ObjectId, modelled by its hexadecimal text,
      or an id that is already a plain string. */
  datatype Ident = ObjectId(hex: string) | Str(text: string)

  /** Python's `str()` applied to an `_id`. */
  function IdText(x: Ident): string {
    match x
    case ObjectId(h) => h
    case Str(s) => s
  }

  /** `'MCQ' | 'TRUE_FALSE' | 'TEXT'` */
  datatype QuestionType = MCQ | TrueFalse | TextAnswer

  /** A question record. `prompt` is the field called `question` in the source. */
  datatype Question = Question(
    id: Option<Ident>,
    kind: QuestionType,
    prompt: string,
    options: Option<seq<string>>,
    correctAnswer: Option<string>,
    points: Option<int>)

  /** A submitted answer. */
  datatype Answer = Answer(questionId: string, userAnswer: string)

  /** One entry of the `answers` list of a submission result. */
  datatype Outcome = Outcome(questionId: string, userAnswer: string, isCorrect: bool)
}
