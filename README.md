# Quiz management system: grading, answer collection and quiz editing

This project models the parts of the quiz management system that contain real logic. It proves properties of that model. The parts are:

- **Submission grading.** `submit_quiz` walks the submitted answers in submission order. For each answer it finds the first quiz question with the same id and compares the two strings after `lower().strip()`. It accumulates `score` and `total_points`, appends an outcome record, and computes the percentage.
- **Answer collection.** The quiz-taking form keeps a map from question ids to answers. `handleAnswerChange` overwrites one entry; `handleSubmit` sends one answer per quiz question, in quiz order.
- **Question-list editor.** The quiz authoring form has an initial list, add, update of one field, update of one option, and remove.
- **Letter grade.** `getGrade` on the results page.
- **Quiz record transforms.** `serialize_quiz`, the question-id assignment and activation in `create_quiz`, and the removal of `correctAnswer` in `get_quiz`.

Modules, one file each:

- `Types` (`types.dfy`): the records of `frontend/src/lib/api.ts`. An id is either an ObjectId (its hex text) or a string; `str()` of either is `IdText`.
- `PyText` (`text.dfy`): `lower()` and `strip()` over ASCII, and `Norm(s) = strip(lower(s))`.
- `Grading` (`grading.dfy`):
  - the method `SubmitQuiz` keeps the source's loop and accumulators;
  - `SubmitQuiz` is proved against the function `Evaluate`, which consumes answers one at a time;
  - lemmas about `Evaluate` state what the tally means.
- `Results` (`results.dfy`): `getGrade` over a percentage held in hundredths.
- `QuizTaker` (`quiz_taker.dfy`): the class `AnswerSheet` holds the answer map, `FormatAnswers` builds the submitted list, and `OfferedChoices` gives the choices each question offers.
- `QuizForm` (`quiz_form.dfy`): the class `QuizFormState` holds the form's state slots. Each editor is specified by a pure function on the question list.
- `QuizRoutes` (`quiz_routes.dfy`): the class `QuizDocument` is a stored quiz. Its methods change ids and answers in place with loops, as the route handlers do.
- `EndToEnd` (`end_to_end.dfy`): the guarantee that holds when the form's answers are graded against a quiz with distinct ids. Every question is graded once, in quiz order, and the total is the sum of all question points.

Behaviour of the code worth knowing:

- There is no server-side quiz validator. None is modelled.
- Grading walks the submitted answers, not the quiz questions. An answer that matches no question is skipped.
- Answers are compared after `lower().strip()`, so the comparison ignores case and surrounding whitespace.
- An answer submitted twice is graded and counted twice.
- `total_points` sums only the questions that some answer matched.
- The percentage is the text `"0"` when `total_points` is not positive. Otherwise it has two decimals.

## Model

| member | source | states |
|---|---|---|
| Grading.Key | backend/app/routes/submission_routes.py:32 | `str(q.get('_id', ''))`: the text of a present id, the empty string for a missing one |
| Grading.PointsOf | backend/app/routes/submission_routes.py:34 | `q.get('points', 1)`: the stored points, or 1 when the key is missing |
| Grading.CorrectText | backend/app/routes/submission_routes.py:35 | `q.get('correctAnswer', '')`: the stored answer, or "" when the key is missing |
| Grading.FirstMatch | backend/app/routes/submission_routes.py:32 | the result, if any, is a question with the given key, and no earlier question (none at all when absent) has that key |
| Grading.FirstMatchFrom | backend/app/routes/submission_routes.py:32 | the same first-match property for the search started at a position |
| Grading.PercentageOf | backend/app/routes/submission_routes.py:63 | the percentage is the literal "0" exactly when `total_points` is not positive |
| Grading.Assess | backend/app/routes/submission_routes.py:29-45 | one pass of the loop body adds at most one outcome, exactly when the answer matches a question; that outcome carries the submitted id and the untrimmed answer; the score grows by 0 or by the whole of what the total grows by (no partial credit) |
| Grading.AssessFound | backend/app/routes/submission_routes.py:32-45 | for an answer matched to question j: the total grows by j's points, the score by the same points exactly when the normalised answers agree, and the outcome records that verdict |
| Grading.AssessMissed | backend/app/routes/submission_routes.py:32-33 | an answer that matches no question contributes nothing |
| Grading.Evaluate | backend/app/routes/submission_routes.py:24-45 | the tally after the loop has consumed the answers in submission order: no answers give score 0, total 0 and no outcomes, and there is at most one outcome per answer (its meaning is stated by the lemmas below) |
| Grading.SubmitQuiz | backend/app/routes/submission_routes.py:24-64 | the loop's final score, total and outcome list equal `Evaluate` of the submitted answers; with non-negative points, `0 <= score <= total_points` after every iteration; the percentage is computed from the final score and total; the submission id is returned unchanged |
| Grading.EvaluateSnoc | backend/app/routes/submission_routes.py:28-45 | one more answer adds exactly that answer's contribution (one loop iteration) |
| Grading.AssessOne | backend/app/routes/submission_routes.py:29-45 | an unmatched answer adds nothing; a matched one adds its points (missing = 1) to the total, the same points to the score exactly when the normalised answer equals the normalised correct answer (missing = ""), and one outcome carrying the id, the original answer and that verdict |
| Grading.EvaluateAppend | backend/app/routes/submission_routes.py:28-45 | grading a concatenation sums the tallies and concatenates the outcome lists in order |
| Grading.UnmatchedIgnored | backend/app/routes/submission_routes.py:32-33 | an answer matching no question changes neither score, total nor outcomes |
| Grading.DuplicateCountedTwice | backend/app/routes/submission_routes.py:28-45 | a matched answer submitted twice doubles score and total and repeats its outcome |
| Grading.FirstOfDuplicatesUsed | backend/app/routes/submission_routes.py:32 | when several questions share an id, the first of them is the one used |
| Grading.OutcomesFollowSubmission | backend/app/routes/submission_routes.py:28-45 | the outcome list has one entry per matched answer, in submission order, with the untrimmed answer and the normalised-equality verdict of the question that graded it |
| Grading.TotalIsMatchedPoints | backend/app/routes/submission_routes.py:28-34 | `total_points` is the sum of the points of the questions the answers matched, one term per matched answer |
| Grading.ScoreWithinTotal | backend/app/routes/submission_routes.py:24-39 | with non-negative points, `0 <= score <= total_points` for every answer list |
| Grading.NegativePointsBreakBound | backend/app/routes/submission_routes.py:34-39 | with negative points the score can exceed the total (a concrete two-question case) |
| Grading.VerbatimIsCorrect | backend/app/routes/submission_routes.py:30-39 | submitting the stored correct answer exactly is graded correct and earns the question's points |
| Grading.PercentageIsNearest | backend/app/routes/submission_routes.py:63 | the two-decimal percentage is the hundredth nearest to `score/total*100`, ties upward |
| Grading.PercentageInRange | backend/app/routes/submission_routes.py:63 | with `0 <= score <= total`, the percentage lies between 0.00 and 100.00 |
| Grading.PercentageExtremes | backend/app/routes/submission_routes.py:63 | full marks give exactly 100.00 and no marks give exactly 0.00 |
| PyText.Lower | backend/app/routes/submission_routes.py:30 | `lower()`: same length, no upper-case ASCII letter left, every other character kept in place |
| PyText.StripLeft | backend/app/routes/submission_routes.py:30 | `lstrip()`: no longer than the input, and empty or starting with a non-space |
| PyText.StripRight | backend/app/routes/submission_routes.py:30 | `rstrip()`: no longer than the input, and empty or ending with a non-space |
| PyText.Strip | backend/app/routes/submission_routes.py:30 | `strip()`: no longer than the input, and empty or starting and ending with a non-space |
| PyText.Norm | backend/app/routes/submission_routes.py:30-35 | `.lower().strip()`: no longer than the input, and empty or starting and ending with a non-space |
| PyText.NormHasNoCapitals | backend/app/routes/submission_routes.py:30-35 | the normal form holds no upper-case ASCII letter |
| PyText.LowerChar | backend/app/routes/submission_routes.py:30 | upper-case ASCII letters map to their lower-case letters; every other character is unchanged |
| PyText.StripLeftMeaning | backend/app/routes/submission_routes.py:30 | `lstrip` removes exactly the leading whitespace: the rest is a suffix that is empty or starts with a non-space |
| PyText.StripRightMeaning | backend/app/routes/submission_routes.py:30 | `rstrip` removes exactly the trailing whitespace |
| PyText.PaddingIgnored | backend/app/routes/submission_routes.py:30-35 | whitespace before and after an answer does not change its normal form |
| PyText.CaseIgnored | backend/app/routes/submission_routes.py:30-35 | an answer and its lower-case spelling have the same normal form |
| Results.PercentValue | frontend/src/components/Results.tsx:9 | `parseFloat(result.percentage)`: the text "0" reads as 0, a two-decimal text as its hundredths |
| Results.GetGrade | frontend/src/components/Results.tsx:11-17 | A+ exactly from 90, A exactly in [80,90), B in [70,80), C in [60,70), D below 60; so every percentage gets exactly one grade |
| Results.GradeMonotone | frontend/src/components/Results.tsx:11-17 | a higher percentage never gets a lower grade |
| Results.GradeOfExtremes | frontend/src/components/Results.tsx:9-16 | full marks read back as A+; no marks, or the text "0", read back as D |
| QuizTaker.AnswerSheet.constructor | frontend/src/components/QuizTaker.tsx:11-12 | the name is empty and no answer is chosen |
| QuizTaker.AnswerSheet.HandleAnswerChange | frontend/src/components/QuizTaker.tsx:14-16 | the entry for the question becomes the value; every other entry and the name are unchanged; no other key appears |
| QuizTaker.AnswerSheet.ApplyChanges | frontend/src/components/QuizTaker.tsx:14-16 | a run of `handleAnswerChange` calls leaves the answer map equal to `AfterChanges` of the old map, and the name unchanged |
| QuizTaker.AfterChanges | frontend/src/components/QuizTaker.tsx:14-16 | after a run of changes the answered questions are exactly those answered before plus those the changes name |
| QuizTaker.LastChangeWins | frontend/src/components/QuizTaker.tsx:15 | after a run of changes, a question holds the value of its last change |
| QuizTaker.UntouchedKept | frontend/src/components/QuizTaker.tsx:15 | a question no change mentions keeps its entry, or its absence |
| QuizTaker.Chosen | frontend/src/components/QuizTaker.tsx:23 | the fallback of `answers[id]` to '': the chosen answer, or "" when the question was not answered |
| QuizTaker.FormatAnswers | frontend/src/components/QuizTaker.tsx:21-24 | one answer per question, in quiz order; entry i names question i's id and carries its chosen answer or "" |
| QuizTaker.UnansweredIsBlank | frontend/src/components/QuizTaker.tsx:23 | an unanswered question is sent with the empty answer |
| QuizTaker.OfferedChoices | frontend/src/components/QuizTaker.tsx:62-98 | a true/false question offers exactly "True" and "False"; a multiple-choice question its stored options (none if missing); a text question no choices |
| QuizForm.Get | frontend/src/components/QuizForm.tsx:25 | reading a field gives a value tagged with that field |
| QuizForm.Set | frontend/src/components/QuizForm.tsx:25 | after `{ ...q, [field]: value }` the field reads back the value and every other field reads as before |
| QuizForm.FieldsDetermineQuestion | frontend/src/components/QuizForm.tsx:23-25 | questions agreeing on every field are equal, so the field-wise contracts fix the result |
| QuizForm.AppendDefault | frontend/src/components/QuizForm.tsx:16-21 | the list grows by one, the earlier questions are unchanged, and the last is the default question |
| QuizForm.UpdateAt | frontend/src/components/QuizForm.tsx:23-27 | the length and every other question are unchanged; at the index only the named field changes, to the value |
| QuizForm.SetOption | frontend/src/components/QuizForm.tsx:29-35 | only question qIndex changes and only its options; the new options list has the old length, holds the value at oIndex, and is unchanged elsewhere |
| QuizForm.RemoveAt | frontend/src/components/QuizForm.tsx:37-39 | an in-range index is cut out of the list; an out-of-range index leaves the list unchanged |
| QuizForm.RemoveAtShifts | frontend/src/components/QuizForm.tsx:37-39 | removal shortens the list by one, keeps the elements before the index, and shifts the later ones down by one in order |
| QuizForm.OfferedRemovalKeepsAQuestion | frontend/src/components/QuizForm.tsx:85-93 | the Remove button appears only with more than one question, so removal leaves at least one |
| QuizForm.QuizFormState.constructor | frontend/src/components/QuizForm.tsx:10-14 | empty title and description; one MCQ question with an empty prompt, four empty options, an empty correct answer and 1 point |
| QuizForm.QuizFormState.AddQuestion | frontend/src/components/QuizForm.tsx:16-21 | the question list becomes the old one with the default appended; title and description are unchanged |
| QuizForm.QuizFormState.UpdateQuestion | frontend/src/components/QuizForm.tsx:23-27 | the question list becomes `UpdateAt` of the old one; title and description are unchanged |
| QuizForm.QuizFormState.UpdateOption | frontend/src/components/QuizForm.tsx:29-35 | the question list becomes `SetOption` of the old one; title and description are unchanged |
| QuizForm.QuizFormState.RemoveQuestion | frontend/src/components/QuizForm.tsx:37-39 | the question list becomes `RemoveAt` of the old one, and it is still non-empty when the removal was offered |
| QuizRoutes.QuizDocument.AssignIds | backend/app/routes/quiz_routes.py:23-26 | each question gets its fresh ObjectId and nothing else changes in it; the count is unchanged; the quiz becomes active |
| QuizRoutes.QuizDocument.RedactAnswers | backend/app/routes/quiz_routes.py:57-59 | afterwards no question has a correct answer; every other field of every question, and the quiz record, are kept |
| QuizRoutes.SerializeIdent | backend/app/routes/quiz_routes.py:10 | `str(_id)` is a string id with the same text |
| QuizRoutes.SerializeQuestion | backend/app/routes/quiz_routes.py:11-13 | a present id becomes a string with the same text, an absent one stays absent, and every other field is kept |
| QuizRoutes.SerializeQuiz | backend/app/routes/quiz_routes.py:7-14 | an absent quiz is returned as it is; otherwise the same quiz is returned, with a string id, the same question count and order, each question serialised (the list is `SerializeAll` of the old one), and the other fields kept |
| QuizRoutes.GetQuiz | backend/app/routes/quiz_routes.py:57-61 | what the taker receives has no correct answers and string ids, its question list is `TakerView` of the stored one, and everything else is the stored quiz |
| QuizRoutes.TakerView | backend/app/routes/quiz_routes.py:57-61 | the taker's question list: same length, each question with its key kept and no correct answer, every other field serialised as stored |
| QuizRoutes.SerializeAll | backend/app/routes/quiz_routes.py:11-13 | the serialised question list has the same length, with each question serialised in place |
| QuizRoutes.FirstMatchFromSameKeys | backend/app/routes/submission_routes.py:32 | question lists with the same keys position by position find the same first match |
| QuizRoutes.SerializePreservesGrading | backend/app/models/quiz.py:29-36 | grading against the serialised quiz gives the same tally as against the stored one |
| QuizRoutes.FreshIdsGiveDistinctKeys | backend/app/routes/quiz_routes.py:23-24 | distinct fresh ObjectIds give distinct question keys, before and after serialisation |
| EndToEnd.AssessInOrder | backend/app/routes/submission_routes.py:32-45 | with distinct keys, the answer sent for question k is graded by question k itself |
| EndToEnd.InOrderTally | backend/app/routes/submission_routes.py:28-39 | answers naming the first k questions in order total those questions' points, and score the points of the correct ones |
| EndToEnd.InOrderOutcomes | backend/app/routes/submission_routes.py:41-45 | such answers produce one outcome per question, outcome i for question i |
| EndToEnd.FormattedSubmissionCoversQuiz | frontend/src/components/QuizTaker.tsx:21-24 | for a quiz with distinct ids, grading the form's answers totals all question points, scores the correct ones, and gives outcome i for question i |
| EndToEnd.TakerViewFormatsAlike | frontend/src/components/QuizTaker.tsx:21-24 | the form sends the same answer list for the quiz `get_quiz` delivers as for the stored quiz |
| EndToEnd.TakerSubmissionCoversQuiz | backend/app/routes/submission_routes.py:20-45 | the round trip: answers formatted from `get_quiz`'s view and graded against the serialised stored quiz total all question points, score the correct ones, and give outcome i for question i |
| EndToEnd.WorkedNorms | backend/app/routes/submission_routes.py:30-35 | " b" matches "B", and "False" does not match "True" |
| EndToEnd.WorkedFirstAnswer | backend/app/routes/submission_routes.py:29-45 | " b" against correct answer "B" worth 2 adds 2 to score and total, marked correct |
| EndToEnd.WorkedSecondAnswer | backend/app/routes/submission_routes.py:29-45 | "False" against "True" worth 1 adds 1 to the total only, marked wrong |
| EndToEnd.WorkedTally | backend/app/routes/submission_routes.py:24-45 | the two answers tally to 2 of 3 with both outcomes in order |
| EndToEnd.WorkedSubmission | backend/app/routes/submission_routes.py:24-63 | a two-question example: score 2 of 3, outcomes in order, percentage 66.67 |
| EndToEnd.EmptySubmission | backend/app/routes/submission_routes.py:63 | with no answers the tally is empty and the percentage is "0" |

## Left out

- The Flask routes, request parsing, JSON responses, the mapping of exceptions to HTTP status codes, and the database calls are not modelled. The quiz that `submit_quiz` fetches is an input; the submission id the store returns is a parameter.
- ObjectId generation is a foreign library, so fresh ids are supplied as a sequence of hex strings (`AssignIds`).
- `lower()` and `strip()` are modelled over ASCII only. The Unicode case mappings and Unicode whitespace are not modelled.
- The float percentage is not modelled. It is held as a whole number of hundredths, rounded to the nearest with ties upward. Binary-float formatting can differ from that by one hundredth on exact ties, and `parseFloat` is a direct read-back of the hundredths.
- `parseInt` for points and the HTML `required` and `min` attributes are not modelled. The points input (frontend/src/components/QuizForm.tsx:168-175) has `min="1"` but no `required`, so nothing stops an empty or non-numeric entry.
- A question stored with a present `null` or non-integer `points` or `correctAnswer` is not modelled. Clearing the points field gives `parseInt('')`, which is `NaN`; JSON sends it as `null`. Then `question.get('points', 1)` returns `None`, and `total_points += None` raises (backend/app/routes/submission_routes.py:34), so every submission to that quiz fails with status 400. In the model `points` is an `Option<int>` whose `None` means "key absent, counts as 1", so it cannot express a present null.
- The raises inside the grading loop are not modelled. `create_quiz` reads the list with `data.get('questions', [])` (backend/app/routes/quiz_routes.py:23), so a quiz can be stored without a `questions` key. `submit_quiz` then reads `quiz['questions']` with a plain index (backend/app/routes/submission_routes.py:32), which raises `KeyError` for any non-empty answer list, and the route answers 400. In the model `questions` is a `seq<Question>`, so a missing key can only appear as `[]`, for which `SubmitQuiz` returns score 0, total 0 and `"0"`.
- A malformed answer record is not modelled either. A missing `questionId` or `userAnswer`, or a `userAnswer` that is not a string, raises at backend/app/routes/submission_routes.py:29-30. Line 30 runs before the question lookup, so this happens even for an answer that matches no question. In the model an `Answer` always has a string id and a string answer.
- Grading.ScoreWithinTotal: states `score <= total_points` only for non-negative points. The points input has `min="1"` (frontend/src/components/QuizForm.tsx:174), but nothing on the server rules out negative points, and `NegativePointsBreakBound` shows that the bound then fails.
- QuizForm.QuizFormState.UpdateQuestion: requires an index inside the list. It leaves out what JavaScript does on an out-of-range write (a sparse array). The form only calls it for rendered questions.
- QuizForm.QuizFormState.UpdateOption: requires an option index inside the current options, so writes past the end (which create holes) and the case of a missing options list are not modelled. The form only renders inputs for existing options (frontend/src/components/QuizForm.tsx:124).
- QuizForm.SetOption: same restriction as `UpdateOption`.
- QuizForm.QuizFormState.UpdateOption: writes the new options list into the question object that the previous state shares. It is modelled as replacing the question by value, so that aliasing is not captured.
- QuizRoutes.SerializeQuiz: requires a present quiz to have an id. A stored quiz always has one; without it the source raises `KeyError`.
- QuizRoutes.SerializeQuiz: models an absent quiz (`None`) as `null`. An empty dict, which is also falsy in Python, is not modelled.
- QuizTaker.FormatAnswers: requires every question to carry an id, as the non-null assertion `q._id!` does. What JavaScript does with an undefined id is not modelled.
- The quiz form's `handleSubmit`, the `createdAt` field and `setUserName` only pass data on, so they are not modelled. The name is kept as a field of `AnswerSheet`.
- The rendering code, the JSX and the axios client are not modelled.
