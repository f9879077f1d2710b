# Exam portal attempt lifecycle and scoring, in Dafny

This project models the core of an online multiple-choice exam portal (a
Django application): how a student's **attempt** on an **exam** is started,
how its countdown is computed, and how a single submission grades the posted
answers and finalizes the attempt. It proves that the scoring engine's result
is the sum of the marks of the correctly answered questions, that it does
not depend on question order, and that the lifecycle is a one-way transition
from in progress to submitted.

Modules, one per component of the source:

- `Results` (`results.dfy`): `Option` for nullable columns and `Result` for
  operations that can raise.
- `Models` (`models.dfy`): the `Question`, `Exam` and `Attempt` records of
  `exam_app/models.py`, the attempt invariant `Consistent`, the defaults of a
  new attempt and the `time_remaining` countdown.
- `Scoring` (`scoring.dfy`): the grading loop of `submit_exam`. The posted
  form is a map from question id to an `Answer`. An `Answer` is an empty
  string (`Blank`), an integer (`Number`) or a value that is not an integer
  (`NotANumber`); a question the form does not mention has no entry at all.
  `Grade` is stated against two independent reference definitions:
  `CreditedQuestions` (the questions answered with their correct option) and
  `MarksOf` (the sum of marks).
- `ScoringProperties` (`scoring_properties.dfy`): order independence,
  monotonicity, and how blank, missing and forged answers are graded.
- `Lifecycle` (`lifecycle.dfy`): `Start` and `Submit` over a `Store` of
  exams and attempts. The clock is an explicit integer number of seconds.
- `LifecycleProperties` (`lifecycle_properties.dfy`): refusal of a second
  submission, lateness that only warns, preservation of the store invariant,
  and `Run`, which replays any time-ordered sequence of starts and submits.

Three choices follow the code rather than a stricter reading:

- An answer that is not an integer makes `int()` raise before the attempt is
  saved. The model returns `Rejected` and leaves the store unchanged. It does
  not grade such an answer as wrong.
- `duration_minutes` and `marks` are non-negative integer columns, so both
  may be 0. Neither is assumed positive.
- `correct_answer` is only constrained to 1..4 by form validation. A bulk
  import can store any non-negative integer (`exam_app/views.py:243`). It is
  therefore a predicate (`Question.HasValidChoice`) and not part of the type.

## Model

| member | source | states |
|---|---|---|
| Models.NewAttempt | exam_app/models.py:44-50 | a new attempt has score 0, no completion time, is not submitted, and satisfies the attempt invariant (completion time exactly when submitted) |
| Models.TimeRemaining | exam_app/models.py:55-61 | 0 once submitted; otherwise never negative and never above the limit for a started attempt; equal to limit minus elapsed while within the limit, and 0 from the limit on |
| Models.TimeRemainingNeverIncreases | exam_app/models.py:59-61 | the countdown never goes up as the clock advances |
| Scoring.CreditedQuestions | exam_app/views.py:90-94 | contains exactly the questions answered with their correct option, no more of them and no more marks than the whole list |
| Scoring.GradeFrom | exam_app/views.py:87-94 | from running totals, the loop raises exactly when some answer is not an integer; otherwise it adds the credited marks to the score, their number to the correct count, and every question's marks to the total |
| Scoring.Grade | exam_app/views.py:81-94 | raises exactly when some answer is not an integer; otherwise score is the sum of marks over credited questions and the correct count is their number; the total is the sum of all marks whatever the answers; the score is at most the total and the count at most the number of questions |
| Scoring.Percentage | exam_app/views.py:101 | 0 when there are no marks, with no division by zero; otherwise percentage times total equals score times 100; between 0 and 100 when score is at most total |
| ScoringProperties.MarksOfPermutation | exam_app/views.py:87-88 | reordering the questions does not change the total marks |
| ScoringProperties.CreditedPermutation | exam_app/views.py:90-94 | reordering the questions only reorders the credited questions |
| ScoringProperties.GradeIgnoresOrder | exam_app/views.py:54-55 | grading any shuffled presentation order gives the same result as the stored order, failure included |
| ScoringProperties.GradeMonotone | exam_app/views.py:92-94 | a submission crediting every question another credits never scores less or counts fewer correct |
| ScoringProperties.AnsweringNeverLowers | exam_app/views.py:90-94 | answering a previously missing or blank question with any integer never lowers the score |
| ScoringProperties.ReplacingCorrectNeverRaises | exam_app/views.py:90-94 | replacing a correct answer by another integer or a blank never raises the score |
| ScoringProperties.BlankSameAsMissing | exam_app/views.py:90-92 | a blank answer and a missing key are graded identically: no marks, no count, no error |
| ScoringProperties.EmptySubmission | exam_app/views.py:81-94 | an empty form grades to score 0 and count 0 without error, with the total still the sum of all marks |
| ScoringProperties.OutOfRangeAnswerEarnsNothing | exam_app/models.py:32-38 | when every correct answer is one of the four options, a posted option outside 1..4 is graded like a blank |
| ScoringProperties.ScoringScenarios | exam_app/tests.py:23-48 | two one-mark questions (correct options 2 and 3): answers 2,1 score 1 and answers 2,3 score 2; as further examples beyond those two cases, the percentages are 50 and 100 and an empty form scores 0 (0%) |
| Lifecycle.Start | exam_app/views.py:47-61 | an unknown exam is not found and changes nothing; otherwise a new default attempt is always added under a fresh id, duplicates allowed, other attempts unchanged, and the countdown equals the full limit, which is the new attempt's remaining time |
| Lifecycle.Submit | exam_app/views.py:66-111 | non-POST, not-owned or already-submitted requests change nothing; a non-integer answer raises and changes nothing; a POST by the owner on an unsubmitted attempt whose answers all parse is always finalized: the attempt alone becomes submitted at now with the graded score, the summary reports the credited marks and count, total marks, question count and percentage, and late holds exactly when elapsed exceeds the limit plus 10 seconds |
| LifecycleProperties.SecondSubmitRefused | exam_app/views.py:72-74 | after a finalized submission, any later POST by the owner is refused and keeps the first score and completion time |
| LifecycleProperties.LatenessOnlyWarns | exam_app/views.py:77-79 | submitting the same form at two times ends the same way, with identical figures and stored score apart from the late flag |
| LifecycleProperties.StartKeepsValid | exam_app/views.py:51 | starting keeps every attempt linked to an existing exam, ids fresh, and every attempt consistent |
| LifecycleProperties.SubmitKeepsValid | exam_app/views.py:96-99 | submitting keeps the store invariant: a finalized attempt has a completion time not before its start |
| LifecycleProperties.Run | exam_app/views.py:66-99 | along any time-ordered run of starts and submits the store invariant holds, no attempt disappears, and a submitted attempt never changes again |

## Left out

- HTTP routing, login enforcement, templates, flash messages and redirects are not modelled. The late warning appears only as `Summary.late`. The redirect that `exam_app/tests.py:36` expects is about the response, not about grading.
- Registration, forms, the staff dashboards and the admin screens are left out. They are wrappers over the ORM.
- Bulk question import (`exam_app/views.py:219-255`, `exam_app/admin.py`) and the seed data command are left out. They are file parsing and fixtures.
- `random.shuffle` is not modelled. A presentation order is any permutation of the exam's questions, and `ScoringProperties.GradeIgnoresOrder` covers all of them.
- The clock is not modelled. Times are whole seconds passed in by the caller; with those, the float `total_seconds()` and the `int()` truncation in `time_remaining` change nothing.
- Floats are not modelled. The stored score is a float column, but the model keeps it as a natural number. The percentage is an exact real, without float rounding.
- String-to-integer parsing is not modelled. It is abstracted into the three-way `Answer`, and the `question_<id>` form keys are replaced by question ids.
- The race between two concurrent submissions of one attempt is not modelled. The model is sequential.
- The 32-bit upper bound of the database's positive integer columns is not modelled. The model's integers are unbounded.
- Question texts and options, exam titles, descriptions, pass marks and creation times are not modelled, and neither is the student profile. No core logic reads them.
- The exam's stored `total_questions` column is not modelled. Submission counts the live questions instead.
