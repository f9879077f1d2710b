/**
 * The scoring engine run by a submission: one pass over an exam's questions
 * that totals the available marks and credits every question whose submitted
 * option equals its correct answer, and the percentage derived from it.
 */
module Scoring {
  import opened Results
  import opened Models

  /**
   * What the submitted form holds for one question, once present: an empty
   * string, a string that parses as an integer, or one that does not parse.
   * A question whose key the form lacks has no entry at all.
   */
  datatype Answer = Blank | Number(n: int) | NotANumber

  /** The submitted form, keyed by question id. */
  type Answers = map<QuestionId, Answer>

  /** Raised when a submitted value for one of the exam's questions is not an integer. */
  datatype GradeError = InvalidLiteral

  /** The three running totals of the grading loop. */
  datatype Tally = Tally(score: nat, correctCount: nat, totalMarks: nat)

  /** The question is answered, and answered with its correct option. */
  predicate Credited(q: Question, answers: Answers)
  {
    q.id in answers && answers[q.id] == Number(q.correctAnswer)
  }

  /** The question is answered with a value that does not parse as an integer. */
  predicate Unparseable(q: Question, answers: Answers)
  {
    q.id in answers && answers[q.id] == NotANumber
  }

  /** Some question of the list is answered with a value that does not parse. */
  predicate AnyUnparseable(qs: seq<Question>, answers: Answers)
  {
    exists q :: q in qs && Unparseable(q, answers)
  }

  /** The sum of the marks of a list of questions. */
  function MarksOf(qs: seq<Question>): nat
  {
    if |qs| == 0 then 0 else qs[0].marks + MarksOf(qs[1..])
  }

  /**
   * The credited questions of a list, in list order: exactly the credited
   * members, never more of them and never more marks than the whole list.
   */
  function CreditedQuestions(qs: seq<Question>, answers: Answers): (r: seq<Question>)
    ensures forall q :: q in r ==> q in qs && Credited(q, answers)
    ensures forall q :: q in qs && Credited(q, answers) ==> q in r
    ensures |r| <= |qs|
    ensures MarksOf(r) <= MarksOf(qs)
  {
    if |qs| == 0 then []
    else
      var rest := CreditedQuestions(qs[1..], answers);
      assert qs == [qs[0]] + qs[1..];
      if Credited(qs[0], answers) then
        assert ([qs[0]] + rest)[1..] == rest;
        [qs[0]] + rest
      else rest
  }

  /**
   * The grading loop from running totals `acc` over the remaining questions
   * `qs`, in order: each question adds its marks to the total, and its answer
   * either earns nothing (absent or blank), earns the question's marks and one
   * correct answer (the correct option), or raises (not an integer).
   */
  function GradeFrom(qs: seq<Question>, answers: Answers, acc: Tally): (r: Result<Tally, GradeError>)
    ensures r.Failure? <==> AnyUnparseable(qs, answers)
    ensures r.Success? ==>
              && r.value.score == acc.score + MarksOf(CreditedQuestions(qs, answers))
              && r.value.correctCount == acc.correctCount + |CreditedQuestions(qs, answers)|
              && r.value.totalMarks == acc.totalMarks + MarksOf(qs)
  {
    if |qs| == 0 then Success(acc)
    else
      var q := qs[0];
      assert qs == [q] + qs[1..];
      var counted := acc.(totalMarks := acc.totalMarks + q.marks);
      if q.id !in answers then GradeFrom(qs[1..], answers, counted)
      else
        match answers[q.id]
        case Blank => GradeFrom(qs[1..], answers, counted)
        case NotANumber =>
          assert q in qs && Unparseable(q, answers);
          Failure(InvalidLiteral)
        case Number(n) =>
          if n == q.correctAnswer then
            GradeFrom(qs[1..], answers, counted.(score := counted.score + q.marks,
                                                 correctCount := counted.correctCount + 1))
          else GradeFrom(qs[1..], answers, counted)
  }

  /**
   * Grades a submission against an exam's questions. It fails exactly when
   * some question's answer is not an integer; otherwise the score is the sum
   * of the marks of the credited questions, the correct count is their
   * number, and the total is every question's marks whatever was answered.
   */
  function Grade(qs: seq<Question>, answers: Answers): (r: Result<Tally, GradeError>)
    ensures r.Failure? <==> AnyUnparseable(qs, answers)
    ensures r.Success? ==>
              && r.value.score == MarksOf(CreditedQuestions(qs, answers))
              && r.value.correctCount == |CreditedQuestions(qs, answers)|
              && r.value.totalMarks == MarksOf(qs)
    ensures r.Success? ==> r.value.score <= r.value.totalMarks && r.value.correctCount <= |qs|
  {
    GradeFrom(qs, answers, Tally(0, 0, 0))
  }

  /**
   * The score as a percentage of the available marks, and 0 (not a division
   * by zero) when there are no marks to earn.
   */
  function Percentage(score: nat, totalMarks: nat): (p: real)
    ensures totalMarks == 0 ==> p == 0.0
    ensures totalMarks > 0 ==> p * (totalMarks as real) == (score as real) * 100.0
    ensures score <= totalMarks ==> 0.0 <= p <= 100.0
  {
    if totalMarks > 0 then (score as real) / (totalMarks as real) * 100.0 else 0.0
  }
}
