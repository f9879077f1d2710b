/**
 * The persisted records of the exam portal that the attempt lifecycle works on
 * (questions, exams, attempts) and the advisory countdown an attempt exposes.
 * Texts, option strings, titles and the profile record carry no logic and are
 * not modelled.
 */
module Models {
  import opened Results

  type UserId = nat
  type ExamId = nat
  type QuestionId = nat
  type AttemptId = nat

  /** Wall-clock time, in whole seconds. */
  type Time = int

  /** The first and last of the four options a question offers. */
  const FirstChoice: nat := 1
  const LastChoice: nat := 4

  /**
   * A multiple-choice question. Both numeric columns are non-negative
   * integers in the database; `marks` defaults to 1 but may be 0.
   */
  datatype Question = Question(id: QuestionId, correctAnswer: nat, marks: nat)
  {
    /**
     * The correct answer names one of the four options. The choices list only
     * constrains validated forms: a bulk import stores whatever integer the
     * file holds, so this is a predicate and not part of the type.
     */
    predicate HasValidChoice()
    {
      FirstChoice <= correctAnswer <= LastChoice
    }
  }

  /**
   * An exam: its time limit in minutes (non-negative, default 30) and its
   * questions in the order the database returns them.
   */
  datatype Exam = Exam(durationMinutes: nat, questions: seq<Question>)
  {
    /** The nominal time limit, in seconds. */
    function LimitSeconds(): nat
    {
      durationMinutes * 60
    }
  }

  /** One student's run through one exam. */
  datatype Attempt = Attempt(
    user: UserId,
    exam: ExamId,
    startedAt: Time,
    completedAt: Option<Time>,
    score: nat,
    isSubmitted: bool)

  /**
   * The record-level invariant of an attempt: it carries a completion time
   * exactly when it has been submitted, that time is not before its start,
   * and an attempt still in progress holds the default score.
   */
  predicate Consistent(a: Attempt)
  {
    && (a.isSubmitted <==> a.completedAt.Some?)
    && (a.completedAt.Some? ==> a.startedAt <= a.completedAt.value)
    && (!a.isSubmitted ==> a.score == 0)
  }

  /** A freshly created attempt: every column but the keys and start time at its default. */
  function NewAttempt(user: UserId, exam: ExamId, now: Time): (a: Attempt)
    ensures a.user == user && a.exam == exam && a.startedAt == now
    ensures !a.isSubmitted && a.score == 0 && a.completedAt == None
    ensures Consistent(a)
  {
    Attempt(user, exam, now, None, 0, false)
  }

  /**
   * Seconds left on an attempt's clock at time `now`, for display only.
   * With whole-second times the truncation to an integer changes nothing.
   */
  function TimeRemaining(a: Attempt, e: Exam, now: Time): (r: nat)
    ensures a.isSubmitted ==> r == 0
    ensures a.startedAt <= now ==> r <= e.LimitSeconds()
    ensures !a.isSubmitted && now - a.startedAt <= e.LimitSeconds() ==>
              r == e.LimitSeconds() - (now - a.startedAt)
    ensures now - a.startedAt >= e.LimitSeconds() ==> r == 0
  {
    if a.isSubmitted then 0
    else
      var elapsed := now - a.startedAt;
      var remaining := e.LimitSeconds() - elapsed;
      if remaining > 0 then remaining else 0
  }

  /** The countdown never goes up as the clock advances. */
  lemma TimeRemainingNeverIncreases(a: Attempt, e: Exam, earlier: Time, later: Time)
    requires earlier <= later
    ensures TimeRemaining(a, e, later) <= TimeRemaining(a, e, earlier)
  {
  }
}
