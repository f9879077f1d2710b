/**
 * The attempt lifecycle: starting an attempt on an exam and submitting it
 * once for grading, over a store of exams and attempts and an explicit clock.
 */
module Lifecycle {
  import opened Results
  import opened Models
  import opened Scoring

  /** Seconds past the time limit before a submission is reported late. */
  const GraceSeconds: nat := 10

  /** The HTTP verb of a request; only a POST submits. */
  datatype Verb = Get | Post | OtherVerb

  /** A submission request: its verb, the logged-in user and the posted form. */
  datatype Request = Request(verb: Verb, user: UserId, answers: Answers)

  /** The exams and attempts the core reads and writes, and the next attempt id to hand out. */
  datatype Store = Store(exams: map<ExamId, Exam>, attempts: map<AttemptId, Attempt>, nextAttempt: AttemptId)

  /** Every attempt refers to an exam that exists (deleting an exam deletes its attempts). */
  predicate Linked(s: Store)
  {
    forall k :: k in s.attempts ==> s.attempts[k].exam in s.exams
  }

  /** Every attempt id already handed out is below the next one. */
  predicate Fresh(s: Store)
  {
    forall k :: k in s.attempts ==> k < s.nextAttempt
  }

  /** The store-wide invariant: linked, fresh, and every attempt consistent. */
  predicate Valid(s: Store)
  {
    && Linked(s)
    && Fresh(s)
    && forall k :: k in s.attempts ==> Consistent(s.attempts[k])
  }

  /** No attempt in the store was started after `now`. */
  predicate StartedBy(s: Store, now: Time)
  {
    forall k :: k in s.attempts ==> s.attempts[k].startedAt <= now
  }

  /** The attempt exists and belongs to the user. */
  predicate Owns(s: Store, id: AttemptId, user: UserId)
  {
    id in s.attempts && s.attempts[id].user == user
  }

  /** A submission at `now` is late when more than the limit plus the grace period has elapsed. */
  predicate IsLate(a: Attempt, e: Exam, now: Time)
  {
    now - a.startedAt > e.LimitSeconds() + GraceSeconds
  }

  /** What starting an exam produces: the new attempt's id and the initial countdown. */
  datatype StartOutcome = ExamNotFound | Started(id: AttemptId, countdown: nat)

  datatype StartResponse = StartResponse(store: Store, outcome: StartOutcome)

  /**
   * Starts an attempt on an exam. An unknown exam is not found; otherwise a
   * new attempt with default columns is always created under a fresh id,
   * even if the user already has attempts on this exam in progress, and the
   * countdown shown is the full time limit.
   */
  function Start(s: Store, user: UserId, exam: ExamId, now: Time): (r: StartResponse)
    requires Fresh(s)
    ensures exam !in s.exams ==> r == StartResponse(s, ExamNotFound)
    ensures exam in s.exams ==>
              && r.outcome.Started?
              && r.outcome.id !in s.attempts
              && r.store.exams == s.exams
              && r.store.attempts.Keys == s.attempts.Keys + {r.outcome.id}
              && (forall k :: k in s.attempts ==> r.store.attempts[k] == s.attempts[k])
              && Fresh(r.store)
    ensures r.outcome.Started? ==>
              var a := r.store.attempts[r.outcome.id];
              && a.user == user && a.exam == exam && a.startedAt == now
              && !a.isSubmitted && a.score == 0 && a.completedAt == None
              && r.outcome.countdown == TimeRemaining(a, s.exams[exam], now)
  {
    if exam !in s.exams then StartResponse(s, ExamNotFound)
    else
      var id := s.nextAttempt;
      var a := NewAttempt(user, exam, now);
      var s' := s.(attempts := s.attempts[id := a], nextAttempt := id + 1);
      StartResponse(s', Started(id, s.exams[exam].durationMinutes * 60))
  }

  /** The figures shown after a successful submission, and whether it was reported late. */
  datatype Summary = Summary(
    score: nat,
    totalMarks: nat,
    correctCount: nat,
    totalQuestions: nat,
    percentage: real,
    late: bool)

  /**
   * How a submission ends: a non-POST request is sent home; an attempt that
   * does not exist or is someone else's is not found; a finalized attempt
   * is refused without regrading; a non-integer answer raises; otherwise
   * the attempt is finalized.
   */
  datatype SubmitOutcome =
    | NotPosted
    | NotFound
    | AlreadySubmitted
    | Rejected(error: GradeError)
    | Finalized(summary: Summary)

  datatype SubmitResponse = SubmitResponse(store: Store, outcome: SubmitOutcome)

  /**
   * Submits attempt `id` at time `now`. Only a POST by the attempt's owner
   * on an attempt not yet submitted changes anything; grading uses the
   * exam's questions as they are now. A late submission is only flagged,
   * and a value that is not an integer raises before anything is saved.
   */
  function Submit(s: Store, id: AttemptId, req: Request, now: Time): (r: SubmitResponse)
    requires Linked(s)
    ensures req.verb != Post ==> r == SubmitResponse(s, NotPosted)
    ensures req.verb == Post && !Owns(s, id, req.user) ==> r == SubmitResponse(s, NotFound)
    ensures req.verb == Post && Owns(s, id, req.user) && s.attempts[id].isSubmitted ==>
              r == SubmitResponse(s, AlreadySubmitted)
    ensures r.outcome.Rejected? <==>
              && req.verb == Post && Owns(s, id, req.user) && !s.attempts[id].isSubmitted
              && AnyUnparseable(s.exams[s.attempts[id].exam].questions, req.answers)
    ensures req.verb == Post && Owns(s, id, req.user) && !s.attempts[id].isSubmitted
              && !AnyUnparseable(s.exams[s.attempts[id].exam].questions, req.answers) ==>
              r.outcome.Finalized?
    ensures !r.outcome.Finalized? ==> r.store == s
    ensures r.outcome.Finalized? ==>
              && req.verb == Post && Owns(s, id, req.user) && !s.attempts[id].isSubmitted
              && id in r.store.attempts
              && var before, after := s.attempts[id], r.store.attempts[id];
              var qs := s.exams[before.exam].questions;
              var credited := CreditedQuestions(qs, req.answers);
              var summary := r.outcome.summary;
              && after == before.(score := summary.score, completedAt := Some(now), isSubmitted := true)
              && summary.score == MarksOf(credited)
              && summary.correctCount == |credited|
              && summary.totalMarks == MarksOf(qs)
              && summary.totalQuestions == |qs|
              && summary.score <= summary.totalMarks
              && summary.correctCount <= summary.totalQuestions
              && summary.percentage == Percentage(summary.score, summary.totalMarks)
              && (summary.late <==> now - before.startedAt > s.exams[before.exam].LimitSeconds() + GraceSeconds)
    ensures r.outcome.Finalized? ==>
              && r.store.exams == s.exams
              && r.store.nextAttempt == s.nextAttempt
              && r.store.attempts.Keys == s.attempts.Keys
              && forall k :: k in s.attempts && k != id ==> r.store.attempts[k] == s.attempts[k]
    ensures Linked(r.store)
  {
    if req.verb != Post then SubmitResponse(s, NotPosted)
    else if !Owns(s, id, req.user) then SubmitResponse(s, NotFound)
    else
      var a := s.attempts[id];
      if a.isSubmitted then SubmitResponse(s, AlreadySubmitted)
      else
        var exam := s.exams[a.exam];
        var late := IsLate(a, exam, now);
        match Grade(exam.questions, req.answers)
        case Failure(e) => SubmitResponse(s, Rejected(e))
        case Success(t) =>
          var done := a.(score := t.score, completedAt := Some(now), isSubmitted := true);
          var summary := Summary(t.score, t.totalMarks, t.correctCount, |exam.questions|,
                                 Percentage(t.score, t.totalMarks), late);
          SubmitResponse(s.(attempts := s.attempts[id := done]), Finalized(summary))
  }
}
