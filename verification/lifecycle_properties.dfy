/**
 * Properties of the attempt lifecycle across calls: a second submission is
 * refused, lateness never changes the grade, the store invariant is kept,
 * and a submitted attempt is never changed by any later start or submit.
 */
module LifecycleProperties {
  import opened Results
  import opened Models
  import opened Lifecycle

  /**
   * Submission is idempotent by refusal: once an attempt is finalized, any
   * later POST by its owner, whatever it carries and whenever it arrives, is
   * refused and leaves the first score and completion time in place.
   */
  lemma SecondSubmitRefused(s: Store, id: AttemptId, req: Request, now: Time, again: Request, later: Time)
    requires Linked(s)
    requires Submit(s, id, req, now).outcome.Finalized?
    requires again.verb == Post && again.user == req.user
    ensures var first := Submit(s, id, req, now).store;
            && Submit(first, id, again, later) == SubmitResponse(first, AlreadySubmitted)
            && first.attempts[id].isSubmitted
            && first.attempts[id].completedAt == Some(now)
  {
  }

  /**
   * Lateness only warns: submitting the same form at two different times
   * ends the same way, and when it finalizes, every figure but the late flag
   * and the stored score are the same.
   */
  lemma LatenessOnlyWarns(s: Store, id: AttemptId, req: Request, t1: Time, t2: Time)
    requires Linked(s)
    ensures var r1, r2 := Submit(s, id, req, t1), Submit(s, id, req, t2);
            && (r1.outcome.Finalized? <==> r2.outcome.Finalized?)
            && (!r1.outcome.Finalized? ==> r1 == r2)
            && (r1.outcome.Finalized? ==>
                  && r1.outcome.summary.(late := false) == r2.outcome.summary.(late := false)
                  && r1.store.attempts[id].score == r2.store.attempts[id].score)
  {
  }

  /** Starting an attempt keeps the store invariant. */
  lemma StartKeepsValid(s: Store, user: UserId, exam: ExamId, now: Time)
    requires Valid(s) && StartedBy(s, now)
    ensures Valid(Start(s, user, exam, now).store)
    ensures StartedBy(Start(s, user, exam, now).store, now)
  {
  }

  /**
   * Submitting keeps the store invariant: the finalized attempt carries a
   * completion time, not before its start, exactly because it is submitted.
   */
  lemma SubmitKeepsValid(s: Store, id: AttemptId, req: Request, now: Time)
    requires Valid(s) && StartedBy(s, now)
    ensures Valid(Submit(s, id, req, now).store)
    ensures StartedBy(Submit(s, id, req, now).store, now)
  {
  }

  /** One request against the store: starting an exam or submitting an attempt, at a time. */
  datatype Event =
    | Begin(user: UserId, exam: ExamId, at: Time)
    | Send(id: AttemptId, req: Request, at: Time)

  /** Events arrive at or after `now`, in time order. */
  predicate Chronological(now: Time, events: seq<Event>)
    decreases |events|
  {
    |events| == 0 || (now <= events[0].at && Chronological(events[0].at, events[1..]))
  }

  /** The store after one event. */
  function Step(s: Store, e: Event): (r: Store)
    requires Valid(s)
    ensures s.attempts.Keys <= r.attempts.Keys
    ensures forall k :: k in s.attempts && s.attempts[k].isSubmitted ==> r.attempts[k] == s.attempts[k]
  {
    match e
    case Begin(user, exam, at) => Start(s, user, exam, at).store
    case Send(id, req, at) => Submit(s, id, req, at).store
  }

  /** Any event at or after `now` keeps the store invariant. */
  lemma StepKeepsValid(s: Store, now: Time, e: Event)
    requires Valid(s) && StartedBy(s, now) && now <= e.at
    ensures Valid(Step(s, e)) && StartedBy(Step(s, e), e.at)
  {
    match e
    case Begin(user, exam, at) => StartKeepsValid(s, user, exam, at);
    case Send(id, req, at) => SubmitKeepsValid(s, id, req, at);
  }

  /**
   * The store after a run of events. Along any run the invariant is kept,
   * no attempt disappears, and an attempt submitted at the start keeps its
   * score and completion time to the end: it is mutated at most once.
   */
  function Run(s: Store, now: Time, events: seq<Event>): (r: Store)
    requires Valid(s) && StartedBy(s, now) && Chronological(now, events)
    ensures Valid(r)
    ensures s.attempts.Keys <= r.attempts.Keys
    ensures forall k :: k in s.attempts && s.attempts[k].isSubmitted ==> r.attempts[k] == s.attempts[k]
    decreases |events|
  {
    if |events| == 0 then s
    else
      var e := events[0];
      var next := Step(s, e);
      StepKeepsValid(s, now, e);
      Run(next, e.at, events[1..])
  }
}
