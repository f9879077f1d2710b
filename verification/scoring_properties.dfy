/**
 * Properties of the scoring engine that relate several gradings: the result
 * does not depend on question order, unanswered questions are inert, and
 * better answers never lower the score.
 */
module ScoringProperties {
  import opened Results
  import opened Models
  import opened Scoring

  lemma {:induction false} MarksOfConcat(xs: seq<Question>, ys: seq<Question>)
    ensures MarksOf(xs + ys) == MarksOf(xs) + MarksOf(ys)
    decreases |xs|
  {
    if |xs| == 0 {
      assert xs + ys == ys;
    } else {
      assert (xs + ys)[1..] == xs[1..] + ys;
      MarksOfConcat(xs[1..], ys);
    }
  }

  lemma {:induction false} CreditedConcat(xs: seq<Question>, ys: seq<Question>, answers: Answers)
    ensures CreditedQuestions(xs + ys, answers)
            == CreditedQuestions(xs, answers) + CreditedQuestions(ys, answers)
    decreases |xs|
  {
    if |xs| == 0 {
      assert xs + ys == ys;
    } else {
      assert (xs + ys)[1..] == xs[1..] + ys;
      CreditedConcat(xs[1..], ys, answers);
    }
  }

  /**
   * Finds the first question of `xs` in its permutation `ys`; what is left
   * of `ys` around it is a permutation of the rest of `xs`.
   */
  lemma MatchFirst(xs: seq<Question>, ys: seq<Question>) returns (front: seq<Question>, back: seq<Question>)
    requires |xs| > 0 && multiset(xs) == multiset(ys)
    ensures ys == front + [xs[0]] + back
    ensures multiset(xs[1..]) == multiset(front + back)
  {
    var x := xs[0];
    assert xs == [x] + xs[1..];
    assert x in multiset(ys);
    var i :| 0 <= i < |ys| && ys[i] == x;
    front, back := ys[..i], ys[i+1..];
    assert ys == front + [x] + back;
    calc {
      multiset(xs[1..]);
      multiset(xs) - multiset{x};
      multiset(ys) - multiset{x};
      multiset(front) + multiset(back);
      multiset(front + back);
    }
  }

  /** Reordering the questions does not change the marks available. */
  lemma {:induction false} MarksOfPermutation(xs: seq<Question>, ys: seq<Question>)
    requires multiset(xs) == multiset(ys)
    ensures MarksOf(xs) == MarksOf(ys)
    decreases |xs|
  {
    if |xs| == 0 {
      assert |ys| == |multiset(ys)| == 0;
    } else {
      var x := xs[0];
      assert xs == [x] + xs[1..];
      var front, back := MatchFirst(xs, ys);
      MarksOfPermutation(xs[1..], front + back);
      MarksOfConcat(front, back);
      MarksOfConcat(front, [x]);
      MarksOfConcat(front + [x], back);
    }
  }

  /** Reordering the questions reorders the credited ones and nothing more. */
  lemma {:induction false} CreditedPermutation(xs: seq<Question>, ys: seq<Question>, answers: Answers)
    requires multiset(xs) == multiset(ys)
    ensures multiset(CreditedQuestions(xs, answers)) == multiset(CreditedQuestions(ys, answers))
    decreases |xs|
  {
    if |xs| == 0 {
      assert |ys| == |multiset(ys)| == 0;
    } else {
      var x := xs[0];
      assert xs == [x] + xs[1..];
      var front, back := MatchFirst(xs, ys);
      CreditedPermutation(xs[1..], front + back, answers);
      CreditedConcat(front, back, answers);
      CreditedConcat(front, [x], answers);
      CreditedConcat(front + [x], back, answers);
      CreditedConcat([x], xs[1..], answers);
    }
  }

  /** Two gradings agree when they agree on failure and on the three totals. */
  lemma SameGrade(xs: seq<Question>, a: Answers, ys: seq<Question>, b: Answers)
    requires AnyUnparseable(xs, a) <==> AnyUnparseable(ys, b)
    requires MarksOf(xs) == MarksOf(ys)
    requires MarksOf(CreditedQuestions(xs, a)) == MarksOf(CreditedQuestions(ys, b))
    requires |CreditedQuestions(xs, a)| == |CreditedQuestions(ys, b)|
    ensures Grade(xs, a) == Grade(ys, b)
  {
    var rx, ry := Grade(xs, a), Grade(ys, b);
    if rx.Success? {
      assert rx.value == ry.value;
    } else {
      assert rx.error == ry.error;
    }
  }

  /**
   * Grading is independent of question order: presenting the questions in
   * any shuffled order cannot change the score, the correct count, the total
   * or whether the submission raises.
   */
  lemma GradeIgnoresOrder(xs: seq<Question>, ys: seq<Question>, answers: Answers)
    requires multiset(xs) == multiset(ys)
    ensures Grade(xs, answers) == Grade(ys, answers)
  {
    assert forall q :: q in xs <==> q in ys by {
      forall q ensures q in xs <==> q in ys {
        assert q in xs <==> q in multiset(xs);
        assert q in ys <==> q in multiset(ys);
      }
    }
    MarksOfPermutation(xs, ys);
    CreditedPermutation(xs, ys, answers);
    var cx, cy := CreditedQuestions(xs, answers), CreditedQuestions(ys, answers);
    MarksOfPermutation(cx, cy);
    assert |cx| == |multiset(cx)| == |multiset(cy)| == |cy|;
    SameGrade(xs, answers, ys, answers);
  }

  /** Two submissions that credit the same questions credit them identically. */
  lemma {:induction false} CreditedCongruent(qs: seq<Question>, a: Answers, b: Answers)
    requires forall q :: q in qs ==> (Credited(q, a) <==> Credited(q, b))
    ensures CreditedQuestions(qs, a) == CreditedQuestions(qs, b)
    decreases |qs|
  {
    if |qs| > 0 {
      assert qs == [qs[0]] + qs[1..];
      CreditedCongruent(qs[1..], a, b);
    }
  }

  /** Crediting more questions never earns fewer marks or fewer correct answers. */
  lemma {:induction false} CreditedMonotone(qs: seq<Question>, a: Answers, b: Answers)
    requires forall q :: q in qs && Credited(q, a) ==> Credited(q, b)
    ensures MarksOf(CreditedQuestions(qs, a)) <= MarksOf(CreditedQuestions(qs, b))
    ensures |CreditedQuestions(qs, a)| <= |CreditedQuestions(qs, b)|
    decreases |qs|
  {
    if |qs| > 0 {
      assert qs == [qs[0]] + qs[1..];
      CreditedMonotone(qs[1..], a, b);
      CreditedConcat([qs[0]], qs[1..], a);
      CreditedConcat([qs[0]], qs[1..], b);
      MarksOfConcat(CreditedQuestions([qs[0]], a), CreditedQuestions(qs[1..], a));
      MarksOfConcat(CreditedQuestions([qs[0]], b), CreditedQuestions(qs[1..], b));
    }
  }

  /**
   * Scoring is monotonic: a submission that credits every question another
   * one credits scores at least as much and has at least as many correct.
   */
  lemma GradeMonotone(qs: seq<Question>, a: Answers, b: Answers)
    requires forall q :: q in qs && Credited(q, a) ==> Credited(q, b)
    requires Grade(qs, a).Success? && Grade(qs, b).Success?
    ensures Grade(qs, a).value.score <= Grade(qs, b).value.score
    ensures Grade(qs, a).value.correctCount <= Grade(qs, b).value.correctCount
  {
    CreditedMonotone(qs, a, b);
  }

  /**
   * A question left out of the form and one submitted empty are graded
   * alike: neither earns anything and neither is an error.
   */
  lemma BlankSameAsMissing(qs: seq<Question>, answers: Answers, k: QuestionId)
    ensures Grade(qs, answers - {k}) == Grade(qs, answers[k := Blank])
  {
    var missing, blank := answers - {k}, answers[k := Blank];
    CreditedCongruent(qs, missing, blank);
    assert AnyUnparseable(qs, missing) <==> AnyUnparseable(qs, blank) by {
      assert forall q :: Unparseable(q, missing) <==> Unparseable(q, blank);
    }
    SameGrade(qs, missing, qs, blank);
  }

  /** An empty form scores nothing, raises nothing, and still totals every question's marks. */
  lemma EmptySubmission(qs: seq<Question>)
    ensures Grade(qs, map[]) == Success(Tally(0, 0, MarksOf(qs)))
  {
  }

  /** Answering a question that was unanswered never lowers the score. */
  lemma AnsweringNeverLowers(qs: seq<Question>, answers: Answers, k: QuestionId, n: int)
    requires k !in answers || answers[k] == Blank
    requires Grade(qs, answers).Success?
    ensures Grade(qs, answers[k := Number(n)]).Success?
    ensures Grade(qs, answers).value.score <= Grade(qs, answers[k := Number(n)]).value.score
  {
    var after := answers[k := Number(n)];
    assert !AnyUnparseable(qs, after) by {
      assert forall q :: Unparseable(q, after) ==> Unparseable(q, answers);
    }
    GradeMonotone(qs, answers, after);
  }

  /**
   * Replacing the correct answer to a question by any other integer, or by
   * a blank, never raises the score.
   */
  lemma ReplacingCorrectNeverRaises(qs: seq<Question>, answers: Answers, k: QuestionId, v: Answer)
    requires v != NotANumber
    requires forall q :: q in qs && q.id == k ==> Credited(q, answers)
    requires Grade(qs, answers).Success?
    ensures Grade(qs, answers[k := v]).Success?
    ensures Grade(qs, answers[k := v]).value.score <= Grade(qs, answers).value.score
  {
    var after := answers[k := v];
    assert !AnyUnparseable(qs, after) by {
      assert forall q :: Unparseable(q, after) ==> Unparseable(q, answers);
    }
    GradeMonotone(qs, after, answers);
  }

  /**
   * When every question names one of the four options, a forged answer
   * outside 1..4 is graded exactly like a blank.
   */
  lemma OutOfRangeAnswerEarnsNothing(qs: seq<Question>, answers: Answers, k: QuestionId, n: int)
    requires forall q :: q in qs ==> q.HasValidChoice()
    requires n < FirstChoice || LastChoice < n
    ensures Grade(qs, answers[k := Number(n)]) == Grade(qs, answers[k := Blank])
  {
    var forged, blank := answers[k := Number(n)], answers[k := Blank];
    CreditedCongruent(qs, forged, blank);
    assert AnyUnparseable(qs, forged) <==> AnyUnparseable(qs, blank) by {
      assert forall q :: Unparseable(q, forged) <==> Unparseable(q, blank);
    }
    SameGrade(qs, forged, qs, blank);
  }

  /**
   * Two one-mark questions with correct options 2 and 3: answers 2 and 1
   * score 1, answers 2 and 3 score 2. As further examples, those scores are
   * 50% and 100%, and an empty form scores 0 (0%).
   */
  lemma ScoringScenarios()
    ensures var qs := [Question(1, 2, 1), Question(2, 3, 1)];
            && Grade(qs, map[1 := Number(2), 2 := Number(1)]) == Success(Tally(1, 1, 2))
            && Grade(qs, map[1 := Number(2), 2 := Number(3)]) == Success(Tally(2, 2, 2))
            && Grade(qs, map[]) == Success(Tally(0, 0, 2))
            && Percentage(1, 2) == 50.0 && Percentage(2, 2) == 100.0 && Percentage(0, 2) == 0.0
  {
    var qs := [Question(1, 2, 1), Question(2, 3, 1)];
    EmptySubmission(qs);
  }
}
