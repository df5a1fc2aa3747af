/**
 * The "Bunkometer" what-if simulator (components/Bunkometer.tsx): for the
 * subject on screen, two counters of classes the student plans to attend and
 * to skip feed a predicted percentage and a safe/unsafe verdict. The counters
 * are the component's state; the prediction is a function of them.
 */
module Bunkometer {
  import opened Wrappers
  import opened Reconciliation
  import opened Aggregation

  /** Presences after attending `attend` more classes. */
  function NewPresent(s: SubjectStats, attend: nat): nat {
    s.present + attend
  }

  /** Classes after attending `attend` more and skipping `bunk` more. */
  function NewTotal(s: SubjectStats, attend: nat, bunk: nat): nat {
    s.totalClasses + attend + bunk
  }

  /** The predicted percentage, with the engine's convention of 100 when there are no classes. */
  function PredictedPercentage(s: SubjectStats, attend: nat, bunk: nat): real {
    Percentage(NewPresent(s, attend), NewTotal(s, attend, bunk))
  }

  /** `isSafe`: the prediction reaches the target, the target itself included. */
  predicate PredictedSafe(s: SubjectStats, attend: nat, bunk: nat) {
    PredictedPercentage(s, attend, bunk) >= s.target as real
  }

  /** Two percentages compare as their cross-multiplied counts do. */
  lemma PercentageOrder(p1: nat, t1: nat, p2: nat, t2: nat)
    requires t1 > 0 && t2 > 0
    ensures Percentage(p1, t1) <= Percentage(p2, t2) <==> p1 * t2 <= p2 * t1
  {
    var a, b := Percentage(p1, t1), Percentage(p2, t2);
    var c := (t1 * t2) as real;
    ScaleOrder(a, b, c);
    assert a * c == (p1 * t2 * 100) as real by {
      assert a * c == a * t1 as real * t2 as real;
    }
    assert b * c == (p2 * t1 * 100) as real by {
      assert b * c == b * t2 as real * t1 as real;
    }
  }

  /**
   * The verdict by counts: with classes, safe exactly when the presences
   * times 100 reach the target times the classes; with none, the prediction
   * is 100 and is safe exactly for a target of at most 100.
   */
  lemma PredictedSafeByCounts(s: SubjectStats, attend: nat, bunk: nat)
    ensures NewTotal(s, attend, bunk) > 0 ==>
      (PredictedSafe(s, attend, bunk) <==> NewPresent(s, attend) * 100 >= s.target * NewTotal(s, attend, bunk))
    ensures NewTotal(s, attend, bunk) == 0 ==> (PredictedSafe(s, attend, bunk) <==> s.target <= 100)
  {
    if NewTotal(s, attend, bunk) > 0 {
      PercentageCompare(NewPresent(s, attend), NewTotal(s, attend, bunk), s.target);
    }
  }

  /**
   * With both counters at zero the prediction is the engine's percentage, and
   * the verdict is safe exactly when the engine does not report AT_RISK.
   */
  lemma UntouchedPredictionIsCurrent(sub: Subject, logs: seq<AttendanceLog>, nowMs: int)
    ensures var s := StatsOf(sub, logs, nowMs);
      PredictedPercentage(s, 0, 0) == s.percentage && (PredictedSafe(s, 0, 0) <==> s.status != AtRisk)
  {
  }

  /** With no more presences than classes, attending one more class never lowers the prediction. */
  lemma AttendingNeverLowers(s: SubjectStats, attend: nat, bunk: nat)
    requires s.present <= s.totalClasses
    ensures PredictedPercentage(s, attend, bunk) <= PredictedPercentage(s, attend + 1, bunk)
  {
    var p, t := NewPresent(s, attend), NewTotal(s, attend, bunk);
    if t > 0 {
      PercentageOrder(p, t, p + 1, t + 1);
      assert p * (t + 1) <= (p + 1) * t;
    }
  }

  /** With no more presences than classes, skipping one more class never raises the prediction. */
  lemma SkippingNeverRaises(s: SubjectStats, attend: nat, bunk: nat)
    requires s.present <= s.totalClasses
    ensures PredictedPercentage(s, attend, bunk + 1) <= PredictedPercentage(s, attend, bunk)
  {
    var p, t := NewPresent(s, attend), NewTotal(s, attend, bunk);
    if t > 0 {
      PercentageOrder(p, t + 1, p, t);
      assert p * t <= p * (t + 1);
    }
  }

  /** Five of ten at a 75% target: attending the next ten classes gives exactly 75%, which is safe. */
  lemma TenMoreReachTarget(s: SubjectStats)
    requires s.present == 5 && s.totalClasses == 10 && s.target == 75
    ensures PredictedPercentage(s, 10, 0) == 75.0 && PredictedSafe(s, 10, 0)
    ensures !PredictedSafe(s, 9, 0)
  {
    PercentageCompare(14, 19, 75);
  }

  /**
   * The component's state: the subject on screen (none when the dialog has
   * no subject) and the two simulation counters.
   */
  class Simulator {
    var subject: Option<SubjectStats>
    var attendCount: int
    var bunkCount: int

    /** The counters are never negative. */
    predicate Valid()
      reads this
    {
      attendCount >= 0 && bunkCount >= 0
    }

    /** Both counters start at zero. */
    constructor (s: Option<SubjectStats>)
      ensures Valid()
      ensures subject == s && attendCount == 0 && bunkCount == 0
    {
      subject := s;
      attendCount := 0;
      bunkCount := 0;
    }

    /** A new subject resets both counters. */
    method ChangeSubject(s: Option<SubjectStats>)
      modifies this
      ensures Valid()
      ensures subject == s && attendCount == 0 && bunkCount == 0
    {
      subject := s;
      attendCount := 0;
      bunkCount := 0;
    }

    /** The attend "plus" button. */
    method IncrementAttend()
      requires Valid()
      modifies this
      ensures Valid()
      ensures attendCount == old(attendCount) + 1 && bunkCount == old(bunkCount) && subject == old(subject)
      ensures subject.Some? && subject.value.present <= subject.value.totalClasses ==>
        old(PredictedPercentage(subject.value, attendCount, bunkCount))
          <= PredictedPercentage(subject.value, attendCount, bunkCount)
    {
      attendCount := attendCount + 1;
      if subject.Some? && subject.value.present <= subject.value.totalClasses {
        AttendingNeverLowers(subject.value, attendCount - 1, bunkCount);
      }
    }

    /** The attend "minus" button: one fewer, but never below zero. */
    method DecrementAttend()
      requires Valid()
      modifies this
      ensures Valid()
      ensures attendCount == Max(0, old(attendCount) - 1) && bunkCount == old(bunkCount) && subject == old(subject)
    {
      attendCount := Max(0, attendCount - 1);
    }

    /** The bunk "plus" button. */
    method IncrementBunk()
      requires Valid()
      modifies this
      ensures Valid()
      ensures bunkCount == old(bunkCount) + 1 && attendCount == old(attendCount) && subject == old(subject)
      ensures subject.Some? && subject.value.present <= subject.value.totalClasses ==>
        PredictedPercentage(subject.value, attendCount, bunkCount)
          <= old(PredictedPercentage(subject.value, attendCount, bunkCount))
    {
      bunkCount := bunkCount + 1;
      if subject.Some? && subject.value.present <= subject.value.totalClasses {
        SkippingNeverRaises(subject.value, attendCount, bunkCount - 1);
      }
    }

    /** The bunk "minus" button: one fewer, but never below zero. */
    method DecrementBunk()
      requires Valid()
      modifies this
      ensures Valid()
      ensures bunkCount == Max(0, old(bunkCount) - 1) && attendCount == old(attendCount) && subject == old(subject)
    {
      bunkCount := Max(0, bunkCount - 1);
    }

    /** The prediction on screen: nothing without a subject. */
    function Predicted(): (r: Option<real>)
      requires Valid()
      reads this
      ensures r.None? <==> subject.None?
      ensures subject.Some? && NewTotal(subject.value, attendCount, bunkCount) == 0 ==> r == Some(100.0)
      ensures subject.Some? && NewTotal(subject.value, attendCount, bunkCount) > 0 ==>
        r.value * NewTotal(subject.value, attendCount, bunkCount) as real == NewPresent(subject.value, attendCount) as real * 100.0
    {
      match subject
      case None => None
      case Some(s) => Some(PredictedPercentage(s, attendCount, bunkCount))
    }

    /** The verdict on screen: nothing without a subject. */
    function IsSafe(): (r: Option<bool>)
      requires Valid()
      reads this
      ensures r.None? <==> subject.None?
      ensures subject.Some? && NewTotal(subject.value, attendCount, bunkCount) > 0 ==>
        (r == Some(true) <==> NewPresent(subject.value, attendCount) * 100 >= subject.value.target * NewTotal(subject.value, attendCount, bunkCount))
      ensures subject.Some? && NewTotal(subject.value, attendCount, bunkCount) == 0 ==>
        (r == Some(true) <==> subject.value.target <= 100)
    {
      match subject
      case None => None
      case Some(s) =>
        PredictedSafeByCounts(s, attendCount, bunkCount);
        Some(PredictedSafe(s, attendCount, bunkCount))
    }
  }
}
