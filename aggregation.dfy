/**
 * The statistics `calculateStats` derives from a subject's counters
 * (hooks/useAttendanceStats.ts): the attendance percentage, the target
 * (75 when unset), the three-way status and `classesToRecover`, the number
 * of consecutive attended classes that would bring the percentage back up
 * to the target. Percentages are exact reals; every comparison is also
 * restated over integers by cross-multiplication.
 */
module Aggregation {
  import opened Wrappers
  import opened Dates
  import opened Reconciliation

  /** `sub.target_percentage || 75`: an unset or zero target means 75. */
  function TargetOf(sub: Subject): (target: int)
    ensures target != 0
    ensures sub.targetPercentage.Some? && sub.targetPercentage.value != 0 ==> target == sub.targetPercentage.value
    ensures sub.targetPercentage == None || sub.targetPercentage.value == 0 ==> target == 75
  {
    match sub.targetPercentage
    case Some(t) => if t != 0 then t else 75
    case None => 75
  }

  /** The attendance percentage: 100 with no classes, else presences per class times 100. */
  function Percentage(present: nat, total: nat): (pct: real)
    ensures total == 0 ==> pct == 100.0
    ensures total > 0 ==> pct * total as real == present as real * 100.0
    ensures present <= total ==> 0.0 <= pct <= 100.0
  {
    if total > 0 then (present as real / total as real) * 100.0 else 100.0
  }

  datatype AttendanceStatus = Safe | AtRisk | OnTrack

  /** AT_RISK below the target, SAFE more than ten points above it, ON_TRACK otherwise. */
  function StatusOf(pct: real, target: int): (s: AttendanceStatus)
    ensures s == AtRisk <==> pct < target as real
    ensures s == Safe <==> pct > target as real + 10.0
    ensures s == OnTrack <==> target as real <= pct <= target as real + 10.0
  {
    if pct < target as real then AtRisk
    else if pct > target as real + 10.0 then Safe
    else OnTrack
  }

  /** With at least one class, the status is decided by integer cross-multiplication. */
  lemma StatusByCounts(present: nat, total: nat, target: int)
    requires total > 0
    ensures StatusOf(Percentage(present, total), target) == AtRisk <==> present * 100 < target * total
    ensures StatusOf(Percentage(present, total), target) == Safe <==> present * 100 > (target + 10) * total
    ensures StatusOf(Percentage(present, total), target) == OnTrack
        <==> target * total <= present * 100 <= (target + 10) * total
  {
    var pct := Percentage(present, total);
    var tr := total as real;
    assert pct == present as real * 100.0 / tr;
    PercentageCompare(present, total, target);
    PercentageCompare(present, total, target + 10);
  }

  /** The percentage is below a bound exactly when the presences are, cross-multiplied. */
  lemma PercentageCompare(present: nat, total: nat, bound: int)
    requires total > 0
    ensures Percentage(present, total) < bound as real <==> present * 100 < bound * total
    ensures Percentage(present, total) > bound as real <==> present * 100 > bound * total
  {
    var pct := Percentage(present, total);
    var tr := total as real;
    assert pct * tr == (present * 100) as real;
    assert (bound * total) as real == bound as real * tr;
    if pct < bound as real {
      assert pct * tr < bound as real * tr;
    }
    if pct > bound as real {
      assert pct * tr > bound as real * tr;
    }
    if pct >= bound as real {
      assert pct * tr >= bound as real * tr;
    }
    if pct <= bound as real {
      assert pct * tr <= bound as real * tr;
    }
  }

  /** Scaling by a positive factor keeps the order. */
  lemma ScaleOrder(x: real, y: real, c: real)
    requires c > 0.0
    ensures x <= y <==> x * c <= y * c
    ensures x < y <==> x * c < y * c
  {
    if x <= y {
      assert (y - x) * c >= 0.0;
    } else {
      assert (x - y) * c > 0.0;
    }
  }

  /** Attendance exactly at the target is ON_TRACK, not AT_RISK. */
  lemma AtTargetIsOnTrack(present: nat, total: nat, target: int)
    requires total > 0 && present * 100 == target * total
    ensures StatusOf(Percentage(present, total), target) == OnTrack
  {
    StatusByCounts(present, total, target);
  }

  /**
   * A subject with no classes yet has percentage 100, so it is SAFE for any
   * target below 90 and AT_RISK only for a target above 100.
   */
  lemma NoClassesStatus(target: int)
    ensures StatusOf(Percentage(0, 0), target) == Safe <==> target < 90
    ensures StatusOf(Percentage(0, 0), target) == AtRisk <==> target > 100
  {
  }

  // ---------------------------------------------------------------------------
  // classesToRecover

  /**
   * The guard of the recovery loop, `(p / t) * 100 < target`. With `t == 0`
   * the division is `0 / 0`, not a number, and the comparison is false.
   */
  predicate StillBelow(p: int, t: int, target: int) {
    t > 0 && p * 100 < target * t
  }

  /** Still below the target after attending `k` more classes. */
  predicate BelowAfter(p: int, t: int, target: int, k: int) {
    StillBelow(p + k, t + k, target)
  }

  /** `k` is the least number of attended classes that stops the loop. */
  predicate LeastRecovery(p: int, t: int, target: int, k: nat) {
    !BelowAfter(p, t, target, k) && forall j :: 0 <= j < k ==> BelowAfter(p, t, target, j)
  }

  /** What the recovery search yields: a class count, or no count at all. */
  datatype Recovery = Classes(count: nat) | Unreachable

  /** Division rounded up, for a positive divisor. */
  function CeilDiv(a: nat, b: nat): (q: nat)
    requires b > 0
    ensures q * b >= a
    ensures (q - 1) * b < a
  {
    (a + b - 1) / b
  }

  /**
   * The recovery count in closed form: none needed when not below the target;
   * none possible when the target is 100 or more (each attended class then
   * leaves the shortfall where it was or widens it); otherwise the shortfall
   * `target * t - 100 * p` divided by what each attended class gains,
   * `100 - target`, rounded up.
   */
  function RecoveryCount(p: nat, t: nat, target: int): Recovery {
    if !StillBelow(p, t, target) then Classes(0)
    else if target >= 100 then Unreachable
    else Classes(CeilDiv(target * t - p * 100, 100 - target))
  }

  /** After `k` attended classes the shortfall has changed by `k * (100 - target)`. */
  lemma ShortfallAfter(p: int, t: int, target: int, k: int)
    ensures target * (t + k) - (p + k) * 100 == (target * t - p * 100) - k * (100 - target)
    ensures BelowAfter(p, t, target, k) <==> t + k > 0 && (target * t - p * 100) - k * (100 - target) > 0
  {
  }

  lemma MulMonotone(a: int, b: int, d: int)
    requires a <= b && d >= 0
    ensures a * d <= b * d
  {
    assert b * d - a * d == (b - a) * d;
  }

  /** The closed form is the least `k` that brings the percentage up to the target. */
  lemma RecoveryCountIsLeast(p: nat, t: nat, target: int)
    requires RecoveryCount(p, t, target).Classes?
    ensures LeastRecovery(p, t, target, RecoveryCount(p, t, target).count)
  {
    if StillBelow(p, t, target) {
      var g := target * t - p * 100;
      var d := 100 - target;
      var k := CeilDiv(g, d);
      ShortfallAfter(p, t, target, k);
      forall j | 0 <= j < k
        ensures BelowAfter(p, t, target, j)
      {
        ShortfallAfter(p, t, target, j);
        MulMonotone(j, k - 1, d);
      }
    } else {
      assert !BelowAfter(p, t, target, 0);
    }
  }

  /** With a target of 100 or more, once below the target every further attended class stays below it. */
  lemma RecoveryNeverEnds(p: nat, t: nat, target: int, k: nat)
    requires target >= 100 && StillBelow(p, t, target)
    ensures BelowAfter(p, t, target, k)
  {
    ShortfallAfter(p, t, target, k);
    MulMonotone(0, k, target - 100);
  }

  /**
   * With the classes fixed, one more presence strictly lowers the number of
   * classes to recover while the subject is below a reachable target.
   */
  lemma RecoveryMonotone(p: nat, t: nat, target: int)
    requires target < 100 && StillBelow(p, t, target)
    ensures RecoveryCount(p + 1, t, target).Classes?
    ensures RecoveryCount(p + 1, t, target).count < RecoveryCount(p, t, target).count
  {
    var g := target * t - p * 100;
    var d := 100 - target;
    var q := CeilDiv(g, d);
    if StillBelow(p + 1, t, target) {
      var q' := CeilDiv(g - 100, d);
      if q' >= q {
        MulMonotone(q - 1, q' - 1, d);
        assert false;
      }
    }
  }

  /** There is only one least recovery count. */
  lemma LeastRecoveryUnique(p: int, t: int, target: int, k1: nat, k2: nat)
    requires LeastRecovery(p, t, target, k1) && LeastRecovery(p, t, target, k2)
    ensures k1 == k2
  {
  }

  /**
   * `classesToRecover`: when the percentage is below the target, attend one
   * class at a time until it is not. The search is cut short when it cannot
   * end, which is the case exactly when the target is 100 or more.
   */
  method ClassesToRecover(present: nat, total: nat, target: int) returns (r: Recovery)
    ensures r.Classes? ==> LeastRecovery(present, total, target, r.count)
    ensures r == Unreachable <==> target >= 100 && StillBelow(present, total, target)
    ensures r == Unreachable ==> forall k: nat :: BelowAfter(present, total, target, k)
    ensures r == RecoveryCount(present, total, target)
  {
    var classesToRecover: nat := 0;
    if Percentage(present, total) < target as real {
      var p, t := present, total;
      if target >= 100 && StillBelow(p, t, target) {
        forall k: nat
          ensures BelowAfter(present, total, target, k)
        {
          RecoveryNeverEnds(present, total, target, k);
        }
        return Unreachable;
      }
      while StillBelow(p, t, target)
        invariant p == present + classesToRecover && t == total + classesToRecover
        invariant forall j :: 0 <= j < classesToRecover ==> BelowAfter(present, total, target, j)
        invariant target < 100 || !StillBelow(p, t, target)
        decreases target * t - p * 100
      {
        ShortfallAfter(p, t, target, 1);
        assert BelowAfter(present, total, target, classesToRecover);
        p, t := p + 1, t + 1;
        classesToRecover := classesToRecover + 1;
      }
      assert !BelowAfter(present, total, target, classesToRecover);
    } else {
      if total > 0 {
        PercentageCompare(present, total, target);
      }
      assert !BelowAfter(present, total, target, 0);
    }
    r := Classes(classesToRecover);
    RecoveryCountIsLeast(present, total, target);
    LeastRecoveryUnique(present, total, target, classesToRecover, RecoveryCount(present, total, target).count);
  }

  /**
   * The loop as written, run for at most `fuel` rounds: `Some(k)` when it
   * stops after `k` rounds, `None` when the fuel runs out first.
   */
  function RecoverAsWritten(p: nat, t: nat, target: int, fuel: nat): Option<nat>
    decreases fuel
  {
    if !StillBelow(p, t, target) then Some(0)
    else if fuel == 0 then None
    else
      match RecoverAsWritten(p + 1, t + 1, target, fuel - 1)
      case Some(k) => Some(k + 1)
      case None => None
  }

  /** As written, the loop never stops when the target is 100 or more and the percentage is below it. */
  lemma {:induction false} RecoverAsWrittenDiverges(p: nat, t: nat, target: int, fuel: nat)
    requires target >= 100 && StillBelow(p, t, target)
    decreases fuel
    ensures RecoverAsWritten(p, t, target, fuel) == None
  {
    if fuel > 0 {
      RecoveryNeverEnds(p, t, target, 1);
      RecoverAsWrittenDiverges(p + 1, t + 1, target, fuel - 1);
    }
  }

  /** One absence out of one class against a target of 100: the loop as written spins forever. */
  lemma OneAbsenceAtFullTarget(fuel: nat)
    ensures RecoverAsWritten(0, 1, 100, fuel) == None
    ensures RecoveryCount(0, 1, 100) == Unreachable
  {
    RecoverAsWrittenDiverges(0, 1, 100, fuel);
  }

  /** Where the loop as written stops, it has found the least `k` that reaches the target. */
  lemma {:induction false} RecoverAsWrittenIsLeast(p: nat, t: nat, target: int, fuel: nat)
    requires RecoverAsWritten(p, t, target, fuel).Some?
    decreases fuel
    ensures LeastRecovery(p, t, target, RecoverAsWritten(p, t, target, fuel).value)
  {
    var k := RecoverAsWritten(p, t, target, fuel).value;
    if StillBelow(p, t, target) {
      RecoverAsWrittenIsLeast(p + 1, t + 1, target, fuel - 1);
      assert LeastRecovery(p + 1, t + 1, target, k - 1);
      assert BelowAfter(p, t, target, 0);
      forall j | 0 < j < k
        ensures BelowAfter(p, t, target, j)
      {
        assert BelowAfter(p + 1, t + 1, target, j - 1);
      }
      assert !BelowAfter(p + 1, t + 1, target, k - 1);
    } else {
      assert !BelowAfter(p, t, target, 0);
    }
  }

  /** Where the loop as written stops, its count is the closed form. */
  lemma RecoverAsWrittenAgrees(p: nat, t: nat, target: int, fuel: nat)
    requires RecoverAsWritten(p, t, target, fuel).Some?
    ensures RecoveryCount(p, t, target) == Classes(RecoverAsWritten(p, t, target, fuel).value)
  {
    RecoverAsWrittenIsLeast(p, t, target, fuel);
    if target >= 100 && StillBelow(p, t, target) {
      RecoverAsWrittenDiverges(p, t, target, fuel);
    } else {
      RecoveryCountIsLeast(p, t, target);
      LeastRecoveryUnique(p, t, target, RecoverAsWritten(p, t, target, fuel).value, RecoveryCount(p, t, target).count);
    }
  }

  // ---------------------------------------------------------------------------
  // The record of one subject and the map over all subjects

  /** The `SubjectStats` record `calculateStats` builds for one subject. */
  datatype SubjectStats = SubjectStats(
    subjectId: string,
    subjectName: string,
    totalClasses: nat,
    present: nat,
    absent: nat,
    percentage: real,
    target: int,
    status: AttendanceStatus,
    classesToRecover: Recovery,
    days: Option<seq<string>>)

  /** The record built from a subject and the counters of its walk. */
  function StatsFromTally(sub: Subject, t: Tally): SubjectStats {
    var pct := Percentage(t.present, t.classes);
    var target := TargetOf(sub);
    SubjectStats(sub.id, sub.name, t.classes, t.present, t.absent, pct, target,
      StatusOf(pct, target), RecoveryCount(t.present, t.classes, target), sub.days)
  }

  /** The record of subject `sub` at instant `nowMs`, walking its whole window. */
  function StatsOf(sub: Subject, logs: seq<AttendanceLog>, nowMs: int): SubjectStats {
    StatsFromTally(sub, Walk(sub, logs, WindowStart(sub, logs), DayOf(nowMs) + 1))
  }

  /** The body of `subjects.map` in `calculateStats`: walk, then derive the statistics. */
  method ComputeSubjectStats(sub: Subject, logs: seq<AttendanceLog>, nowMs: int) returns (s: SubjectStats)
    ensures s == StatsOf(sub, logs, nowMs)
  {
    var tally := Reconcile(sub, logs, nowMs);
    var percentage := Percentage(tally.present, tally.classes);
    var target := TargetOf(sub);
    var status := OnTrack;
    if percentage < target as real {
      status := AtRisk;
    } else if percentage > target as real + 10.0 {
      status := Safe;
    }
    var classesToRecover := ClassesToRecover(tally.present, tally.classes, target);
    s := SubjectStats(sub.id, sub.name, tally.classes, tally.present, tally.absent, percentage, target,
      status, classesToRecover, sub.days);
  }

  /** `calculateStats` over all subjects: one record per subject, in the same order. */
  method CalculateStats(subjects: seq<Subject>, logs: seq<AttendanceLog>, nowMs: int) returns (stats: seq<SubjectStats>)
    ensures |stats| == |subjects|
    ensures forall i :: 0 <= i < |subjects| ==> stats[i] == StatsOf(subjects[i], logs, nowMs)
  {
    stats := [];
    for i := 0 to |subjects|
      invariant |stats| == i
      invariant forall j :: 0 <= j < i ==> stats[j] == StatsOf(subjects[j], logs, nowMs)
    {
      var s := ComputeSubjectStats(subjects[i], logs, nowMs);
      stats := stats + [s];
    }
  }

  /**
   * What every record promises: each class has one outcome, the percentage
   * lies in 0..100, the status agrees with the counters, and a recovery count
   * is asked for only for a subject at risk; none exists exactly when a
   * subject with classes is at risk against a target of 100 or more.
   */
  lemma StatsConsistent(sub: Subject, logs: seq<AttendanceLog>, nowMs: int)
    ensures var s := StatsOf(sub, logs, nowMs);
      && s.present + s.absent == s.totalClasses
      && 0.0 <= s.percentage <= 100.0
      && s.target == TargetOf(sub)
      && (s.status == AtRisk <==>
            (s.totalClasses > 0 && s.present * 100 < s.target * s.totalClasses) || (s.totalClasses == 0 && s.target > 100))
      && (s.classesToRecover != Classes(0) ==> s.status == AtRisk)
      && (s.classesToRecover == Unreachable <==> s.target >= 100 && s.totalClasses > 0 && s.status == AtRisk)
  {
    var t := Walk(sub, logs, WindowStart(sub, logs), DayOf(nowMs) + 1);
    WalkBalanced(sub, logs, WindowStart(sub, logs), DayOf(nowMs) + 1);
    if t.classes > 0 {
      StatusByCounts(t.present, t.classes, TargetOf(sub));
    }
  }

  /** A subject's record does not depend on other subjects' logs. */
  lemma StatsOnlySeeOwnLogs(sub: Subject, logs: seq<AttendanceLog>, nowMs: int)
    ensures StatsOf(sub, SubjectLogs(logs, sub.id), nowMs) == StatsOf(sub, logs, nowMs)
  {
    WindowStartOnlySeesSubjectLogs(sub, logs);
    WalkOnlySeesSubjectLogs(sub, logs, WindowStart(sub, logs), DayOf(nowMs) + 1);
  }

  /**
   * One present log out of four classes against the default target: 25%,
   * AT_RISK, and eight attended classes to recover (9 of 12 is 75%).
   */
  lemma OneOfFourStats(sub: Subject)
    requires sub.targetPercentage == None
    ensures var s := StatsFromTally(sub, Tally(4, 1, 3));
      s.percentage == 25.0 && s.target == 75 && s.status == AtRisk && s.classesToRecover == Classes(8)
  {
  }

  /**
   * The first week of a Monday/Wednesday/Friday subject created on Monday
   * 2024-01-01 with one present log on Wednesday the 3rd, seen at noon on
   * Monday the 8th: 25%, AT_RISK, and eight classes to recover.
   */
  lemma FirstWeekStats(sub: Subject, logs: seq<AttendanceLog>, nowMs: int)
    requires sub == Subject("s", "Maths", None, Some(["Mon", "Wed", "Fri"]), StartOfDay(19723))
    requires logs == [AttendanceLog("s", 19725, Present)]
    requires nowMs == StartOfDay(19730) + 12 * 3_600_000
    ensures var s := StatsOf(sub, logs, nowMs);
      s.totalClasses == 4 && s.present == 1 && s.absent == 3 && s.percentage == 25.0
      && s.status == AtRisk && s.classesToRecover == Classes(8)
  {
    FirstWeekReconciled(sub, logs, nowMs);
    OneOfFourStats(sub);
  }
}
