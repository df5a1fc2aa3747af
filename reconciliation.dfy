/**
 * The per-subject reconciliation walk of `calculateStats`
 * (hooks/useAttendanceStats.ts): from the earlier of the subject's creation
 * and its first log, through today, every calendar day counts the larger of
 * its theoretical class (scheduled and not cancelled) and its present/absent
 * logs; each such log is tallied on its own, and a scheduled day left
 * unlogged is an implicit absence.
 *
 * `Walk` is the specification of the loop, stated through how many present,
 * absent and cancelled logs each day holds; `Reconcile` is the loop itself,
 * which filters the log list day by day as the source does.
 */
module Reconciliation {
  import opened Wrappers
  import opened Dates

  datatype LogStatus = Present | Absent | Cancelled

  /** One attendance log; `day` is the day number of its `YYYY-MM-DD` date. */
  datatype AttendanceLog = AttendanceLog(subjectId: string, day: int, status: LogStatus)

  /**
   * A subject as stored. `targetPercentage` and `days` may be null;
   * `createdAtMs` is the creation instant as a local timestamp.
   */
  datatype Subject = Subject(
    id: string,
    name: string,
    targetPercentage: Option<int>,
    days: Option<seq<string>>,
    createdAtMs: int)

  /** The three counters of the walk: `totalClasses`, `presentCount`, `absentCount`. */
  datatype Tally = Tally(classes: nat, present: nat, absent: nat)

  /** Every counted class has exactly one outcome. */
  predicate Balanced(t: Tally) { t.present + t.absent == t.classes }

  function Plus(a: Tally, b: Tally): Tally {
    Tally(a.classes + b.classes, a.present + b.present, a.absent + b.absent)
  }

  // ---------------------------------------------------------------------------
  // The filters the loop applies to the log list

  /** `logs.filter(l => l.subject_id === sid)`. */
  function SubjectLogs(logs: seq<AttendanceLog>, sid: string): (r: seq<AttendanceLog>)
    ensures |r| <= |logs|
    ensures forall i :: 0 <= i < |r| ==> r[i].subjectId == sid
  {
    if logs == [] then []
    else
      var last := logs[|logs| - 1];
      SubjectLogs(logs[..|logs| - 1], sid) + (if last.subjectId == sid then [last] else [])
  }

  /** `logs.filter(l => l.subject_id === sid && l.date === dateStr)`. */
  function DayLogs(logs: seq<AttendanceLog>, sid: string, d: int): (r: seq<AttendanceLog>)
    ensures |r| <= |logs|
    ensures forall i :: 0 <= i < |r| ==> r[i].subjectId == sid && r[i].day == d
  {
    if logs == [] then []
    else
      var last := logs[|logs| - 1];
      DayLogs(logs[..|logs| - 1], sid, d) + (if last.subjectId == sid && last.day == d then [last] else [])
  }

  /** How many logs in `ls` have status `st`. */
  function CountStatus(ls: seq<AttendanceLog>, st: LogStatus): (n: nat)
    ensures n <= |ls|
  {
    if ls == [] then 0
    else CountStatus(ls[..|ls| - 1], st) + (if ls[|ls| - 1].status == st then 1 else 0)
  }

  /** `dayLogs.filter(l => l.status !== 'cancelled')`. */
  function ActiveLogs(ls: seq<AttendanceLog>): (r: seq<AttendanceLog>)
    ensures CountStatus(r, Cancelled) == 0
    ensures CountStatus(r, Present) == CountStatus(ls, Present)
    ensures CountStatus(r, Absent) == CountStatus(ls, Absent)
    ensures |r| == CountStatus(ls, Present) + CountStatus(ls, Absent)
    ensures forall x :: x in r <==> x in ls && x.status != Cancelled
  {
    if ls == [] then []
    else
      var init, last := ls[..|ls| - 1], ls[|ls| - 1];
      assert ls == init + [last];
      if last.status == Cancelled then ActiveLogs(init)
      else
        var r := ActiveLogs(init) + [last];
        assert r[..|r| - 1] == ActiveLogs(init);
        r
  }

  /** `dayLogs.some(l => l.status === 'cancelled')`. */
  predicate HasCancelled(ls: seq<AttendanceLog>) {
    CountStatus(ls, Cancelled) > 0
  }

  /** `sub.days || []`. */
  function ScheduledDays(sub: Subject): seq<string> {
    match sub.days
    case None => []
    case Some(ds) => ds
  }

  /** `scheduledDays.includes(dayName)` for the weekday name of day `d`. */
  predicate IsScheduled(sub: Subject, d: int) {
    ShortName(WeekdayOf(d)) in ScheduledDays(sub)
  }

  // ---------------------------------------------------------------------------
  // Specification of the walk

  /**
   * How many of the first `n` logs belong to subject `sid`, have status
   * `st` and are dated in `lo` .. `hi - 1`.
   */
  function CountLogs(logs: seq<AttendanceLog>, n: nat, sid: string, st: LogStatus, lo: int, hi: int): nat
    requires n <= |logs|
  {
    if n == 0 then 0
    else
      CountLogs(logs, n - 1, sid, st, lo, hi)
        + (if logs[n - 1].subjectId == sid && logs[n - 1].status == st && lo <= logs[n - 1].day < hi then 1 else 0)
  }

  /** How many logs of subject `sid` dated day `d` have status `st`. */
  function DayCount(logs: seq<AttendanceLog>, sid: string, d: int, st: LogStatus): nat {
    CountLogs(logs, |logs|, sid, st, d, d + 1)
  }

  /**
   * What one day adds to the three counters, from whether its weekday is
   * scheduled and how many present, absent and cancelled logs it holds:
   * it counts the larger of its theoretical class and its present/absent
   * logs; each such log has its own outcome, and a day with a class but no
   * such log is one implicit absence.
   */
  function DayOutcome(scheduled: bool, present: nat, absent: nat, cancelled: nat): Tally {
    var active := present + absent;
    var theoretical := if scheduled && cancelled == 0 then 1 else 0;
    var classes := Max(theoretical, active);
    if active > 0 then Tally(classes, present, absent)
    else if classes > 0 then Tally(classes, 0, 1)
    else Tally(classes, 0, 0)
  }

  /** What day `d` of the walk adds to the counters of subject `sub`. */
  function DayTally(sub: Subject, logs: seq<AttendanceLog>, d: int): Tally {
    DayOutcome(IsScheduled(sub, d),
      DayCount(logs, sub.id, d, Present), DayCount(logs, sub.id, d, Absent), DayCount(logs, sub.id, d, Cancelled))
  }

  /** The counters after walking the days `lo` .. `hi - 1` in order. */
  function Walk(sub: Subject, logs: seq<AttendanceLog>, lo: int, hi: int): Tally
    decreases hi - lo
  {
    if hi <= lo then Tally(0, 0, 0)
    else Plus(Walk(sub, logs, lo, hi - 1), DayTally(sub, logs, hi - 1))
  }

  /** The earliest date among `ls`: the first element after sorting by date. */
  function EarliestLogDay(ls: seq<AttendanceLog>): (d: int)
    requires ls != []
    ensures exists i :: 0 <= i < |ls| && ls[i].day == d
    ensures forall i :: 0 <= i < |ls| ==> d <= ls[i].day
  {
    if |ls| == 1 then ls[0].day
    else
      var e := EarliestLogDay(ls[..|ls| - 1]);
      if ls[|ls| - 1].day < e then ls[|ls| - 1].day else e
  }

  /**
   * The first day of the walk: the creation instant, moved back to the
   * first log's midnight when that is earlier, then truncated to its day.
   */
  function WindowStart(sub: Subject, logs: seq<AttendanceLog>): int {
    var subjectLogs := SubjectLogs(logs, sub.id);
    var startMs :=
      if subjectLogs != [] && StartOfDay(EarliestLogDay(subjectLogs)) < sub.createdAtMs
      then StartOfDay(EarliestLogDay(subjectLogs))
      else sub.createdAtMs;
    DayOf(startMs)
  }

  /** Walking one more day adds that day's tally. */
  lemma WalkStep(sub: Subject, logs: seq<AttendanceLog>, lo: int, d: int)
    requires lo <= d
    ensures Walk(sub, logs, lo, d + 1) == Plus(Walk(sub, logs, lo, d), DayTally(sub, logs, d))
  {
  }

  /** The counters after one more day are the counters so far plus that day's tally. */
  lemma WalkExtend(sub: Subject, logs: seq<AttendanceLog>, lo: int, d: int, classes: nat, present: nat, absent: nat, dt: Tally)
    requires lo <= d && Tally(classes, present, absent) == Walk(sub, logs, lo, d) && dt == DayTally(sub, logs, d)
    ensures Tally(classes + dt.classes, present + dt.present, absent + dt.absent) == Walk(sub, logs, lo, d + 1)
  {
    WalkStep(sub, logs, lo, d);
  }

  /** Every class of the walk has exactly one outcome, so the presences never exceed the classes. */
  lemma {:induction false} WalkBalanced(sub: Subject, logs: seq<AttendanceLog>, lo: int, hi: int)
    decreases hi - lo
    ensures Balanced(Walk(sub, logs, lo, hi))
    ensures Walk(sub, logs, lo, hi).present <= Walk(sub, logs, lo, hi).classes
  {
    if lo < hi {
      WalkBalanced(sub, logs, lo, hi - 1);
      WalkStep(sub, logs, lo, hi - 1);
      DayOutcomeBalanced(IsScheduled(sub, hi - 1), DayCount(logs, sub.id, hi - 1, Present),
        DayCount(logs, sub.id, hi - 1, Absent), DayCount(logs, sub.id, hi - 1, Cancelled));
    }
  }

  // ---------------------------------------------------------------------------
  // The loop

  /** Counting one status among the first `n + 1` logs adds the status of log `n`. */
  lemma CountStatusSnoc(ls: seq<AttendanceLog>, x: AttendanceLog, st: LogStatus)
    ensures CountStatus(ls + [x], st) == CountStatus(ls, st) + (if x.status == st then 1 else 0)
  {
    assert (ls + [x])[..|ls|] == ls;
  }

  /** Filtering a day's logs out of the first `n` logs and counting one status gives that day's count. */
  lemma {:induction false} CountOfDayLogs(logs: seq<AttendanceLog>, n: nat, sid: string, d: int, st: LogStatus)
    requires n <= |logs|
    ensures CountStatus(DayLogs(logs[..n], sid, d), st) == CountLogs(logs, n, sid, st, d, d + 1)
  {
    if n > 0 {
      CountOfDayLogs(logs, n - 1, sid, d, st);
      var prefix := logs[..n];
      assert prefix[..n - 1] == logs[..n - 1];
      var x := logs[n - 1];
      if x.subjectId == sid && x.day == d {
        assert DayLogs(prefix, sid, d) == DayLogs(logs[..n - 1], sid, d) + [x];
        CountStatusSnoc(DayLogs(logs[..n - 1], sid, d), x, st);
      } else {
        assert DayLogs(prefix, sid, d) == DayLogs(logs[..n - 1], sid, d);
      }
    }
  }

  /** A day's tally, stated through the logs the loop filters out for that day. */
  lemma DayTallyOfDayLogs(sub: Subject, logs: seq<AttendanceLog>, d: int)
    ensures DayTally(sub, logs, d) == DayOutcome(IsScheduled(sub, d),
      CountStatus(DayLogs(logs, sub.id, d), Present),
      CountStatus(DayLogs(logs, sub.id, d), Absent),
      CountStatus(DayLogs(logs, sub.id, d), Cancelled))
  {
    assert logs[..|logs|] == logs;
    CountOfDayLogs(logs, |logs|, sub.id, d, Present);
    CountOfDayLogs(logs, |logs|, sub.id, d, Absent);
    CountOfDayLogs(logs, |logs|, sub.id, d, Cancelled);
  }

  /**
   * `activeLogs.forEach(...)`: one present per present log and one absence
   * per absent log.
   */
  method TallyExplicitLogs(activeLogs: seq<AttendanceLog>) returns (present: nat, absent: nat)
    ensures present == CountStatus(activeLogs, Present)
    ensures absent == CountStatus(activeLogs, Absent)
  {
    present, absent := 0, 0;
    var i := 0;
    while i < |activeLogs|
      invariant 0 <= i <= |activeLogs|
      invariant present == CountStatus(activeLogs[..i], Present)
      invariant absent == CountStatus(activeLogs[..i], Absent)
    {
      var log := activeLogs[i];
      if log.status == Present {
        present := present + 1;
      } else if log.status == Absent {
        absent := absent + 1;
      }
      assert activeLogs[..i + 1][..i] == activeLogs[..i];
      i := i + 1;
    }
    assert activeLogs[..i] == activeLogs;
  }

  /** One step of the walk: what day `d` adds to the counters. */
  method ReconcileDay(sub: Subject, logs: seq<AttendanceLog>, d: int) returns (dt: Tally)
    ensures dt == DayTally(sub, logs, d)
    ensures dt.present + dt.absent == dt.classes
  {
    var dayLogs := DayLogs(logs, sub.id, d);
    var activeLogs := ActiveLogs(dayLogs);
    var isCancelledDay := HasCancelled(dayLogs);
    var isScheduled := ShortName(WeekdayOf(d)) in ScheduledDays(sub);
    var theoreticalClasses := if isScheduled && !isCancelledDay then 1 else 0;

    var classesThisDay := Max(theoreticalClasses, |activeLogs|);
    if |activeLogs| > 0 {
      // Explicit logs: each one is tallied by its own status.
      var present, absent := TallyExplicitLogs(activeLogs);
      dt := Tally(classesThisDay, present, absent);
    } else if classesThisDay > 0 {
      // Implicit absence: a scheduled, uncancelled day with no logs.
      dt := Tally(classesThisDay, 0, 1);
    } else {
      dt := Tally(classesThisDay, 0, 0);
    }

    assert dt == DayOutcome(isScheduled,
      CountStatus(dayLogs, Present), CountStatus(dayLogs, Absent), CountStatus(dayLogs, Cancelled));
    DayTallyOfDayLogs(sub, logs, d);
  }

  /**
   * The reconciliation loop for one subject, with "now" given as a local
   * timestamp. Its counters are those of `Walk` over the window from
   * `WindowStart` through today, and every class has one outcome.
   */
  method Reconcile(sub: Subject, logs: seq<AttendanceLog>, nowMs: int) returns (t: Tally)
    ensures t == Walk(sub, logs, WindowStart(sub, logs), DayOf(nowMs) + 1)
    ensures t.present + t.absent == t.classes
  {
    var totalClasses: nat, presentCount: nat, absentCount: nat := 0, 0, 0;

    var subjectLogs := SubjectLogs(logs, sub.id);
    var startMs := sub.createdAtMs;
    if subjectLogs != [] {
      var firstLogDay := EarliestLogDay(subjectLogs);
      if StartOfDay(firstLogDay) < startMs {
        startMs := StartOfDay(firstLogDay);
      }
    }
    var startDay := DayOf(startMs);
    assert startDay == WindowStart(sub, logs);
    var today := DayOf(nowMs);
    var todayEnd := EndOfDay(today);

    var cursor := startDay;
    while StartOfDay(cursor) <= todayEnd
      invariant startDay <= cursor
      invariant cursor == startDay || cursor <= today + 1
      invariant Tally(totalClasses, presentCount, absentCount) == Walk(sub, logs, startDay, cursor)
      invariant presentCount + absentCount == totalClasses
      decreases todayEnd - StartOfDay(cursor)
    {
      MidnightNotAfterEndOfDay(cursor, today);
      var dt := ReconcileDay(sub, logs, cursor);
      WalkExtend(sub, logs, startDay, cursor, totalClasses, presentCount, absentCount, dt);
      totalClasses := totalClasses + dt.classes;
      presentCount := presentCount + dt.present;
      absentCount := absentCount + dt.absent;
      cursor := cursor + 1;
    }
    MidnightNotAfterEndOfDay(cursor, today);
    assert cursor == today + 1 || today + 1 < startDay;
    t := Tally(totalClasses, presentCount, absentCount);
  }

  // ---------------------------------------------------------------------------
  // One day of the walk

  /** Every class a day counts has exactly one outcome. */
  lemma DayOutcomeBalanced(scheduled: bool, present: nat, absent: nat, cancelled: nat)
    ensures Balanced(DayOutcome(scheduled, present, absent, cancelled))
  {
  }

  /** A day counts the larger of its theoretical class and its present/absent logs. */
  lemma DayClasses(scheduled: bool, present: nat, absent: nat, cancelled: nat)
    ensures DayOutcome(scheduled, present, absent, cancelled).classes
         == Max(if scheduled && cancelled == 0 then 1 else 0, present + absent)
  {
  }

  /** A cancelled day with no present or absent log adds nothing at all, scheduled or not. */
  lemma CancelledDayAddsNothing(scheduled: bool, cancelled: nat)
    requires cancelled > 0
    ensures DayOutcome(scheduled, 0, 0, cancelled) == Tally(0, 0, 0)
  {
  }

  /** A scheduled day without any log is one class and one (implicit) absence. */
  lemma UnloggedScheduledDayIsAbsence()
    ensures DayOutcome(true, 0, 0, 0) == Tally(1, 0, 1)
  {
  }

  /** An unscheduled day without present or absent logs adds nothing. */
  lemma UnscheduledQuietDayAddsNothing(cancelled: nat)
    ensures DayOutcome(false, 0, 0, cancelled) == Tally(0, 0, 0)
  {
  }

  /**
   * On a day with present or absent logs every such log is one class with
   * its own outcome, however many there are and whether or not the day is
   * scheduled or cancelled (extra classes always count).
   */
  lemma LoggedDayCountsEachLog(scheduled: bool, present: nat, absent: nat, cancelled: nat)
    requires present + absent > 0
    ensures DayOutcome(scheduled, present, absent, cancelled) == Tally(present + absent, present, absent)
  {
  }

  /** A day is an implicit absence when it is scheduled, not cancelled, and has no present or absent log. */
  predicate ImplicitAbsence(sub: Subject, logs: seq<AttendanceLog>, d: int) {
    && IsScheduled(sub, d)
    && DayCount(logs, sub.id, d, Cancelled) == 0
    && DayCount(logs, sub.id, d, Present) + DayCount(logs, sub.id, d, Absent) == 0
  }

  /**
   * A day's presences are its present logs, and its absences its absent
   * logs plus one when it has a class but no present or absent log.
   */
  lemma DayOutcomeCounts(scheduled: bool, present: nat, absent: nat, cancelled: nat)
    ensures DayOutcome(scheduled, present, absent, cancelled).present == present
    ensures DayOutcome(scheduled, present, absent, cancelled).absent
         == absent + (if scheduled && cancelled == 0 && present + absent == 0 then 1 else 0)
  {
  }

  /** What a day adds: its present logs, its absent logs, plus one absence if it is an implicit absence. */
  lemma DayTallyCounts(sub: Subject, logs: seq<AttendanceLog>, d: int)
    ensures DayTally(sub, logs, d).present == DayCount(logs, sub.id, d, Present)
    ensures DayTally(sub, logs, d).absent
         == DayCount(logs, sub.id, d, Absent) + (if ImplicitAbsence(sub, logs, d) then 1 else 0)
  {
    DayOutcomeCounts(IsScheduled(sub, d),
      DayCount(logs, sub.id, d, Present), DayCount(logs, sub.id, d, Absent), DayCount(logs, sub.id, d, Cancelled));
  }

  // ---------------------------------------------------------------------------
  // The whole walk

  /** How many days in `lo` .. `hi - 1` are implicit absences. */
  function ImplicitAbsences(sub: Subject, logs: seq<AttendanceLog>, lo: int, hi: int): nat
    decreases hi - lo
  {
    if hi <= lo then 0
    else ImplicitAbsences(sub, logs, lo, hi - 1) + (if ImplicitAbsence(sub, logs, hi - 1) then 1 else 0)
  }

  lemma {:induction false} CountLogsEmpty(logs: seq<AttendanceLog>, n: nat, sid: string, st: LogStatus, lo: int, hi: int)
    requires n <= |logs| && hi <= lo
    ensures CountLogs(logs, n, sid, st, lo, hi) == 0
  {
    if n > 0 {
      CountLogsEmpty(logs, n - 1, sid, st, lo, hi);
    }
  }

  /** Splitting a date range splits the count of its logs. */
  lemma {:induction false} CountLogsSplit(logs: seq<AttendanceLog>, n: nat, sid: string, st: LogStatus, lo: int, mid: int, hi: int)
    requires n <= |logs| && lo <= mid <= hi
    ensures CountLogs(logs, n, sid, st, lo, hi)
         == CountLogs(logs, n, sid, st, lo, mid) + CountLogs(logs, n, sid, st, mid, hi)
  {
    if n > 0 {
      CountLogsSplit(logs, n - 1, sid, st, lo, mid, hi);
    }
  }

  /**
   * Every present log of the subject dated inside the walked days is one
   * present, every absent log one absence, and the remaining absences are
   * exactly the implicit-absence days.
   */
  lemma {:induction false} WalkCountsEveryLog(sub: Subject, logs: seq<AttendanceLog>, lo: int, hi: int)
    decreases hi - lo
    ensures Walk(sub, logs, lo, hi).present == CountLogs(logs, |logs|, sub.id, Present, lo, hi)
    ensures Walk(sub, logs, lo, hi).absent
         == CountLogs(logs, |logs|, sub.id, Absent, lo, hi) + ImplicitAbsences(sub, logs, lo, hi)
  {
    if hi <= lo {
      CountLogsEmpty(logs, |logs|, sub.id, Present, lo, hi);
      CountLogsEmpty(logs, |logs|, sub.id, Absent, lo, hi);
    } else {
      WalkCountsEveryLog(sub, logs, lo, hi - 1);
      WalkStep(sub, logs, lo, hi - 1);
      DayTallyCounts(sub, logs, hi - 1);
      CountLogsSplit(logs, |logs|, sub.id, Present, lo, hi - 1, hi);
      CountLogsSplit(logs, |logs|, sub.id, Absent, lo, hi - 1, hi);
    }
  }

  /** How many of the first `n` logs belong to subject `sid`, have status `st` and are dated on or before `today`. */
  function LoggedUpTo(logs: seq<AttendanceLog>, n: nat, sid: string, st: LogStatus, today: int): nat
    requires n <= |logs|
  {
    if n == 0 then 0
    else
      LoggedUpTo(logs, n - 1, sid, st, today)
        + (if logs[n - 1].subjectId == sid && logs[n - 1].status == st && logs[n - 1].day <= today then 1 else 0)
  }

  /** When no log of the subject predates `lo`, a range from `lo` misses none of its logs. */
  lemma {:induction false} CountLogsFromFirst(logs: seq<AttendanceLog>, n: nat, sid: string, st: LogStatus, lo: int, hi: int)
    requires n <= |logs|
    requires forall i :: 0 <= i < |logs| && logs[i].subjectId == sid ==> lo <= logs[i].day
    ensures CountLogs(logs, n, sid, st, lo, hi) == LoggedUpTo(logs, n, sid, st, hi - 1)
  {
    if n > 0 {
      CountLogsFromFirst(logs, n - 1, sid, st, lo, hi);
    }
  }

  /** Every log of subject `sid` is one of `SubjectLogs(logs, sid)`. */
  lemma {:induction false} SubjectLogsKeepsOwn(logs: seq<AttendanceLog>, sid: string, i: int)
    requires 0 <= i < |logs| && logs[i].subjectId == sid
    ensures exists j :: 0 <= j < |SubjectLogs(logs, sid)| && SubjectLogs(logs, sid)[j] == logs[i]
  {
    var init := logs[..|logs| - 1];
    var sl := SubjectLogs(logs, sid);
    if i == |logs| - 1 {
      assert sl[|sl| - 1] == logs[i];
    } else {
      SubjectLogsKeepsOwn(init, sid, i);
      var j :| 0 <= j < |SubjectLogs(init, sid)| && SubjectLogs(init, sid)[j] == init[i];
      assert sl[j] == logs[i];
    }
  }

  /**
   * The window starts on the earlier of the creation day and the day of the
   * subject's earliest log, so no log of the subject predates it.
   */
  lemma WindowStartIsEarliest(sub: Subject, logs: seq<AttendanceLog>)
    ensures WindowStart(sub, logs) <= DayOf(sub.createdAtMs)
    ensures forall i :: 0 <= i < |logs| && logs[i].subjectId == sub.id ==> WindowStart(sub, logs) <= logs[i].day
    ensures SubjectLogs(logs, sub.id) == [] ==> WindowStart(sub, logs) == DayOf(sub.createdAtMs)
    ensures SubjectLogs(logs, sub.id) != [] ==>
      var e := EarliestLogDay(SubjectLogs(logs, sub.id));
      WindowStart(sub, logs) == if e < DayOf(sub.createdAtMs) then e else DayOf(sub.createdAtMs)
  {
    var sl := SubjectLogs(logs, sub.id);
    if sl != [] {
      var e := EarliestLogDay(sl);
      DayOfMin(StartOfDay(e), sub.createdAtMs);
      assert DayOf(StartOfDay(e)) == e;
    }
    forall i | 0 <= i < |logs| && logs[i].subjectId == sub.id
      ensures WindowStart(sub, logs) <= logs[i].day
    {
      SubjectLogsKeepsOwn(logs, sub.id, i);
    }
  }

  /**
   * Over the whole window the presences are exactly the subject's present
   * logs dated up to today, and the absences its absent logs dated up to
   * today plus the implicit-absence days; logs dated after today never count.
   */
  lemma ReconciledCounts(sub: Subject, logs: seq<AttendanceLog>, today: int)
    ensures Walk(sub, logs, WindowStart(sub, logs), today + 1).present == LoggedUpTo(logs, |logs|, sub.id, Present, today)
    ensures Walk(sub, logs, WindowStart(sub, logs), today + 1).absent
         == LoggedUpTo(logs, |logs|, sub.id, Absent, today) + ImplicitAbsences(sub, logs, WindowStart(sub, logs), today + 1)
  {
    var lo := WindowStart(sub, logs);
    WindowStartIsEarliest(sub, logs);
    WalkCountsEveryLog(sub, logs, lo, today + 1);
    CountLogsFromFirst(logs, |logs|, sub.id, Present, lo, today + 1);
    CountLogsFromFirst(logs, |logs|, sub.id, Absent, lo, today + 1);
  }

  // ---------------------------------------------------------------------------
  // Logs of other subjects

  /** Counting over two lists that agree on their first `n` logs gives the same count. */
  lemma {:induction false} CountLogsSamePrefix(a: seq<AttendanceLog>, b: seq<AttendanceLog>, n: nat, sid: string, st: LogStatus, lo: int, hi: int)
    requires n <= |a| && n <= |b|
    requires forall i :: 0 <= i < n ==> a[i] == b[i]
    ensures CountLogs(a, n, sid, st, lo, hi) == CountLogs(b, n, sid, st, lo, hi)
  {
    if n > 0 {
      CountLogsSamePrefix(a, b, n - 1, sid, st, lo, hi);
    }
  }

  /** Dropping other subjects' logs does not change the count of subject `sid`'s logs. */
  lemma {:induction false} CountLogsOfSubjectLogs(logs: seq<AttendanceLog>, sid: string, st: LogStatus, lo: int, hi: int)
    ensures CountLogs(SubjectLogs(logs, sid), |SubjectLogs(logs, sid)|, sid, st, lo, hi)
         == CountLogs(logs, |logs|, sid, st, lo, hi)
  {
    if logs != [] {
      var init, last := logs[..|logs| - 1], logs[|logs| - 1];
      CountLogsOfSubjectLogs(init, sid, st, lo, hi);
      CountLogsSamePrefix(logs, init, |init|, sid, st, lo, hi);
      var si := SubjectLogs(init, sid);
      var sl := SubjectLogs(logs, sid);
      if last.subjectId == sid {
        assert sl == si + [last];
        CountLogsSamePrefix(sl, si, |si|, sid, st, lo, hi);
      } else {
        assert sl == si;
      }
    }
  }

  lemma {:induction false} SubjectLogsIdempotent(logs: seq<AttendanceLog>, sid: string)
    ensures SubjectLogs(SubjectLogs(logs, sid), sid) == SubjectLogs(logs, sid)
  {
    if logs != [] {
      var init, last := logs[..|logs| - 1], logs[|logs| - 1];
      SubjectLogsIdempotent(init, sid);
      var sl := SubjectLogs(logs, sid);
      if last.subjectId == sid {
        assert sl[..|sl| - 1] == SubjectLogs(init, sid);
      } else {
        assert sl == SubjectLogs(init, sid);
      }
    }
  }

  /** The counters of a subject do not depend on other subjects' logs. */
  lemma {:induction false} WalkOnlySeesSubjectLogs(sub: Subject, logs: seq<AttendanceLog>, lo: int, hi: int)
    decreases hi - lo
    ensures Walk(sub, SubjectLogs(logs, sub.id), lo, hi) == Walk(sub, logs, lo, hi)
  {
    if lo < hi {
      WalkOnlySeesSubjectLogs(sub, logs, lo, hi - 1);
      WalkStep(sub, logs, lo, hi - 1);
      WalkStep(sub, SubjectLogs(logs, sub.id), lo, hi - 1);
      CountLogsOfSubjectLogs(logs, sub.id, Present, hi - 1, hi);
      CountLogsOfSubjectLogs(logs, sub.id, Absent, hi - 1, hi);
      CountLogsOfSubjectLogs(logs, sub.id, Cancelled, hi - 1, hi);
    }
  }

  /** The window of a subject does not depend on other subjects' logs. */
  lemma WindowStartOnlySeesSubjectLogs(sub: Subject, logs: seq<AttendanceLog>)
    ensures WindowStart(sub, SubjectLogs(logs, sub.id)) == WindowStart(sub, logs)
  {
    SubjectLogsIdempotent(logs, sub.id);
  }

  /**
   * A Monday/Wednesday/Friday subject created on Monday 2024-01-01 (day
   * 19723) with one present log on Wednesday the 3rd: over its first eight
   * days the three scheduled days without logs are implicit absences, the
   * logged Wednesday is one presence, and the other days add nothing.
   */
  lemma FirstWeekDays(sub: Subject, logs: seq<AttendanceLog>)
    requires sub == Subject("s", "Maths", None, Some(["Mon", "Wed", "Fri"]), StartOfDay(19723))
    requires logs == [AttendanceLog("s", 19725, Present)]
    ensures WindowStart(sub, logs) == 19723
    ensures DayTally(sub, logs, 19723) == Tally(1, 0, 1)
    ensures DayTally(sub, logs, 19724) == Tally(0, 0, 0)
    ensures DayTally(sub, logs, 19725) == Tally(1, 1, 0)
    ensures DayTally(sub, logs, 19726) == Tally(0, 0, 0)
    ensures DayTally(sub, logs, 19727) == Tally(1, 0, 1)
    ensures DayTally(sub, logs, 19728) == Tally(0, 0, 0)
    ensures DayTally(sub, logs, 19729) == Tally(0, 0, 0)
    ensures DayTally(sub, logs, 19730) == Tally(1, 0, 1)
  {
    assert logs[..0] == [];
    assert SubjectLogs(logs, sub.id) == logs;
    assert EarliestLogDay(logs) == 19725;
    assert ScheduledDays(sub) == ["Mon", "Wed", "Fri"];
    forall d | 19723 <= d <= 19730
      ensures DayCount(logs, sub.id, d, Present) == (if d == 19725 then 1 else 0)
      ensures DayCount(logs, sub.id, d, Absent) == 0 && DayCount(logs, sub.id, d, Cancelled) == 0
    {
      assert |logs| == 1 && logs[0] == AttendanceLog("s", 19725, Present);
      assert CountLogs(logs, 0, sub.id, Present, d, d + 1) == 0;
      assert CountLogs(logs, 0, sub.id, Absent, d, d + 1) == 0;
      assert CountLogs(logs, 0, sub.id, Cancelled, d, d + 1) == 0;
    }
    assert WeekdayOf(19723) == Mon && WeekdayOf(19724) == Tue && WeekdayOf(19725) == Wed && WeekdayOf(19726) == Thu;
    assert WeekdayOf(19727) == Fri && WeekdayOf(19728) == Sat && WeekdayOf(19729) == Sun && WeekdayOf(19730) == Mon;
  }

  /** Eight days tallied as in `FirstWeekDays` walk to four classes, one presence and three absences. */
  lemma FirstWeekWalk(sub: Subject, logs: seq<AttendanceLog>, lo: int)
    requires DayTally(sub, logs, lo) == Tally(1, 0, 1)
    requires DayTally(sub, logs, lo + 1) == Tally(0, 0, 0)
    requires DayTally(sub, logs, lo + 2) == Tally(1, 1, 0)
    requires DayTally(sub, logs, lo + 3) == Tally(0, 0, 0)
    requires DayTally(sub, logs, lo + 4) == Tally(1, 0, 1)
    requires DayTally(sub, logs, lo + 5) == Tally(0, 0, 0)
    requires DayTally(sub, logs, lo + 6) == Tally(0, 0, 0)
    requires DayTally(sub, logs, lo + 7) == Tally(1, 0, 1)
    ensures Walk(sub, logs, lo, lo + 8) == Tally(4, 1, 3)
  {
    WalkStep(sub, logs, lo, lo);
    WalkStep(sub, logs, lo, lo + 1);
    WalkStep(sub, logs, lo, lo + 2);
    WalkStep(sub, logs, lo, lo + 3);
    WalkStep(sub, logs, lo, lo + 4);
    WalkStep(sub, logs, lo, lo + 5);
    WalkStep(sub, logs, lo, lo + 6);
    WalkStep(sub, logs, lo, lo + 7);
  }

  /**
   * Seen at noon on Monday 2024-01-08, the subject of `FirstWeekDays` has
   * had four classes, one present and three absent.
   */
  lemma FirstWeekReconciled(sub: Subject, logs: seq<AttendanceLog>, nowMs: int)
    requires sub == Subject("s", "Maths", None, Some(["Mon", "Wed", "Fri"]), StartOfDay(19723))
    requires logs == [AttendanceLog("s", 19725, Present)]
    requires nowMs == StartOfDay(19730) + 12 * 3_600_000
    ensures Walk(sub, logs, WindowStart(sub, logs), DayOf(nowMs) + 1) == Tally(4, 1, 3)
  {
    FirstWeekDays(sub, logs);
    var lo := WindowStart(sub, logs);
    FirstWeekWalk(sub, logs, lo);
    DayOfInstant(19730, 12 * 3_600_000);
  }
}
