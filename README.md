# Smart-Attendance statistics engine in Dafny

This project models the part of Smart-Attendance that turns a student's
subjects and attendance logs into numbers:

- **Reconciliation** (`hooks/useAttendanceStats.ts`). For each subject the
  engine walks every calendar day. The walk starts at the earlier of the
  subject's creation day and its earliest log, and ends today. A day counts
  `max(theoretical, active logs)` classes. A scheduled day that is not
  cancelled has one theoretical class. Each present or absent log is one
  outcome. A scheduled, uncancelled day with no log is an implicit absence.
- **Aggregation** (same file). The percentage (100 with no classes), the
  target (75 when unset or 0), the status (AT_RISK, ON_TRACK or SAFE), and
  `classesToRecover`. That last one is the number of consecutive attended
  classes that would bring the percentage back to the target.
- **The Bunkometer** (`components/Bunkometer.tsx`). A what-if simulator: two
  counters, for classes the student will attend and classes they will skip,
  feed a predicted percentage and a safe/unsafe verdict. The counters are the
  fields of a `class`. Its methods are the four buttons and the reset on a
  change of subject.
- **The attendance chart** (`components/AttendanceChart.tsx`). The classes
  and presences summed over all subjects, the overall percentage rounded to
  a whole number, and one pie slice and one legend row per subject, coloured
  from a six-colour palette.

Days are integer day numbers and instants are millisecond timestamps, both in
the user's local calendar. Percentages are exact reals. Every comparison the
source makes on them is also proved equivalent to an integer
cross-multiplication.

Modules: `Wrappers` (Option, Max), `Dates`, `Reconciliation`, `Aggregation`,
`Bunkometer`, `AttendanceChart`.

A subject with no classes yet has percentage 100, so its status is SAFE for
any target below 90, ON_TRACK for targets 90 to 100, and AT_RISK above 100
(`Aggregation.NoClassesStatus`).

## Model

| member | source | states |
|---|---|---|
| Dates.DayOf | hooks/useAttendanceStats.ts:65 | truncating an instant to midnight gives the day whose midnight-to-midnight span holds it |
| Dates.EndOfDay | hooks/useAttendanceStats.ts:44-45 | the cutoff set by `setHours(23, 59, 59, 999)` lies inside its own day |
| Dates.DayOfInstant | hooks/useAttendanceStats.ts:44-45 | any instant within day d, such as a time of day "now", belongs to day d |
| Dates.MidnightNotAfterEndOfDay | hooks/useAttendanceStats.ts:71 | the loop guard `cursorDate <= today` holds exactly when the cursor's day is not after today |
| Dates.DayOfMin | hooks/useAttendanceStats.ts:61-65 | taking the earlier instant and then truncating gives the earlier of the two days |
| Dates.WeekdayOf | hooks/useAttendanceStats.ts:73 | the weekday of a day number has Monday-based index `(d + 3) % 7`: day 0, 1970-01-01, is a Thursday |
| Dates.ShortName | hooks/useAttendanceStats.ts:73 | the three-letter en-US short name of a weekday (`Mon` … `Sun`) that `toLocaleDateString('en-US', { weekday: 'short' })` gives |
| Dates.ShortNameInjective | hooks/useAttendanceStats.ts:73-79 | two weekdays have the same short name exactly when they are the same day, so `includes(dayName)` picks out one weekday |
| Dates.WeekdayPeriodic | hooks/useAttendanceStats.ts:73 | the weekday repeats every 7 days and advances by one each day |
| Dates.Decimal | hooks/useAttendanceStats.ts:21-22 | `String(n)` for a natural number: a non-empty run of decimal digits, read back by `ParseDecimalOfDecimal` |
| Dates.PadStart2 | hooks/useAttendanceStats.ts:21-22 | `padStart(2, '0')` fills a shorter string with leading zeros to exactly two characters, keeping it as the suffix, and leaves a longer one unchanged |
| Dates.SafeDateString | hooks/useAttendanceStats.ts:19-24 | specification function: the local date as `YYYY-MM-DD` (year, month plus one padded to two digits, date padded to two digits); its properties are `SafeDateStringRoundTrip` and `SafeDateStringInjective` |
| Dates.SafeDateStringRoundTrip | hooks/useAttendanceStats.ts:19-24 | reading a `YYYY-MM-DD` string back gives the original year, month and day |
| Dates.SafeDateStringInjective | hooks/useAttendanceStats.ts:19-24 | two valid dates give the same string exactly when they are equal, so the walk's string comparison `l.date === dateStr` compares dates |
| Reconciliation.SubjectLogs | hooks/useAttendanceStats.ts:54 | the filtered list is no longer than the logs and holds only logs of the subject (`SubjectLogsKeepsOwn` shows it keeps all of them) |
| Reconciliation.DayLogs | hooks/useAttendanceStats.ts:75 | the day's list is no longer than the logs and holds only logs of the subject dated that day (`CountOfDayLogs` shows it keeps all of them) |
| Reconciliation.HasCancelled | hooks/useAttendanceStats.ts:77 | specification predicate: some log of the day is cancelled |
| Reconciliation.ScheduledDays | hooks/useAttendanceStats.ts:67 | specification function: the subject's days, or none when unset |
| Reconciliation.IsScheduled | hooks/useAttendanceStats.ts:73-79 | specification predicate: the short name of the day's weekday is among the scheduled days |
| Reconciliation.CountStatus | hooks/useAttendanceStats.ts:89-92 | counts no more logs than there are |
| Reconciliation.ActiveLogs | hooks/useAttendanceStats.ts:76 | the active logs have no cancelled log, the same present and absent logs as the day, and nothing else |
| Reconciliation.EarliestLogDay | hooks/useAttendanceStats.ts:58-60 | the day of the first log after sorting is one of the logs' days and no log is earlier |
| Reconciliation.WindowStart | hooks/useAttendanceStats.ts:52-65 | specification function: the day of the earlier of the creation instant and the first log's midnight; `WindowStartIsEarliest` states what it is |
| Reconciliation.DayOutcome | hooks/useAttendanceStats.ts:79-100 | specification function: what a day adds from its schedule and its log counts; stated by `DayClasses`, `DayOutcomeCounts`, `DayOutcomeBalanced` and the day lemmas |
| Reconciliation.DayTally | hooks/useAttendanceStats.ts:75-100 | specification function: `DayOutcome` of one calendar day of the subject; stated by `DayTallyCounts` |
| Reconciliation.Walk | hooks/useAttendanceStats.ts:71-104 | specification function: the counters after walking a range of days in order; stated by `WalkBalanced`, `WalkCountsEveryLog` and `ReconciledCounts` |
| Reconciliation.WalkStep | hooks/useAttendanceStats.ts:71-104 | proof helper: walking one more day adds exactly that day's tally (the definition of `Walk` as a lemma) |
| Reconciliation.WalkBalanced | hooks/useAttendanceStats.ts:83-100 | over any range of days every counted class is either a presence or an absence |
| Reconciliation.CountOfDayLogs | hooks/useAttendanceStats.ts:75 | filtering the logs by subject and date keeps exactly that day's logs of each status |
| Reconciliation.DayTallyOfDayLogs | hooks/useAttendanceStats.ts:75-100 | a day's tally computed from its filtered logs equals the specification's day tally |
| Reconciliation.TallyExplicitLogs | hooks/useAttendanceStats.ts:89-92 | the `forEach` adds one presence per present log and one absence per absent log |
| Reconciliation.ReconcileDay | hooks/useAttendanceStats.ts:72-100 | one loop iteration adds the day's tally, and its classes are split into presences and absences |
| Reconciliation.Reconcile | hooks/useAttendanceStats.ts:47-104 | the three counters are the walk from the window start through today, and presences plus absences equal the classes |
| Reconciliation.DayOutcomeBalanced | hooks/useAttendanceStats.ts:83-100 | every class a day counts has exactly one outcome |
| Reconciliation.DayClasses | hooks/useAttendanceStats.ts:79-83 | proof helper restating `DayOutcome`: a day counts the larger of its theoretical class and its present/absent logs |
| Reconciliation.CancelledDayAddsNothing | hooks/useAttendanceStats.ts:77-99 | a cancelled day with no present or absent log adds nothing, scheduled or not |
| Reconciliation.UnloggedScheduledDayIsAbsence | hooks/useAttendanceStats.ts:93-99 | a scheduled day with no logs is one class and one implicit absence |
| Reconciliation.UnscheduledQuietDayAddsNothing | hooks/useAttendanceStats.ts:79-84 | an unscheduled day with no present or absent log adds nothing |
| Reconciliation.LoggedDayCountsEachLog | hooks/useAttendanceStats.ts:83-92 | on a day with present or absent logs, each such log is one class with its own outcome, whatever the schedule |
| Reconciliation.DayOutcomeCounts | hooks/useAttendanceStats.ts:87-100 | a day's presences are its present logs; its absences are its absent logs plus one when it has a class but no log |
| Reconciliation.DayTallyCounts | hooks/useAttendanceStats.ts:75-100 | the same for a subject's calendar day, with the implicit absence spelled out as scheduled, not cancelled, unlogged |
| Reconciliation.CountLogsSplit | hooks/useAttendanceStats.ts:71-104 | proof helper: counting logs over adjacent day ranges adds up |
| Reconciliation.WalkCountsEveryLog | hooks/useAttendanceStats.ts:71-104 | over any range, presences are the present logs dated in it, and absences are the absent logs plus the implicit-absence days |
| Reconciliation.CountLogsFromFirst | hooks/useAttendanceStats.ts:52-65 | when no log predates the start, a count from the start misses none of the subject's logs |
| Reconciliation.SubjectLogsKeepsOwn | hooks/useAttendanceStats.ts:54 | every log of the subject survives the subject filter |
| Reconciliation.WindowStartIsEarliest | hooks/useAttendanceStats.ts:52-65 | the window starts at the earlier of the creation day and the earliest log's day, and no log of the subject predates it |
| Reconciliation.ReconciledCounts | hooks/useAttendanceStats.ts:47-104 | over the whole window the presences are all the subject's present logs dated up to today, and the absences its absent logs up to today plus the implicit absences; logs dated in the future never count |
| Reconciliation.CountLogsSamePrefix | hooks/useAttendanceStats.ts:75 | proof helper: counts agree on sequences whose prefixes agree |
| Reconciliation.CountLogsOfSubjectLogs | hooks/useAttendanceStats.ts:54-75 | counting a subject's logs in the pre-filtered list gives the same as in the whole list |
| Reconciliation.SubjectLogsIdempotent | hooks/useAttendanceStats.ts:54 | proof helper: filtering by subject twice is filtering once |
| Reconciliation.WalkOnlySeesSubjectLogs | hooks/useAttendanceStats.ts:54-75 | a subject's counters do not depend on other subjects' logs |
| Reconciliation.WindowStartOnlySeesSubjectLogs | hooks/useAttendanceStats.ts:54-65 | a subject's window does not depend on other subjects' logs |
| Reconciliation.FirstWeekDays | hooks/useAttendanceStats.ts:71-104 | for a Mon/Wed/Fri subject created Monday 2024-01-01 with one present log on the Wednesday, the first eight days' tallies are the three implicit absences, the one presence and nothing on other days |
| Reconciliation.FirstWeekWalk | hooks/useAttendanceStats.ts:71-104 | those eight day tallies add up to 4 classes, 1 present, 3 absent |
| Reconciliation.FirstWeekReconciled | hooks/useAttendanceStats.ts:44-104 | seen at noon on Monday the 8th, that subject's walk counts 4 classes, 1 present, 3 absent |
| Aggregation.TargetOf | hooks/useAttendanceStats.ts:111 | the target is the subject's own when set and non-zero, 75 otherwise, and never 0 |
| Aggregation.Percentage | hooks/useAttendanceStats.ts:107-109 | 100 with no classes; otherwise the percentage times the classes is the presences times 100; in 0..100 when presences do not exceed classes |
| Aggregation.StatusOf | hooks/useAttendanceStats.ts:112-114 | AT_RISK exactly below the target, SAFE exactly more than ten points above it, ON_TRACK exactly in between, bounds included |
| Aggregation.StatusByCounts | hooks/useAttendanceStats.ts:107-114 | with classes, each status is decided by integer cross-multiplication of presences, classes and target |
| Aggregation.PercentageCompare | hooks/useAttendanceStats.ts:107-113 | the percentage is below or above a bound exactly when presences times 100 are below or above bound times classes |
| Aggregation.AtTargetIsOnTrack | hooks/useAttendanceStats.ts:112-114 | attendance exactly at the target is ON_TRACK, not AT_RISK |
| Aggregation.NoClassesStatus | hooks/useAttendanceStats.ts:107-114 | a subject with no classes is SAFE exactly for a target below 90 and AT_RISK exactly for a target above 100 |
| Aggregation.StillBelow | hooks/useAttendanceStats.ts:120 | specification predicate: the loop guard `(p / t) * 100 < target` by counts; with no classes the source divides 0 by 0, a NaN whose comparison is false, so the guard is false |
| Aggregation.CeilDiv | hooks/useAttendanceStats.ts:116-125 | the quotient rounded up: q times b reaches a, and q minus 1 times b falls short of it |
| Aggregation.RecoveryCount | hooks/useAttendanceStats.ts:116-125 | specification function: the recovery count in closed form; `RecoveryCountIsLeast` proves it is the least count that reaches the target |
| Aggregation.RecoveryCountIsLeast | hooks/useAttendanceStats.ts:116-125 | when the closed form gives a count, that count is the least number of attended classes that reaches the target |
| Aggregation.RecoveryNeverEnds | hooks/useAttendanceStats.ts:116-125 | with a target of 100 or more, a subject below it stays below it however many classes it attends |
| Aggregation.RecoveryMonotone | hooks/useAttendanceStats.ts:116-125 | with the classes fixed and a target below 100, one more presence strictly lowers the count of classes to recover while the subject is below the target |
| Aggregation.LeastRecoveryUnique | hooks/useAttendanceStats.ts:116-125 | the least recovery count is unique |
| Aggregation.ClassesToRecover | hooks/useAttendanceStats.ts:116-125 | attends one class at a time while below the target; returns the least count that reaches it, and reports no count exactly when the target is 100 or more and the subject is below it |
| Aggregation.RecoverAsWritten | hooks/useAttendanceStats.ts:116-125 | the loop as written, run for at most a given number of rounds: the count where it stops, nothing when the rounds run out; stated by the three lemmas below |
| Aggregation.RecoverAsWrittenDiverges | hooks/useAttendanceStats.ts:116-125 | the loop as written never stops when the target is 100 or more and the subject is below it |
| Aggregation.OneAbsenceAtFullTarget | hooks/useAttendanceStats.ts:116-125 | 0 present out of 1 class at target 100: the loop as written never stops |
| Aggregation.RecoverAsWrittenIsLeast | hooks/useAttendanceStats.ts:116-125 | wherever the loop as written stops, it has found the least count that reaches the target |
| Aggregation.RecoverAsWrittenAgrees | hooks/useAttendanceStats.ts:116-125 | wherever the loop as written stops, its count is the closed form's |
| Aggregation.StatsFromTally | hooks/useAttendanceStats.ts:106-138 | specification function: the record built from a subject's counters; stated by `StatsConsistent` |
| Aggregation.StatsOf | hooks/useAttendanceStats.ts:47-138 | specification function: the record of a subject after walking its whole window to today |
| Aggregation.ComputeSubjectStats | hooks/useAttendanceStats.ts:47-138 | one subject's record is the specification record of its walk |
| Aggregation.CalculateStats | hooks/useAttendanceStats.ts:47-139 | one record per subject, in the subjects' order, each the specification record |
| Aggregation.StatsConsistent | hooks/useAttendanceStats.ts:47-138 | every record is balanced, has its percentage in 0..100 and the subject's target, is AT_RISK exactly when its counts are below the target, has a recovery count only when at risk, and has no count exactly when at risk with classes against a target of 100 or more |
| Aggregation.StatsOnlySeeOwnLogs | hooks/useAttendanceStats.ts:54-138 | a subject's record does not depend on other subjects' logs |
| Aggregation.OneOfFourStats | hooks/useAttendanceStats.ts:106-125 | 1 present out of 4 with no target set: 25%, target 75, AT_RISK, 8 classes to recover |
| Aggregation.FirstWeekStats | hooks/useAttendanceStats.ts:44-138 | the first-week subject above is at 25%, AT_RISK, with 8 classes to recover |
| Bunkometer.NewPresent | components/Bunkometer.tsx:28 | specification function: `newPresent`, the presences plus the classes to attend |
| Bunkometer.NewTotal | components/Bunkometer.tsx:29 | specification function: `newTotal`, the classes plus the classes to attend and to skip |
| Bunkometer.PredictedPercentage | components/Bunkometer.tsx:25-31 | specification function: the engine's percentage of the new presences over the new total; stated by `AttendingNeverLowers` and `SkippingNeverRaises` |
| Bunkometer.PredictedSafe | components/Bunkometer.tsx:32 | specification predicate: the prediction reaches the target; stated by `PredictedSafeByCounts` |
| Bunkometer.PercentageOrder | components/Bunkometer.tsx:31-32 | two percentages compare as their cross-multiplied counts do |
| Bunkometer.PredictedSafeByCounts | components/Bunkometer.tsx:25-32 | with classes, the verdict is safe exactly when presences times 100 reach target times classes; with none, exactly when the target is at most 100 |
| Bunkometer.UntouchedPredictionIsCurrent | components/Bunkometer.tsx:25-32 | with both counters at zero the prediction is the engine's percentage, and it is safe exactly when the engine does not say AT_RISK |
| Bunkometer.AttendingNeverLowers | components/Bunkometer.tsx:28-31 | attending one more class never lowers the prediction |
| Bunkometer.SkippingNeverRaises | components/Bunkometer.tsx:28-31 | skipping one more class never raises the prediction |
| Bunkometer.TenMoreReachTarget | components/Bunkometer.tsx:25-32 | 5 of 10 at target 75: attending 10 more gives exactly 75%, which is safe, and 9 more is not safe |
| Bunkometer.Simulator.constructor | components/Bunkometer.tsx:14-15 | both counters start at zero |
| Bunkometer.Simulator.ChangeSubject | components/Bunkometer.tsx:17-20 | a new subject resets both counters |
| Bunkometer.Simulator.IncrementAttend | components/Bunkometer.tsx:90 | one more attended class, nothing else changes, and the prediction does not drop |
| Bunkometer.Simulator.DecrementAttend | components/Bunkometer.tsx:81 | one fewer attended class, never below zero, nothing else changes |
| Bunkometer.Simulator.IncrementBunk | components/Bunkometer.tsx:117 | one more skipped class, nothing else changes, and the prediction does not rise |
| Bunkometer.Simulator.DecrementBunk | components/Bunkometer.tsx:108 | one fewer skipped class, never below zero, nothing else changes |
| Bunkometer.Simulator.Predicted | components/Bunkometer.tsx:22-31 | nothing without a subject; 100 with no classes; otherwise the prediction times the new total is the new presences times 100 |
| Bunkometer.Simulator.IsSafe | components/Bunkometer.tsx:22-32 | nothing without a subject; with classes, safe exactly when the new presences times 100 reach target times new total; with none, safe exactly when the target is at most 100 |
| AttendanceChart.SumClasses | components/AttendanceChart.tsx:24 | specification function: the classes summed over the subjects; stated by `SumClassesZero` |
| AttendanceChart.SumPresent | components/AttendanceChart.tsx:25 | specification function: the presences summed over the subjects; stated by `SumPresentAtMostClasses` |
| AttendanceChart.SumPresentAtMostClasses | components/AttendanceChart.tsx:24-25 | summed presences never exceed summed classes when each subject's do not |
| AttendanceChart.SumClassesZero | components/AttendanceChart.tsx:24-28 | there are no classes in total exactly when no subject has any |
| AttendanceChart.RoundHalfUp | components/AttendanceChart.tsx:27 | `Math.round` gives the integer within half of its argument, halves rounded up |
| AttendanceChart.OverallPercentage | components/AttendanceChart.tsx:26-28 | specification function: 0 without classes, else the rounded percentage of the sums; stated by `OverallBounded`, `OverallNearest` and `NoClassesOverall` |
| AttendanceChart.OverallBounded | components/AttendanceChart.tsx:26-28 | the overall percentage lies in 0..100 |
| AttendanceChart.OverallNearest | components/AttendanceChart.tsx:24-28 | with classes, the overall percentage is within half a point of the exact percentage of the sums; for one subject it is that subject's percentage rounded |
| AttendanceChart.NoClassesOverall | components/AttendanceChart.tsx:26-28 | with no classes anywhere the overall figure is 0, while each subject's own percentage is 100 |
| AttendanceChart.EngineOverallBounded | components/AttendanceChart.tsx:24-28 | the overall percentage of the engine's records lies in 0..100 |
| AttendanceChart.ColorAt | components/AttendanceChart.tsx:11-18 | every colour comes from the palette |
| AttendanceChart.PieData | components/AttendanceChart.tsx:31-35 | one unfocused slice per subject, sized by the subject's classes when it has any and exactly 1 when it has none, coloured with palette entry `index % 6` |
| AttendanceChart.Legend | components/AttendanceChart.tsx:61-66 | one legend row per subject, row `i` showing subject `i`'s name and percentage with palette entry `i % 6` |
| AttendanceChart.SliceColors | components/AttendanceChart.tsx:31-63 | a subject's legend dot has its slice's colour, palette entry `index % 6`; colours repeat every six subjects and neighbours differ |
| AttendanceChart.ChartOf | components/AttendanceChart.tsx:21-35 | nothing for an empty list; otherwise the pie and legend of the subjects, and an overall figure that is 0 without classes, else the rounded percentage of the summed presences over the summed classes, in 0..100 |

## Left out

- The database, authentication and loading state (`supabase` queries, `setLoading`, `useFocusEffect`): subjects and logs are parameters. "Now" is a parameter `nowMs`.
- React rendering, styles and the modal's visibility: only the values the components compute are modelled.
- Time zones and daylight saving: days are local day numbers of 86 400 000 ms. The source parses a log's `YYYY-MM-DD` date with `new Date(...)` when it finds the earliest log, which reads it as UTC midnight. The model takes the log's day as given. In time zones west of UTC the source can therefore start the window one day earlier than the model.
- Log dates as strings: the walk matches logs by day number instead of by the `YYYY-MM-DD` string. `Dates.SafeDateStringInjective` shows the two comparisons agree for valid dates. The calendar conversion from a day number to year, month and day is not modelled.
- Log statuses other than present, absent and cancelled: the source ignores them in the `forEach` but would count them as active classes. The model has only the three statuses the application writes.
- Floating point: percentages are exact reals. `toFixed(1)` and `toFixed(0)` in the displays are not modelled. `Math.round` is modelled on the exact percentage.
- Aggregation.ClassesToRecover: where the source's loop never ends (target 100 or more and below it), the model returns `Unreachable` instead of hanging. The as-written loop is modelled separately, with fuel, by `Aggregation.RecoverAsWritten`.
- Aggregation.FirstWeekStats: the scenario is one concrete subject and date, not a general property.
- The order of the `sort` used to find the earliest log is not modelled: only its minimum is used.

## Findings

| source | as written | input that shows it | evidently intended | confidence | as-written member | corrected member |
|---|---|---|---|---|---|---|
| hooks/useAttendanceStats.ts:116-125 | `while ((p / t) * 100 < target) { p++; t++; }` never ends when the target is 100 or more and the subject is below it, because (p+k)/(t+k) stays at most 1, below target/100 (with IEEE doubles and a target of exactly 100 it would stop only after about 2^53 rounds, when `t++` no longer changes t) | present 0, total 1, target 100 | report that the target cannot be reached instead of hanging the statistics screen | high, not executed | Aggregation.OneAbsenceAtFullTarget | Aggregation.ClassesToRecover |
