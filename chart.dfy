/**
 * The attendance overview (components/AttendanceChart.tsx): the classes and
 * presences summed over all subjects, the overall percentage rounded to a
 * whole number (0 when there are no classes at all), and one pie slice per
 * subject, coloured from a six-colour palette by position.
 */
module AttendanceChart {
  import opened Wrappers
  import opened Reconciliation
  import opened Aggregation

  /** The six palette colours, used in turn. */
  const Palette: seq<string> := ["#6366F1", "#10B981", "#F43F5E", "#F59E0B", "#06B6D4", "#8B5CF6"]

  /** Classes summed over the first `n` entries: `reduce((sum, item) => sum + item.totalClasses, 0)`. */
  function SumClasses(data: seq<SubjectStats>, n: nat): nat
    requires n <= |data|
  {
    if n == 0 then 0 else SumClasses(data, n - 1) + data[n - 1].totalClasses
  }

  /** Presences summed over the first `n` entries. */
  function SumPresent(data: seq<SubjectStats>, n: nat): nat
    requires n <= |data|
  {
    if n == 0 then 0 else SumPresent(data, n - 1) + data[n - 1].present
  }

  /** Every entry has no more presences than classes, as every engine record does. */
  predicate Consistent(data: seq<SubjectStats>) {
    forall i :: 0 <= i < |data| ==> data[i].present <= data[i].totalClasses
  }

  /** With consistent entries, the summed presences never exceed the summed classes. */
  lemma {:induction false} SumPresentAtMostClasses(data: seq<SubjectStats>, n: nat)
    requires n <= |data| && Consistent(data)
    ensures SumPresent(data, n) <= SumClasses(data, n)
  {
    if n > 0 {
      SumPresentAtMostClasses(data, n - 1);
    }
  }

  /** The sums have no classes exactly when no entry has any. */
  lemma {:induction false} SumClassesZero(data: seq<SubjectStats>, n: nat)
    requires n <= |data|
    ensures SumClasses(data, n) == 0 <==> forall i :: 0 <= i < n ==> data[i].totalClasses == 0
  {
    if n > 0 {
      SumClassesZero(data, n - 1);
    }
  }

  /** `Math.round` on a non-negative number: the nearest integer, halves rounded up. */
  function RoundHalfUp(x: real): (r: int)
    ensures r as real - 0.5 <= x < r as real + 0.5
  {
    (x + 0.5).Floor
  }

  /**
   * `overallPercentage`: the percentage of all presences over all classes,
   * rounded to a whole number; 0 when there are no classes at all.
   */
  function OverallPercentage(data: seq<SubjectStats>): int {
    var total := SumClasses(data, |data|);
    var present := SumPresent(data, |data|);
    if total > 0 then RoundHalfUp(Percentage(present, total)) else 0
  }

  /** The overall percentage lies in 0 .. 100 when every entry is consistent. */
  lemma OverallBounded(data: seq<SubjectStats>)
    requires Consistent(data)
    ensures 0 <= OverallPercentage(data) <= 100
  {
    if SumClasses(data, |data|) > 0 {
      SumPresentAtMostClasses(data, |data|);
    }
  }

  /**
   * With classes, the overall percentage is within half a point of the
   * exact one, and differs from the rounding of any single subject's
   * percentage only through the sums.
   */
  lemma OverallNearest(data: seq<SubjectStats>)
    requires SumClasses(data, |data|) > 0
    ensures var exact := Percentage(SumPresent(data, |data|), SumClasses(data, |data|));
      OverallPercentage(data) as real - 0.5 <= exact < OverallPercentage(data) as real + 0.5
    ensures |data| == 1 ==> OverallPercentage(data) == RoundHalfUp(Percentage(data[0].present, data[0].totalClasses))
  {
  }

  /** With no classes anywhere the overall percentage is 0, where a single subject would show 100. */
  lemma NoClassesOverall(data: seq<SubjectStats>)
    requires forall i :: 0 <= i < |data| ==> data[i].totalClasses == 0
    ensures OverallPercentage(data) == 0
    ensures forall i :: 0 <= i < |data| ==> Percentage(data[i].present, data[i].totalClasses) == 100.0
  {
    SumClassesZero(data, |data|);
  }

  /** The overview of the engine's records lies in 0 .. 100. */
  lemma EngineOverallBounded(subjects: seq<Subject>, logs: seq<AttendanceLog>, nowMs: int)
    ensures 0 <= OverallPercentage(seq(|subjects|, i requires 0 <= i < |subjects| => StatsOf(subjects[i], logs, nowMs))) <= 100
  {
    var data := seq(|subjects|, i requires 0 <= i < |subjects| => StatsOf(subjects[i], logs, nowMs));
    forall i | 0 <= i < |data|
      ensures data[i].present <= data[i].totalClasses
    {
      StatsConsistent(subjects[i], logs, nowMs);
    }
    OverallBounded(data);
  }

  /** One slice of the pie. */
  datatype Slice = Slice(value: nat, color: string, focused: bool)

  /** The colour of entry `i`, in the legend as in the pie. */
  function ColorAt(i: nat): (c: string)
    ensures c in Palette
  {
    Palette[i % |Palette|]
  }

  /** `pieData`: one slice per entry, sized by its classes, at least 1. */
  function PieData(data: seq<SubjectStats>): (slices: seq<Slice>)
    ensures |slices| == |data|
    ensures forall i :: 0 <= i < |data| ==> slices[i].value >= 1 && !slices[i].focused
    ensures forall i :: 0 <= i < |data| ==> (data[i].totalClasses > 0 <==> slices[i].value == data[i].totalClasses)
    ensures forall i :: 0 <= i < |data| && data[i].totalClasses == 0 ==> slices[i].value == 1
    ensures forall i :: 0 <= i < |data| ==> slices[i].color == Palette[i % 6]
  {
    seq(|data|, i requires 0 <= i < |data| =>
      Slice(if data[i].totalClasses > 0 then data[i].totalClasses else 1, ColorAt(i), false))
  }

  /** One legend row: the subject's name, the colour of its dot and its percentage. */
  datatype LegendEntry = LegendEntry(subjectName: string, color: string, percentage: real)

  /** The legend: row `i` shows subject `i`'s name, its slice colour and its percentage. */
  function Legend(data: seq<SubjectStats>): (rows: seq<LegendEntry>)
    ensures |rows| == |data|
    ensures forall i :: 0 <= i < |data| ==>
      rows[i].subjectName == data[i].subjectName && rows[i].percentage == data[i].percentage
      && rows[i].color == Palette[i % 6]
  {
    seq(|data|, i requires 0 <= i < |data| => LegendEntry(data[i].subjectName, ColorAt(i), data[i].percentage))
  }

  /**
   * Each subject's legend dot has the colour of its slice; colours repeat
   * every six entries, and neighbouring entries never share a colour.
   */
  lemma SliceColors(data: seq<SubjectStats>, i: nat)
    requires i < |data|
    ensures PieData(data)[i].color == Legend(data)[i].color == Palette[i % 6]
    ensures i + 6 < |data| ==> PieData(data)[i + 6].color == PieData(data)[i].color
    ensures i + 1 < |data| ==> PieData(data)[i + 1].color != PieData(data)[i].color
  {
    NeighbourColors(i % 6);
    ModSix(i);
  }

  lemma ModSix(i: nat)
    ensures (i + 1) % 6 == (i % 6 + 1) % 6 && (i + 6) % 6 == i % 6
  {
  }

  /** Consecutive palette colours differ. */
  lemma NeighbourColors(k: nat)
    requires k < 6
    ensures Palette[(k + 1) % 6] != Palette[k]
  {
    assert Palette[k][1] != Palette[(k + 1) % 6][1] || Palette[k][2] != Palette[(k + 1) % 6][2];
  }

  /** What the component shows: the overall percentage, the pie and the legend. */
  datatype Overview = Overview(overallPercentage: int, pie: seq<Slice>, legend: seq<LegendEntry>)

  /**
   * The whole chart: nothing at all for an empty list; otherwise the overall
   * figure (0 without classes, else the rounded percentage of the sums), the
   * pie and the legend.
   */
  function ChartOf(data: seq<SubjectStats>): (r: Option<Overview>)
    ensures r.None? <==> |data| == 0
    ensures r.Some? ==> |r.value.pie| == |r.value.legend| == |data|
    ensures r.Some? ==> r.value.pie == PieData(data) && r.value.legend == Legend(data)
    ensures r.Some? && SumClasses(data, |data|) == 0 ==> r.value.overallPercentage == 0
    ensures r.Some? && SumClasses(data, |data|) > 0 ==>
      r.value.overallPercentage == RoundHalfUp(Percentage(SumPresent(data, |data|), SumClasses(data, |data|)))
    ensures r.Some? && Consistent(data) ==> 0 <= r.value.overallPercentage <= 100
  {
    if |data| == 0 then None
    else
      var overview := Overview(OverallPercentage(data), PieData(data), Legend(data));
      if Consistent(data) then OverallBounded(data); Some(overview) else Some(overview)
  }
}
