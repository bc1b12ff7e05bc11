/** The short-term alert table of src/pages/shortterm_page.py: every
    forecast sample is flagged when its temperature is strictly above the
    threshold (assess_overheating_hours), then get_overheating_df builds,
    per area, the number of flagged samples strictly before "first sample +
    i days" for each i of a fixed list of horizons, or NaN when that horizon
    lies past the area's last sample. Timestamps are whole hours on one time
    line; the threshold and the area type are parameters. */
module Horizon {
  import opened Cells
  import opened Decimal
  import opened AreaLabel

  /** A row of the frame get_overheating_df receives: its timestamp in
      hours, the area id column and the overheating flag column. */
  datatype FlagSample = FlagSample(time: int, areaId: int, overheatingFlag: int)

  /** The horizons of get_overheating_df, in days. */
  const Intervals: seq<nat> := [1, 7, 14, 30, 60, 90, 180]

  /** pd.Timedelta(days=1) in the hour unit of FlagSample.time. */
  const HoursPerDay: nat := 24

  /** A row of the result: one cell per horizon, in the order of Intervals;
      the cell of horizon i is the column ColumnLabel(Intervals[i]). */
  type HorizonCells = seq<Cell<int>>

  /** assess_overheating_hours: 1 where the temperature is strictly above
      the threshold, 0 elsewhere, one flag per value. */
  function AssessOverheatingHours(iat: seq<real>, threshold: real): (flags: seq<int>)
    ensures |flags| == |iat|
    ensures forall k :: 0 <= k < |iat| ==> flags[k] == 0 || flags[k] == 1
    ensures forall k :: 0 <= k < |iat| ==> (flags[k] == 1 <==> iat[k] > threshold)
  {
    seq(|iat|, k requires 0 <= k < |iat| => if iat[k] > threshold then 1 else 0)
  }

  /** The column name of horizon `days`. */
  function ColumnLabel(days: nat): (name: string)
    ensures |name| > 12
    ensures name[..5] == "Next " && name[|name| - 7..] == " day(s)"
    ensures name[5..|name| - 7] == NatToString(days)
  {
    "Next " + NatToString(days) + " day(s)"
  }

  /** The column names of the result, in column order. */
  function ColumnLabels(): (names: seq<string>)
    ensures |names| == |Intervals|
    ensures forall i :: 0 <= i < |Intervals| ==> names[i] == ColumnLabel(Intervals[i])
  {
    seq(|Intervals|, i requires 0 <= i < |Intervals| => ColumnLabel(Intervals[i]))
  }

  // ---------------------------------------------------------------------
  // The pieces of one area's computation
  // ---------------------------------------------------------------------

  function AreaIds(samples: seq<FlagSample>): (ids: seq<int>)
    ensures |ids| == |samples| && forall k :: 0 <= k < |samples| ==> ids[k] == samples[k].areaId
  {
    seq(|samples|, k requires 0 <= k < |samples| => samples[k].areaId)
  }

  /** Series.unique(): the distinct values in order of first appearance. */
  function Unique(xs: seq<int>): (u: seq<int>)
    ensures forall i, j :: 0 <= i < j < |u| ==> u[i] != u[j]
    ensures forall x :: x in u <==> x in xs
  {
    if xs == [] then []
    else
      var init := Unique(xs[..|xs| - 1]);
      var last := xs[|xs| - 1];
      assert forall x :: x in xs <==> x in xs[..|xs| - 1] || x == last;
      if last in init then init else init + [last]
  }

  /** The rows of one area (`overheating_hours[filt]`), in frame order. */
  function AreaSamples(samples: seq<FlagSample>, area: int): (g: seq<FlagSample>)
    ensures forall s :: s in g <==> s in samples && s.areaId == area
    ensures forall s :: multiset(g)[s] == if s.areaId == area then multiset(samples)[s] else 0
  {
    if samples == [] then []
    else
      var init := AreaSamples(samples[..|samples| - 1], area);
      var last := samples[|samples| - 1];
      assert forall s :: s in samples <==> s in samples[..|samples| - 1] || s == last;
      assert samples == samples[..|samples| - 1] + [last];
      if last.areaId == area then init + [last] else init
  }

  /** `index[0]` after sort_index: the earliest timestamp. */
  function MinTime(g: seq<FlagSample>): (t: int)
    requires |g| > 0
    ensures exists k :: 0 <= k < |g| && g[k].time == t
    ensures forall k :: 0 <= k < |g| ==> t <= g[k].time
  {
    if |g| == 1 then g[0].time
    else
      var init := MinTime(g[..|g| - 1]);
      assert forall k :: 0 <= k < |g| - 1 ==> g[..|g| - 1][k] == g[k];
      if g[|g| - 1].time < init then g[|g| - 1].time else init
  }

  /** `index[-1]` after sort_index: the latest timestamp. */
  function MaxTime(g: seq<FlagSample>): (t: int)
    requires |g| > 0
    ensures exists k :: 0 <= k < |g| && g[k].time == t
    ensures forall k :: 0 <= k < |g| ==> g[k].time <= t
  {
    if |g| == 1 then g[0].time
    else
      var init := MaxTime(g[..|g| - 1]);
      assert forall k :: 0 <= k < |g| - 1 ==> g[..|g| - 1][k] == g[k];
      if g[|g| - 1].time > init then g[|g| - 1].time else init
  }

  /** The last value of the cumulative sum of the flags over the rows, in
      time order, whose timestamp is strictly before `horizon`: those rows
      form a prefix of the sorted frame, so it is the sum of their flags. */
  function FlagSumBefore(g: seq<FlagSample>, horizon: int): (sum: int)
    ensures BinaryFlags(g) ==> sum == CountFlaggedBefore(g, horizon)
  {
    if g == [] then 0
    else
      var init := g[..|g| - 1];
      var last := g[|g| - 1];
      assert BinaryFlags(g) ==> BinaryFlags(init) by {
        assert forall k :: 0 <= k < |init| ==> init[k] == g[k];
      }
      FlagSumBefore(init, horizon) + (if last.time < horizon then last.overheatingFlag else 0)
  }

  /** The cell of one horizon: NaN when `first + days` is past the last
      timestamp, otherwise the cumulative flag count before it. */
  function HorizonEntry(g: seq<FlagSample>, days: nat): (cell: Cell<int>)
    requires |g| > 0
    ensures cell.NaN? <==> MinTime(g) + HoursPerDay * days > MaxTime(g)
    ensures cell.Num? && BinaryFlags(g) ==> cell.value == CountFlaggedBefore(g, MinTime(g) + HoursPerDay * days)
  {
    var horizon := MinTime(g) + HoursPerDay * days;
    if horizon > MaxTime(g) then NaN else Num(FlagSumBefore(g, horizon))
  }

  /** The row of one area: one cell per horizon. */
  function HorizonRow(g: seq<FlagSample>): (row: HorizonCells)
    requires |g| > 0
    ensures |row| == |Intervals|
    ensures forall i :: 0 <= i < |Intervals| ==> row[i] == HorizonEntry(g, Intervals[i])
  {
    seq(|Intervals|, i requires 0 <= i < |Intervals| => HorizonEntry(g, Intervals[i]))
  }

  lemma AreaSamplesNonEmpty(samples: seq<FlagSample>, area: int)
    requires area in AreaIds(samples)
    ensures |AreaSamples(samples, area)| > 0
  {
    var k :| 0 <= k < |samples| && samples[k].areaId == area;
    assert samples[k] in AreaSamples(samples, area);
  }

  /** The inner loop of get_overheating_df: the cells of one area, one
      horizon at a time, NaN once the horizon is past the last timestamp. */
  method HorizonCellsOf(g: seq<FlagSample>) returns (row: HorizonCells)
    requires |g| > 0
    ensures row == HorizonRow(g)
  {
    var startDate, endDate := MinTime(g), MaxTime(g);
    row := [];
    for i := 0 to |Intervals|
      invariant |row| == i
      invariant forall k :: 0 <= k < i ==> row[k] == HorizonEntry(g, Intervals[k])
    {
      var timeHorizon := startDate + HoursPerDay * Intervals[i];
      if timeHorizon > endDate {
        row := row + [NaN];
      } else {
        row := row + [Num(FlagSumBefore(g, timeHorizon))];
      }
    }
  }

  /** Storing the row of a new area adds no key other than the new area's
      label. */
  lemma TableStepKeys(table: map<string, HorizonCells>, areaType: string, done: seq<int>, area: int, row: HorizonCells)
    requires forall key :: key in table ==> exists a :: a in done && key == AreaStr(areaType, a)
    ensures var after := table[AreaStr(areaType, area) := row];
      forall key :: key in after ==> exists a :: a in done + [area] && key == AreaStr(areaType, a)
  {
    var after := table[AreaStr(areaType, area) := row];
    var done' := done + [area];
    forall key | key in after
      ensures exists a :: a in done' && key == AreaStr(areaType, a)
    {
      if key == AreaStr(areaType, area) {
        assert area in done';
      } else {
        var a :| a in done && key == AreaStr(areaType, a);
        assert a in done';
      }
    }
  }

  /** Storing the row of a new area keeps the rows of the areas already
      done, since their labels differ from the new one. */
  lemma TableStepRows(table: map<string, HorizonCells>, samples: seq<FlagSample>, areaType: string,
                      done: seq<int>, area: int, row: HorizonCells)
    requires forall a :: a in done ==>
      && |AreaSamples(samples, a)| > 0
      && AreaStr(areaType, a) in table
      && table[AreaStr(areaType, a)] == HorizonRow(AreaSamples(samples, a))
    requires area !in done
    requires |AreaSamples(samples, area)| > 0 && row == HorizonRow(AreaSamples(samples, area))
    ensures var after := table[AreaStr(areaType, area) := row];
      forall a :: a in done + [area] ==>
        && |AreaSamples(samples, a)| > 0
        && AreaStr(areaType, a) in after
        && after[AreaStr(areaType, a)] == HorizonRow(AreaSamples(samples, a))
  {
    var after := table[AreaStr(areaType, area) := row];
    forall other | other in done + [area]
      ensures && |AreaSamples(samples, other)| > 0
              && AreaStr(areaType, other) in after
              && after[AreaStr(areaType, other)] == HorizonRow(AreaSamples(samples, other))
    {
      if other != area {
        assert other in done;
        AreaStrDistinct(areaType, other, area);
      }
    }
  }

  /** get_overheating_df: for every distinct area id, in order of first
      appearance, the row of horizon cells, stored under the area's label. */
  method GetOverheatingDf(samples: seq<FlagSample>, areaType: string) returns (table: map<string, HorizonCells>)
    ensures forall key :: key in table ==> exists area :: area in AreaIds(samples) && key == AreaStr(areaType, area)
    ensures forall area :: area in AreaIds(samples) ==>
      && |AreaSamples(samples, area)| > 0
      && AreaStr(areaType, area) in table
      && table[AreaStr(areaType, area)] == HorizonRow(AreaSamples(samples, area))
  {
    table := map[];
    var areas := Unique(AreaIds(samples));
    for j := 0 to |areas|
      invariant forall key :: key in table ==> exists area :: area in areas[..j] && key == AreaStr(areaType, area)
      invariant forall area :: area in areas[..j] ==>
        && |AreaSamples(samples, area)| > 0
        && AreaStr(areaType, area) in table
        && table[AreaStr(areaType, area)] == HorizonRow(AreaSamples(samples, area))
    {
      var area := areas[j];
      assert areas[..j + 1] == areas[..j] + [area];
      AreaSamplesNonEmpty(samples, area);
      var row := HorizonCellsOf(AreaSamples(samples, area));
      TableStepKeys(table, areaType, areas[..j], area, row);
      TableStepRows(table, samples, areaType, areas[..j], area, row);
      table := table[AreaStr(areaType, area) := row];
    }
    assert areas[..|areas|] == areas;
  }

  // ---------------------------------------------------------------------
  // Reference counts and properties
  // ---------------------------------------------------------------------

  /** Every flag is 0 or 1, as assess_overheating_hours produces them. */
  predicate BinaryFlags(g: seq<FlagSample>) {
    forall k :: 0 <= k < |g| ==> g[k].overheatingFlag == 0 || g[k].overheatingFlag == 1
  }

  /** The number of samples strictly before `horizon`. */
  function CountBefore(g: seq<FlagSample>, horizon: int): nat {
    if g == [] then 0
    else CountBefore(g[..|g| - 1], horizon) + (if g[|g| - 1].time < horizon then 1 else 0)
  }

  /** The number of flagged samples strictly before `horizon`. */
  function CountFlaggedBefore(g: seq<FlagSample>, horizon: int): nat {
    if g == [] then 0
    else
      var last := g[|g| - 1];
      CountFlaggedBefore(g[..|g| - 1], horizon) + (if last.time < horizon && last.overheatingFlag == 1 then 1 else 0)
  }

  /** With 0/1 flags the cumulative sum before a horizon is the number of
      flagged samples before it, which is at most the number of samples
      before it; a later horizon counts at least as many. */
  lemma {:induction false} FlagSumBeforeCounts(g: seq<FlagSample>, horizon: int, later: int)
    requires BinaryFlags(g)
    requires horizon <= later
    ensures FlagSumBefore(g, horizon) == CountFlaggedBefore(g, horizon)
    ensures 0 <= CountFlaggedBefore(g, horizon) <= CountBefore(g, horizon)
    ensures CountFlaggedBefore(g, horizon) <= CountFlaggedBefore(g, later)
  {
    if g != [] {
      var init := g[..|g| - 1];
      assert BinaryFlags(init) by {
        assert forall k :: 0 <= k < |init| ==> init[k] == g[k];
      }
      FlagSumBeforeCounts(init, horizon, later);
    }
  }

  /** The first sample of an area lies before every horizon of at least one
      day, so the selection whose last cumulative value is read is never
      empty. */
  lemma {:induction false} SelectionNonEmpty(g: seq<FlagSample>, days: nat)
    requires |g| > 0 && days >= 1
    ensures CountBefore(g, MinTime(g) + HoursPerDay * days) >= 1
  {
    var k :| 0 <= k < |g| && g[k].time == MinTime(g);
    CountBeforePositive(g, MinTime(g) + HoursPerDay * days, k);
  }

  lemma {:induction false} CountBeforePositive(g: seq<FlagSample>, horizon: int, k: nat)
    requires k < |g| && g[k].time < horizon
    ensures CountBefore(g, horizon) >= 1
  {
    if k < |g| - 1 {
      CountBeforePositive(g[..|g| - 1], horizon, k);
    }
  }

  /** A cell is NaN exactly when its horizon lies past the area's last
      timestamp; a horizon equal to it is defined. A defined cell counts
      the flagged samples strictly before the horizon, at least 0 and at
      most the samples before it, over a selection that is never empty. */
  lemma HorizonEntryMeaning(g: seq<FlagSample>, days: nat)
    requires |g| > 0 && BinaryFlags(g) && days >= 1
    ensures var horizon := MinTime(g) + HoursPerDay * days;
      var cell := HorizonEntry(g, days);
      && (cell.NaN? <==> horizon > MaxTime(g))
      && (cell.Num? ==>
           && cell.value == CountFlaggedBefore(g, horizon)
           && 0 <= cell.value <= CountBefore(g, horizon)
           && CountBefore(g, horizon) >= 1)
  {
    var horizon := MinTime(g) + HoursPerDay * days;
    assert CountFlaggedBefore(g, horizon) <= CountBefore(g, horizon) by {
      FlagSumBeforeCounts(g, horizon, horizon);
    }
    assert CountBefore(g, horizon) >= 1 by {
      SelectionNonEmpty(g, days);
    }
  }

  /** The horizons grow along the columns. */
  lemma IntervalsIncreasing(i: nat, j: nat)
    requires i <= j < |Intervals|
    ensures Intervals[i] <= Intervals[j]
  {
  }

  /** The defined cells form a prefix of the row: once a horizon is NaN
      every later one is; along the defined cells the counts never
      decrease. */
  lemma {:induction false} HorizonRowShape(g: seq<FlagSample>, i: nat, j: nat)
    requires |g| > 0 && BinaryFlags(g) && i <= j < |Intervals|
    ensures HorizonRow(g)[i].NaN? ==> HorizonRow(g)[j].NaN?
    ensures HorizonRow(g)[j].Num? ==> HorizonRow(g)[i].Num?
    ensures HorizonRow(g)[i].Num? && HorizonRow(g)[j].Num? ==> HorizonRow(g)[i].value <= HorizonRow(g)[j].value
  {
    IntervalsIncreasing(i, j);
    var hi := MinTime(g) + HoursPerDay * Intervals[i];
    var hj := MinTime(g) + HoursPerDay * Intervals[j];
    assert hi <= hj;
    FlagSumBeforeCounts(g, hi, hj);
    FlagSumBeforeCounts(g, hj, hj);
  }

  /** The column names are pairwise distinct. */
  lemma ColumnLabelsDistinct(i: nat, j: nat)
    requires i < j < |Intervals|
    ensures ColumnLabels()[i] != ColumnLabels()[j]
  {
    var a, b := ColumnLabel(Intervals[i]), ColumnLabel(Intervals[j]);
    if a == b {
      NatToStringInjective(Intervals[i], Intervals[j]);
    }
  }

  /** An area with samples at hours 0, 24 and 30, the first and last
      flagged: the one-day cell counts the single flagged sample before hour
      24, and the seven-day cell is NaN because hour 168 is past hour 30. */
  lemma ThreeSampleExample()
    ensures var g := [FlagSample(0, 7, 1), FlagSample(24, 7, 0), FlagSample(30, 7, 1)];
      HorizonRow(g)[0] == Num(1) && HorizonRow(g)[1] == NaN
  {
    var g := [FlagSample(0, 7, 1), FlagSample(24, 7, 0), FlagSample(30, 7, 1)];
    assert g[..2] == [FlagSample(0, 7, 1), FlagSample(24, 7, 0)];
    assert g[..2][..1] == [FlagSample(0, 7, 1)];
    assert MinTime(g) == 0 && MaxTime(g) == 30;
    assert FlagSumBefore(g[..2][..1][..0], 24) == 0;
    assert FlagSumBefore(g[..2][..1], 24) == 1;
    assert FlagSumBefore(g[..2], 24) == 1;
    assert FlagSumBefore(g, 24) == 1;
  }
}
