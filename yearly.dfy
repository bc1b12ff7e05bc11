/** get_overheating_hours_per_year and get_overheating_perct_per_year of
    src/utils/loader.py: the classified rows are grouped by (area id, year)
    and each flag column is reduced to its sum and count, then to the
    percentage 100 * sum / count. pandas' grouped frames are maps keyed by
    the group key. */
module Yearly {
  import opened Cells
  import opened Frames
  import opened Classifier

  /** The group key of get_overheating_hours_per_year. */
  datatype AreaYear = AreaYear(areaId: int, year: int)

  /** The ['sum', 'count'] aggregate of one flag column in one group. */
  datatype SumCount = SumCount(sum: int, count: nat)

  /** One row of get_overheating_hours_per_year's result. */
  datatype YearlyHours = YearlyHours(overheatingHours: SumCount, nightOverheatingHours: SumCount)

  /** One row of get_overheating_perct_per_year's result. */
  datatype YearlyPercentage = YearlyPercentage(overheatingPerct: Cell<real>, nightOverheatingPerct: Cell<real>)

  function KeyOf(r: Record): AreaYear {
    AreaYear(r.areaId, r.time.year)
  }

  /** The distinct (area id, year) pairs of a frame. */
  function GroupKeys(records: seq<Record>): set<AreaYear> {
    set r | r in records :: KeyOf(r)
  }

  /** The rows of one group, in frame order. */
  function Group(rows: seq<Row>, key: AreaYear): seq<Row> {
    if rows == [] then []
    else if KeyOf(rows[0].record) == key then [rows[0]] + Group(rows[1..], key)
    else Group(rows[1..], key)
  }

  function OverheatingColumn(rows: seq<Row>): seq<Cell<int>> {
    if rows == [] then [] else [Num(rows[0].overheatingFlag)] + OverheatingColumn(rows[1..])
  }

  function NightOverheatingColumn(rows: seq<Row>): seq<Cell<int>> {
    if rows == [] then [] else [rows[0].nightOverheatingFlag] + NightOverheatingColumn(rows[1..])
  }

  /** pandas' 'sum' and 'count' of a column: both skip NaN cells. */
  function SumAndCount(col: seq<Cell<int>>): (sc: SumCount)
    ensures sc.count <= |col|
  {
    if col == [] then SumCount(0, 0)
    else
      var rest := SumAndCount(col[1..]);
      match col[0]
      case NaN => rest
      case Num(v) => SumCount(rest.sum + v, rest.count + 1)
  }

  /** get_overheating_hours_per_year: classify, then aggregate each flag
      column per (area id, year). There is one row per (area id, year) of
      the input; its day aggregate counts the group's rows and, as its sum,
      those at or above the threshold; its night aggregate counts the
      group's rows inside the night window and, as its sum, those also at
      or above the threshold. */
  function OverheatingHoursPerYear(records: seq<Record>, p: Params): (hours: map<AreaYear, YearlyHours>)
    ensures hours.Keys == GroupKeys(records)
    ensures forall key :: key in hours ==>
      hours[key] == YearlyHours(
        SumCount(CountWhere(records, HotInGroup(key, p)), CountWhere(records, InGroup(key))),
        SumCount(CountWhere(records, HotNightInGroup(key, p)), CountWhere(records, NightInGroup(key, p))))
  {
    var rows := Classify(records, p);
    assert forall key :: key in GroupKeys(records) ==>
      && SumAndCount(OverheatingColumn(Group(rows, key))) ==
           SumCount(CountWhere(records, HotInGroup(key, p)), CountWhere(records, InGroup(key)))
      && SumAndCount(NightOverheatingColumn(Group(rows, key))) ==
           SumCount(CountWhere(records, HotNightInGroup(key, p)), CountWhere(records, NightInGroup(key, p)))
    by {
      forall key | key in GroupKeys(records) {
        GroupAggregates(records, p, key);
      }
    }
    map key | key in GroupKeys(records) ::
      YearlyHours(SumAndCount(OverheatingColumn(Group(rows, key))),
                  SumAndCount(NightOverheatingColumn(Group(rows, key))))
  }

  /** get_ratio_groupby_col for one group: sum / count, NaN when the count
      is 0 (numpy's 0 / 0). */
  function Ratio(sc: SumCount): (r: Cell<real>)
    ensures r.NaN? <==> sc.count == 0
    ensures r.Num? ==> r.value * sc.count as real == sc.sum as real
  {
    if sc.count == 0 then NaN else Num(sc.sum as real / sc.count as real)
  }

  /** `ratio * 100`; NaN stays NaN. */
  function Percent(sc: SumCount): (p: Cell<real>)
    ensures p.NaN? <==> sc.count == 0
  {
    match Ratio(sc)
    case NaN => NaN
    case Num(v) => Num(v * 100.0)
  }

  /** The percentage table built from the hours table, row by row. */
  function PerctOfHours(hours: map<AreaYear, YearlyHours>): (perct: map<AreaYear, YearlyPercentage>)
    ensures perct.Keys == hours.Keys
  {
    map key | key in hours ::
      YearlyPercentage(Percent(hours[key].overheatingHours), Percent(hours[key].nightOverheatingHours))
  }

  /** get_overheating_perct_per_year. */
  function OverheatingPerctPerYear(records: seq<Record>, p: Params): (perct: map<AreaYear, YearlyPercentage>)
    ensures perct.Keys == GroupKeys(records)
    ensures forall key :: key in perct ==>
      && (perct[key].overheatingPerct.NaN? <==> CountWhere(records, InGroup(key)) == 0)
      && (perct[key].nightOverheatingPerct.NaN? <==> CountWhere(records, NightInGroup(key, p)) == 0)
  {
    PerctOfHours(OverheatingHoursPerYear(records, p))
  }

  // ---------------------------------------------------------------------
  // Reference counts over the input frame
  // ---------------------------------------------------------------------

  /** The number of rows of a frame that satisfy `keep`. */
  function CountWhere(records: seq<Record>, keep: Record -> bool): nat {
    if records == [] then 0
    else (if keep(records[0]) then 1 else 0) + CountWhere(records[1..], keep)
  }

  /** The rows of group `key`. */
  function InGroup(key: AreaYear): Record -> bool {
    r => KeyOf(r) == key
  }

  /** The rows of group `key` at or above the temperature threshold. */
  function HotInGroup(key: AreaYear, p: Params): Record -> bool {
    r => KeyOf(r) == key && AtOrAboveThreshold(r, p)
  }

  /** The rows of group `key` inside the night window. */
  function NightInGroup(key: AreaYear, p: Params): Record -> bool {
    r => KeyOf(r) == key && InNightWindow(r.time.hour, p)
  }

  /** The rows of group `key` inside the night window and at or above the
      temperature threshold. */
  function HotNightInGroup(key: AreaYear, p: Params): Record -> bool {
    r => KeyOf(r) == key && InNightWindow(r.time.hour, p) && AtOrAboveThreshold(r, p)
  }

  lemma {:induction false} CountWhereMonotone(records: seq<Record>, a: Record -> bool, b: Record -> bool)
    requires forall k :: 0 <= k < |records| && a(records[k]) ==> b(records[k])
    ensures CountWhere(records, a) <= CountWhere(records, b)
  {
    if records != [] {
      CountWhereMonotone(records[1..], a, b);
    }
  }

  lemma {:induction false} CountWherePositive(records: seq<Record>, keep: Record -> bool, k: nat)
    requires k < |records| && keep(records[k])
    ensures CountWhere(records, keep) >= 1
  {
    if k > 0 {
      CountWherePositive(records[1..], keep, k - 1);
    }
  }

  /** The two aggregates of a group count rows of the input frame: the
      overheating count is the group's size and its sum the rows at or
      above the threshold; the night count is the group's rows inside the
      night window and its sum those also at or above the threshold. */
  lemma {:induction false} GroupAggregates(records: seq<Record>, p: Params, key: AreaYear)
    ensures SumAndCount(OverheatingColumn(Group(Classify(records, p), key))) ==
      SumCount(CountWhere(records, HotInGroup(key, p)),
               CountWhere(records, InGroup(key)))
    ensures SumAndCount(NightOverheatingColumn(Group(Classify(records, p), key))) ==
      SumCount(CountWhere(records, HotNightInGroup(key, p)),
               CountWhere(records, NightInGroup(key, p)))
  {
    if records != [] {
      GroupAggregates(records[1..], p, key);
      var rows := Classify(records, p);
      assert rows[1..] == Classify(records[1..], p);
      var head := ClassifyRecord(records[0], p);
      var rest := Group(rows[1..], key);
      if KeyOf(records[0]) == key {
        var g := [head] + rest;
        assert Group(rows, key) == g;
        assert g[1..] == rest;
        assert OverheatingColumn(g) == [Num(head.overheatingFlag)] + OverheatingColumn(rest);
        assert OverheatingColumn(g)[1..] == OverheatingColumn(rest);
        assert NightOverheatingColumn(g) == [head.nightOverheatingFlag] + NightOverheatingColumn(rest);
        assert NightOverheatingColumn(g)[1..] == NightOverheatingColumn(rest);
      } else {
        assert Group(rows, key) == rest;
      }
    }
  }

  // ---------------------------------------------------------------------
  // Properties of the yearly tables
  // ---------------------------------------------------------------------

  /** For every (area, year) group: the overheating count is the number of
      rows in the group (at least one), the night count the number of rows
      inside the night window, each sum is at most its count, and the night
      figures are at most the overheating ones. */
  lemma {:induction false} HoursPerYearBounds(records: seq<Record>, p: Params, key: AreaYear)
    requires key in OverheatingHoursPerYear(records, p)
    ensures var h := OverheatingHoursPerYear(records, p)[key];
      && h.overheatingHours.count == CountWhere(records, InGroup(key)) >= 1
      && h.nightOverheatingHours.count == CountWhere(records, NightInGroup(key, p))
      && 0 <= h.overheatingHours.sum <= h.overheatingHours.count
      && 0 <= h.nightOverheatingHours.sum <= h.nightOverheatingHours.count
      && h.nightOverheatingHours.count <= h.overheatingHours.count
      && h.nightOverheatingHours.sum <= h.overheatingHours.sum
  {
    GroupAggregates(records, p, key);
    var inGroup, hot, night, nightHot := InGroup(key), HotInGroup(key, p), NightInGroup(key, p), HotNightInGroup(key, p);
    var r :| r in records && KeyOf(r) == key;
    var k :| 0 <= k < |records| && records[k] == r;
    CountWherePositive(records, inGroup, k);
    CountWhereMonotone(records, hot, inGroup);
    CountWhereMonotone(records, nightHot, night);
    CountWhereMonotone(records, night, inGroup);
    CountWhereMonotone(records, nightHot, hot);
  }

  /** `v` is the percentage 100 * sum / count of a non-empty aggregate
      whose sum is at most its count, so it lies within [0, 100]. */
  predicate IsPercentOf(v: real, sc: SumCount) {
    && sc.count > 0
    && v * sc.count as real == 100.0 * sc.sum as real
    && 0.0 <= v <= 100.0
  }

  /** Percentages: the overheating percentage of every group is defined and
      is 100 * sum / count, within [0, 100]; the night percentage is NaN
      exactly when the group has no row inside the night window, and
      otherwise 100 * sum / count within [0, 100]. */
  lemma {:induction false} PerctPerYearBounds(records: seq<Record>, p: Params, key: AreaYear)
    requires key in OverheatingHoursPerYear(records, p)
    ensures key in OverheatingPerctPerYear(records, p)
    ensures var h := OverheatingHoursPerYear(records, p)[key];
      var pc := OverheatingPerctPerYear(records, p)[key];
      && pc.overheatingPerct.Num?
      && IsPercentOf(pc.overheatingPerct.value, h.overheatingHours)
      && (pc.nightOverheatingPerct.NaN? <==> CountWhere(records, NightInGroup(key, p)) == 0)
      && (pc.nightOverheatingPerct.Num? ==> IsPercentOf(pc.nightOverheatingPerct.value, h.nightOverheatingHours))
  {
    var hours := OverheatingHoursPerYear(records, p);
    var h := hours[key];
    HoursPerYearBounds(records, p, key);
    PercentBounds(h.overheatingHours);
    PercentBounds(h.nightOverheatingHours);
    assert PerctOfHours(hours)[key] == YearlyPercentage(Percent(h.overheatingHours), Percent(h.nightOverheatingHours));
  }

  /** The percentage of an aggregate whose sum is at most its count: NaN
      exactly when the count is 0, otherwise 100 * sum / count. */
  lemma PercentBounds(sc: SumCount)
    requires 0 <= sc.sum <= sc.count
    ensures Percent(sc).NaN? <==> sc.count == 0
    ensures Percent(sc).Num? ==> IsPercentOf(Percent(sc).value, sc)
  {
    if sc.count > 0 {
      var v := sc.sum as real / sc.count as real;
      assert v * sc.count as real == sc.sum as real;
      assert 0.0 <= v <= 1.0;
    }
  }
}
