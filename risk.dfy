/** The long-term risk figures of src/utils/loader.py: each (area, year) is
    marked at risk when its percentage of overheating hours exceeds a
    threshold (get_overheating_summary_results), the marks are collapsed
    per area into the percentage of years at risk (get_overheating_table),
    and that percentage is rendered as text
    (transform_overheating_table_from_float_to_text). The two percentage
    thresholds, read from environment variables in the source, are
    parameters. */
module Risk {
  import opened Cells
  import opened Decimal
  import opened Frames
  import opened Classifier
  import opened Yearly

  /** THRESHOLD_OVERHEATING_PERCENTAGE and
      THRESHOLD_NIGHT_OVERHEATING_PERCENTAGE. */
  datatype RiskParams = RiskParams(thresholdPercentage: real, thresholdNightPercentage: real)

  /** One row of get_overheating_summary_results' result. */
  datatype YearlyFlags = YearlyFlags(overheatingFlag: int, nightOverheatingFlag: int)

  /** One row of get_overheating_table's result. */
  datatype AreaRisk = AreaRisk(overheatingRisk: Cell<real>, nightOverheatingRisk: Cell<real>)

  /** One row of the table after transform_overheating_table_from_float_to_text. */
  datatype AreaRiskText = AreaRiskText(overheatingRisk: string, nightOverheatingRisk: string)

  /** The mark of one (area, year): 1 where the percentage is strictly above
      the threshold, 0 otherwise; a NaN percentage compares false. */
  function RiskFlag(perct: Cell<real>, threshold: real): (flag: int)
    ensures flag == 0 || flag == 1
    ensures flag == 1 <==> perct.Num? && perct.value > threshold
  {
    match perct
    case NaN => 0
    case Num(v) => if v > threshold then 1 else 0
  }

  /** get_overheating_summary_results: one pair of marks per (area, year). */
  function OverheatingSummaryResults(perct: map<AreaYear, YearlyPercentage>, rp: RiskParams): (flags: map<AreaYear, YearlyFlags>)
    ensures flags.Keys == perct.Keys
    ensures forall key :: key in flags ==>
      && (flags[key].overheatingFlag == 0 || flags[key].overheatingFlag == 1)
      && (flags[key].nightOverheatingFlag == 0 || flags[key].nightOverheatingFlag == 1)
      && (flags[key].overheatingFlag == 1 <==>
            perct[key].overheatingPerct.Num? && perct[key].overheatingPerct.value > rp.thresholdPercentage)
      && (flags[key].nightOverheatingFlag == 1 <==>
            perct[key].nightOverheatingPerct.Num? && perct[key].nightOverheatingPerct.value > rp.thresholdNightPercentage)
  {
    map key | key in perct ::
      YearlyFlags(RiskFlag(perct[key].overheatingPerct, rp.thresholdPercentage),
                  RiskFlag(perct[key].nightOverheatingPerct, rp.thresholdNightPercentage))
  }

  /** The area ids of a table keyed by (area, year). */
  function AreasOf(keys: set<AreaYear>): set<int> {
    set key | key in keys :: key.areaId
  }

  /** The years (as keys) of one area. */
  function YearsOf(flags: map<AreaYear, YearlyFlags>, area: int): set<AreaYear> {
    set key | key in flags && key.areaId == area
  }

  /** The years of one area marked at risk of overheating. */
  function FlaggedYears(flags: map<AreaYear, YearlyFlags>, area: int): set<AreaYear> {
    set key | key in flags && key.areaId == area && flags[key].overheatingFlag == 1
  }

  /** The years of one area marked at risk of night overheating. */
  function NightFlaggedYears(flags: map<AreaYear, YearlyFlags>, area: int): set<AreaYear> {
    set key | key in flags && key.areaId == area && flags[key].nightOverheatingFlag == 1
  }

  /** The ['sum', 'count'] aggregate of a mark column over one area: the
      marks are 0 or 1 and never NaN, so the sum is the number of marked
      years and the count the number of years. */
  function AreaAggregate(flags: map<AreaYear, YearlyFlags>, area: int, night: bool): (sc: SumCount)
    ensures 0 <= sc.sum <= sc.count
    ensures sc.count == |YearsOf(flags, area)|
  {
    var marked := if night then NightFlaggedYears(flags, area) else FlaggedYears(flags, area);
    assert marked <= YearsOf(flags, area);
    SubsetCardinality(marked, YearsOf(flags, area));
    SumCount(|marked|, |YearsOf(flags, area)|)
  }

  /** get_overheating_table: the marks grouped by area id, each column
      turned into `sum / count * 100`. */
  function OverheatingTable(perct: map<AreaYear, YearlyPercentage>, rp: RiskParams): (table: map<int, AreaRisk>)
    ensures table.Keys == AreasOf(perct.Keys)
  {
    var flags := OverheatingSummaryResults(perct, rp);
    map area | area in AreasOf(flags.Keys) ::
      AreaRisk(Percent(AreaAggregate(flags, area, false)), Percent(AreaAggregate(flags, area, true)))
  }

  // ---------------------------------------------------------------------
  // Text
  // ---------------------------------------------------------------------

  /** The integer nearest to `v`, ties to the even one: the `.0f` format. */
  function RoundHalfEven(v: real): (n: int)
    ensures -0.5 <= n as real - v <= 0.5
    ensures (n as real - v == 0.5 || v - n as real == 0.5) ==> n % 2 == 0
  {
    var f := v.Floor;
    var frac := v - f as real;
    if frac < 0.5 then f
    else if frac > 0.5 then f + 1
    else if f % 2 == 0 then f
    else f + 1
  }

  /** risk_overheating_text of a risk given as a fraction. */
  function RiskOverheatingText(x: real): (text: string)
    ensures text == "None" <==> x == 0.0
  {
    if x == 0.0 then "None"
    else "1 out of " + IntToString(RoundHalfEven(1.0 / x)) + " summers"
  }

  /** The text of one cell of the risk table, whose value is a percentage:
      the cell is divided by 100 first. A NaN cell is not 0 and formats as
      "nan". */
  function RiskText(risk: Cell<real>): (text: string)
    ensures text == "None" <==> risk == Num(0.0)
  {
    match risk
    case NaN => "1 out of nan summers"
    case Num(v) => RiskOverheatingText(v / 100.0)
  }

  /** transform_overheating_table_from_float_to_text: both columns of every
      row rendered as text. */
  function TransformOverheatingTableFromFloatToText(table: map<int, AreaRisk>): (text: map<int, AreaRiskText>)
    ensures text.Keys == table.Keys
  {
    map area | area in table ::
      AreaRiskText(RiskText(table[area].overheatingRisk), RiskText(table[area].nightOverheatingRisk))
  }

  // ---------------------------------------------------------------------
  // Properties
  // ---------------------------------------------------------------------

  /** Every area of the table has at least one year, so its marks have a
      non-zero count. */
  lemma YearsOfNonEmpty(perct: map<AreaYear, YearlyPercentage>, rp: RiskParams, area: int)
    requires area in AreasOf(perct.Keys)
    ensures |YearsOf(OverheatingSummaryResults(perct, rp), area)| >= 1
  {
    var flags := OverheatingSummaryResults(perct, rp);
    var key :| key in perct && key.areaId == area;
    assert key in YearsOf(flags, area);
  }

  lemma SubsetCardinality<T>(a: set<T>, b: set<T>)
    requires a <= b
    ensures |a| <= |b|
    ensures |a| == |b| ==> a == b
  {
    assert b == a + (b - a);
  }

  /** The risk of one mark column: defined, 100 * (marked years) / (years),
      0 exactly when no year is marked and 100 exactly when every year is. */
  lemma {:induction false} AreaRiskOf(flags: map<AreaYear, YearlyFlags>, area: int, night: bool)
    requires |YearsOf(flags, area)| >= 1
    ensures var marked := if night then NightFlaggedYears(flags, area) else FlaggedYears(flags, area);
      var risk := Percent(AreaAggregate(flags, area, night));
      && marked <= YearsOf(flags, area)
      && risk.Num?
      && IsPercentOf(risk.value, SumCount(|marked|, |YearsOf(flags, area)|))
      && (risk.value == 0.0 <==> marked == {})
      && (risk.value == 100.0 <==> marked == YearsOf(flags, area))
  {
    var marked := if night then NightFlaggedYears(flags, area) else FlaggedYears(flags, area);
    var years := YearsOf(flags, area);
    SubsetCardinality(marked, years);
    var sc := SumCount(|marked|, |years|);
    assert AreaAggregate(flags, area, night) == sc;
    PercentBounds(sc);
    var v := Percent(sc).value;
    assert v * |years| as real == 100.0 * |marked| as real;
    if v == 0.0 {
      assert |marked| == 0;
    }
    if v == 100.0 {
      assert |marked| == |years|;
    }
    if marked == years {
      assert (v - 100.0) * |years| as real == 0.0;
    }
  }

  /** get_overheating_table: one row per area; both risks of an area are
      defined and are 100 * (years marked) / (years of the area), within
      [0, 100], 0 exactly when no year is marked and 100 exactly when every
      year is. A year whose night percentage is NaN counts as a year that
      is not marked. */
  lemma {:induction false} OverheatingTableRisks(perct: map<AreaYear, YearlyPercentage>, rp: RiskParams, area: int)
    requires area in AreasOf(perct.Keys)
    ensures var flags := OverheatingSummaryResults(perct, rp);
      var years := YearsOf(flags, area);
      var table := OverheatingTable(perct, rp);
      && area in table
      && years == set key | key in perct && key.areaId == area
      && table[area].overheatingRisk.Num?
      && IsPercentOf(table[area].overheatingRisk.value, SumCount(|FlaggedYears(flags, area)|, |years|))
      && (table[area].overheatingRisk.value == 0.0 <==> FlaggedYears(flags, area) == {})
      && (table[area].overheatingRisk.value == 100.0 <==> FlaggedYears(flags, area) == years)
      && table[area].nightOverheatingRisk.Num?
      && IsPercentOf(table[area].nightOverheatingRisk.value, SumCount(|NightFlaggedYears(flags, area)|, |years|))
      && (table[area].nightOverheatingRisk.value == 0.0 <==> NightFlaggedYears(flags, area) == {})
      && (table[area].nightOverheatingRisk.value == 100.0 <==> NightFlaggedYears(flags, area) == years)
  {
    var flags := OverheatingSummaryResults(perct, rp);
    YearsOfNonEmpty(perct, rp, area);
    AreaRiskOf(flags, area, false);
    AreaRiskOf(flags, area, true);
  }

  /** The long-term table has exactly one row per area id of the input
      frame. */
  lemma OverheatingTableAreas(records: seq<Record>, p: Params, rp: RiskParams)
    ensures OverheatingTable(OverheatingPerctPerYear(records, p), rp).Keys == set r | r in records :: r.areaId
  {
    var keys := OverheatingPerctPerYear(records, p).Keys;
    assert keys == GroupKeys(records);
    forall area | area in AreasOf(keys)
      ensures exists r :: r in records && r.areaId == area
    {
      var key :| key in keys && key.areaId == area;
      var r :| r in records && KeyOf(r) == key;
    }
    forall area | area in set r | r in records :: r.areaId
      ensures area in AreasOf(keys)
    {
      var r :| r in records && r.areaId == area;
      assert KeyOf(r) in keys;
    }
  }

  /** A year is marked exactly when its percentage is above the threshold. */
  lemma FlaggedYearsAreAboveThreshold(perct: map<AreaYear, YearlyPercentage>, rp: RiskParams, area: int)
    ensures var flags := OverheatingSummaryResults(perct, rp);
      && FlaggedYears(flags, area) ==
           set key | key in perct && key.areaId == area
             && perct[key].overheatingPerct.Num? && perct[key].overheatingPerct.value > rp.thresholdPercentage
      && NightFlaggedYears(flags, area) ==
           set key | key in perct && key.areaId == area
             && perct[key].nightOverheatingPerct.Num? && perct[key].nightOverheatingPerct.value > rp.thresholdNightPercentage
  {
  }

  lemma LessTimesPositive(a: real, b: real, c: real)
    requires a < b && c > 0.0
    ensures a * c < b * c
  {
    assert (b - a) * c > 0.0;
  }

  lemma TimesCancel(a: real, b: real, c: real)
    requires a * c == b * c && c != 0.0
    ensures a == b
  {
    assert (a - b) * c == 0.0;
  }

  /** The rounded reciprocal of a fraction `k / n` of years with k > 0 is a
      whole number of summers between 1 and n. */
  lemma {:induction false} RoundedReciprocalBounds(k: nat, n: nat)
    requires 0 < k <= n
    ensures 1 <= RoundHalfEven(n as real / k as real) <= n
  {
    QuotientBounds(k as real, n as real);
  }

  lemma QuotientBounds(kk: real, nn: real)
    requires 1.0 <= kk <= nn
    ensures 1.0 <= nn / kk <= nn
  {
    var v := nn / kk;
    assert v * kk == nn;
    if v < 1.0 {
      LessTimesPositive(v, 1.0, kk);
      assert false;
    }
    if v > nn {
      LessTimesPositive(nn, v, kk);
      assert false;
    }
  }

  /** The text of an area's risk, read in terms of its years: "None" when
      no year is marked, otherwise "1 out of N summers" where N is the
      number of years divided by the number of marked years, rounded, and
      lies between 1 and the number of years. */
  lemma {:induction false} RiskTextOfYears(marked: nat, years: nat, risk: Cell<real>)
    requires marked <= years && years >= 1
    requires risk.Num? && IsPercentOf(risk.value, SumCount(marked, years))
    ensures marked == 0 ==> RiskText(risk) == "None"
    ensures marked > 0 ==>
      && RiskText(risk) == "1 out of " + IntToString(RoundHalfEven(years as real / marked as real)) + " summers"
      && 1 <= RoundHalfEven(years as real / marked as real) <= years
  {
    var v := risk.value;
    var x := v / 100.0;
    assert x * years as real == marked as real;
    if marked > 0 {
      assert x != 0.0;
      var q := years as real / marked as real;
      var yy := years as real;
      var mm := marked as real;
      assert x * yy == mm;
      assert q * mm == yy;
      var xq := x * q;
      calc {
        xq * yy;
        q * (x * yy);
        q * mm;
        yy;
        1.0 * yy;
      }
      TimesCancel(xq, 1.0, yy);
      assert 1.0 / x == q;
      RoundedReciprocalBounds(marked, years);
    }
  }

  /** The text table: for every area, a risk column reads "None" exactly
      when none of the area's years is marked, and otherwise
      "1 out of N summers" with N the number of years divided by the
      number of marked years, rounded. */
  lemma {:induction false} TextTableOfYears(perct: map<AreaYear, YearlyPercentage>, rp: RiskParams, area: int)
    requires area in AreasOf(perct.Keys)
    ensures var flags := OverheatingSummaryResults(perct, rp);
      var n := |YearsOf(flags, area)|;
      var k, kn := |FlaggedYears(flags, area)|, |NightFlaggedYears(flags, area)|;
      var text := TransformOverheatingTableFromFloatToText(OverheatingTable(perct, rp));
      && area in text
      && (text[area].overheatingRisk == "None" <==> FlaggedYears(flags, area) == {})
      && (k > 0 ==>
            text[area].overheatingRisk == "1 out of " + IntToString(RoundHalfEven(n as real / k as real)) + " summers")
      && (text[area].nightOverheatingRisk == "None" <==> NightFlaggedYears(flags, area) == {})
      && (kn > 0 ==>
            text[area].nightOverheatingRisk == "1 out of " + IntToString(RoundHalfEven(n as real / kn as real)) + " summers")
  {
    var flags := OverheatingSummaryResults(perct, rp);
    var table := OverheatingTable(perct, rp);
    var years := YearsOf(flags, area);
    OverheatingTableRisks(perct, rp, area);
    assert |FlaggedYears(flags, area)| <= |years| by {
      SubsetCardinality(FlaggedYears(flags, area), years);
    }
    assert |NightFlaggedYears(flags, area)| <= |years| by {
      SubsetCardinality(NightFlaggedYears(flags, area), years);
    }
    YearsOfNonEmpty(perct, rp, area);
    RiskTextOfYears(|FlaggedYears(flags, area)|, |years|, table[area].overheatingRisk);
    RiskTextOfYears(|NightFlaggedYears(flags, area)|, |years|, table[area].nightOverheatingRisk);
  }

  /** A risk of 20% is "1 out of 5 summers". */
  lemma RiskTextOfTwentyPercent()
    ensures RiskText(Num(20.0)) == "1 out of 5 summers"
  {
    assert RoundHalfEven(1.0 / (20.0 / 100.0)) == 5;
    assert IntToString(5) == "5";
  }

  /** Rounding is half to even, not half up: 2.5 summers shows as 2. */
  lemma RoundHalfEvenOfTwoAndAHalf()
    ensures RoundHalfEven(2.5) == 2
  {
    assert (2.5).Floor == 2;
  }
}
