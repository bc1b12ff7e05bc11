/** The rows of the simulation and forecast frames that src/utils/loader.py
    loads, the dummy-data replicators that turn one dwelling's data into
    three dwellings, and the May-September filter of the long-term data. */
module Frames {

  /** An entry of the frames' DatetimeIndex: the index value itself, as a
      position on the time line in hours (it keeps rows at different
      instants apart), and the calendar fields the source reads from it
      (`.year`, `.month`, `.hour`). */
  datatype Timestamp = Timestamp(epochHours: int, year: int, month: int, hour: int)

  /** One row of a frame: the timestamp index, the area id column, the
      predicted indoor air temperature column and the remaining numeric
      columns in column order. */
  datatype Record = Record(time: Timestamp, areaId: int, predictedIat: real, otherColumns: seq<real>)

  /** nb_dwellings in both replicators. */
  const NbDwellings: nat := 3

  /** Block `i` of duplicates_dummy_simulation_data: a copy of the data with
      area id `i` and only the predicted temperature multiplied by `i`. */
  function SimulationCopy(org: seq<Record>, i: nat): (block: seq<Record>)
    ensures |block| == |org|
    ensures forall k :: 0 <= k < |org| ==>
      && block[k].time == org[k].time
      && block[k].areaId == i
      && block[k].predictedIat == org[k].predictedIat * i as real
      && block[k].otherColumns == org[k].otherColumns
  {
    seq(|org|, k requires 0 <= k < |org| =>
      org[k].(areaId := i, predictedIat := org[k].predictedIat * i as real))
  }

  /** `xs * f` on the numeric columns of a row. */
  function Scale(xs: seq<real>, f: real): (ys: seq<real>)
    ensures |ys| == |xs| && forall k :: 0 <= k < |xs| ==> ys[k] == xs[k] * f
  {
    seq(|xs|, k requires 0 <= k < |xs| => xs[k] * f)
  }

  /** Block `i` of duplicates_dummy_forecasted_data: every numeric column
      multiplied by `i` (the index is not), then area id `i`. */
  function ForecastCopy(org: seq<Record>, i: nat): (block: seq<Record>)
    ensures |block| == |org|
    ensures forall k :: 0 <= k < |org| ==>
      && block[k].time == org[k].time
      && block[k].areaId == i
      && block[k].predictedIat == org[k].predictedIat * i as real
      && block[k].otherColumns == Scale(org[k].otherColumns, i as real)
  {
    seq(|org|, k requires 0 <= k < |org| =>
      Record(org[k].time, i, org[k].predictedIat * i as real, Scale(org[k].otherColumns, i as real)))
  }

  /** pd.concat of a list of frames: the frames' rows one after another, so
      a row is in the result exactly when it is a row of one of the frames. */
  function Concat(frames: seq<seq<Record>>): (r: seq<Record>)
    ensures forall x :: x in r <==> exists i :: 0 <= i < |frames| && x in frames[i]
  {
    if frames == [] then []
    else
      var init := frames[..|frames| - 1];
      assert forall i :: 0 <= i < |init| ==> init[i] == frames[i];
      Concat(init) + frames[|frames| - 1]
  }

  /** duplicates_dummy_simulation_data: three copies of the input, block `i`
      tagged with area id `i` and its temperature multiplied by `i`. */
  method DuplicatesDummySimulationData(org: seq<Record>) returns (r: seq<Record>)
    ensures |r| == NbDwellings * |org|
    ensures r[..|org|] == SimulationCopy(org, 0)
    ensures r[|org|..2 * |org|] == SimulationCopy(org, 1)
    ensures r[2 * |org|..] == SimulationCopy(org, 2)
  {
    var frames: seq<seq<Record>> := [];
    for i := 0 to NbDwellings
      invariant |frames| == i
      invariant forall j :: 0 <= j < i ==> frames[j] == SimulationCopy(org, j)
    {
      var copy := SimulationCopy(org, i);
      frames := frames + [copy];
    }
    r := Concat(frames);
    ConcatOfThree(frames);
  }

  /** duplicates_dummy_forecasted_data: three copies of the input, block `i`
      tagged with area id `i` and every column multiplied by `i`. */
  method DuplicatesDummyForecastedData(org: seq<Record>) returns (r: seq<Record>)
    ensures |r| == NbDwellings * |org|
    ensures r[..|org|] == ForecastCopy(org, 0)
    ensures r[|org|..2 * |org|] == ForecastCopy(org, 1)
    ensures r[2 * |org|..] == ForecastCopy(org, 2)
  {
    var frames: seq<seq<Record>> := [];
    for i := 0 to NbDwellings
      invariant |frames| == i
      invariant forall j :: 0 <= j < i ==> frames[j] == ForecastCopy(org, j)
    {
      var copy := ForecastCopy(org, i);
      frames := frames + [copy];
    }
    r := Concat(frames);
    ConcatOfThree(frames);
  }

  /** Concatenating one more frame appends its rows after all the others. */
  lemma ConcatSnoc(frames: seq<seq<Record>>, f: seq<Record>)
    ensures Concat(frames + [f]) == Concat(frames) + f
  {
    assert (frames + [f])[..|frames|] == frames;
  }

  lemma ConcatOfThree(frames: seq<seq<Record>>)
    requires |frames| == 3
    ensures Concat(frames) == frames[0] + frames[1] + frames[2]
  {
    var two, one := frames[..2], frames[..1];
    assert two[..1] == one && one[..0] == [];
    assert Concat(one) == frames[0];
    assert Concat(two) == frames[0] + frames[1];
  }

  /** The month filter of get_dummy_longterm_data: rows from May to
      September inclusive, in their original order. */
  predicate InSummer(r: Record) {
    5 <= r.time.month <= 9
  }

  function SummerMonths(rows: seq<Record>): (kept: seq<Record>)
    ensures |kept| <= |rows|
    ensures forall k :: 0 <= k < |kept| ==> InSummer(kept[k]) && kept[k] in rows
    ensures forall k :: 0 <= k < |rows| && InSummer(rows[k]) ==> rows[k] in kept
  {
    if rows == [] then []
    else
      var init := SummerMonths(rows[..|rows| - 1]);
      var last := rows[|rows| - 1];
      assert forall k :: 0 <= k < |rows| - 1 ==> rows[k] == rows[..|rows| - 1][k];
      if InSummer(last) then init + [last] else init
  }

  /** Every summer row is kept as many times as it occurs in the input, and
      every other row is dropped. */
  lemma {:induction false} SummerMonthsCounts(rows: seq<Record>)
    ensures forall r :: multiset(SummerMonths(rows))[r] == if InSummer(r) then multiset(rows)[r] else 0
  {
    if rows != [] {
      var init := rows[..|rows| - 1];
      var last := rows[|rows| - 1];
      SummerMonthsCounts(init);
      assert rows == init + [last];
      SummerMonthsSnoc(init, last);
    }
  }

  /** A single row is kept exactly when it is in summer. */
  lemma SummerMonthsOfOne(r: Record)
    ensures SummerMonths([r]) == if InSummer(r) then [r] else []
  {
    assert [r][..0] == [];
  }

  /** Appending a row appends it to the result exactly when it is in summer. */
  lemma SummerMonthsSnoc(rows: seq<Record>, r: Record)
    ensures SummerMonths(rows + [r]) == SummerMonths(rows) + if InSummer(r) then [r] else []
  {
    var zs := rows + [r];
    assert zs[..|zs| - 1] == rows;
  }

  /** The mask works row by row: filtering a concatenation filters each
      part and keeps the parts in order, so every summer row is kept as
      often as it occurs and in its place. */
  lemma {:induction false} SummerMonthsAppend(xs: seq<Record>, ys: seq<Record>)
    ensures SummerMonths(xs + ys) == SummerMonths(xs) + SummerMonths(ys)
    decreases |ys|
  {
    if ys == [] {
      assert xs + ys == xs;
    } else {
      var init := ys[..|ys| - 1];
      var last := ys[|ys| - 1];
      assert ys == init + [last];
      assert xs + ys == (xs + init) + [last];
      SummerMonthsAppend(xs, init);
      SummerMonthsSnoc(xs + init, last);
      SummerMonthsSnoc(init, last);
    }
  }

  /** Filtering twice is filtering once: every kept row is in summer. */
  lemma {:induction false} SummerMonthsIdempotent(rows: seq<Record>)
    ensures SummerMonths(SummerMonths(rows)) == SummerMonths(rows)
  {
    if rows != [] {
      var init := rows[..|rows| - 1];
      var last := rows[|rows| - 1];
      SummerMonthsIdempotent(init);
      var kept := SummerMonths(init);
      if InSummer(last) {
        var k2 := kept + [last];
        assert k2[..|k2| - 1] == kept;
      }
    }
  }
}
