/** identify_overheating_hours of src/utils/loader.py: each hourly row of the
    long-term frame gets an overheating flag and a night-time overheating
    flag. The thresholds and the night window, read from environment
    variables in the source, are parameters. */
module Classifier {
  import opened Cells
  import opened Frames

  /** THRESHOLD_OVERHEATING_IAT, NIGHT_START_HOUR and NIGHT_END_HOUR. */
  datatype Params = Params(thresholdIat: real, nightStartHour: int, nightEndHour: int)

  /** A row of the frame after classification: the original columns and the
      two flag columns; the night flag is NaN outside the night window. */
  datatype Row = Row(record: Record, overheatingFlag: int, nightOverheatingFlag: Cell<int>)

  /** The night window `hour >= start | hour <= end`; it wraps past midnight
      when start > end and covers every hour when start <= end + 1. */
  predicate InNightWindow(hour: int, p: Params) {
    hour >= p.nightStartHour || hour <= p.nightEndHour
  }

  /** The threshold test of the long-term classifier; it is inclusive. */
  predicate AtOrAboveThreshold(r: Record, p: Params) {
    r.predictedIat >= p.thresholdIat
  }

  /** The flags one row ends up with after the column assignments of
      identify_overheating_hours. */
  function ClassifyRecord(r: Record, p: Params): (row: Row)
    ensures row.record == r
    ensures row.overheatingFlag == 0 || row.overheatingFlag == 1
    ensures row.overheatingFlag == 1 <==> AtOrAboveThreshold(r, p)
    ensures row.nightOverheatingFlag.NaN? <==> !InNightWindow(r.time.hour, p)
    ensures row.nightOverheatingFlag.Num? ==> row.nightOverheatingFlag.value == 0 || row.nightOverheatingFlag.value == 1
    ensures row.nightOverheatingFlag == Num(1) <==> InNightWindow(r.time.hour, p) && AtOrAboveThreshold(r, p)
    ensures row.nightOverheatingFlag == Num(1) ==> row.overheatingFlag == 1
  {
    var filtHours := InNightWindow(r.time.hour, p);
    var filtThreshold := AtOrAboveThreshold(r, p);
    var night := if filtHours && filtThreshold then Num(1) else if !filtHours then NaN else Num(0);
    Row(r, if filtThreshold then 1 else 0, night)
  }

  /** The classified frame: same rows, same order. */
  function Classify(records: seq<Record>, p: Params): (rows: seq<Row>)
    ensures |rows| == |records|
    ensures forall k :: 0 <= k < |records| ==> rows[k] == ClassifyRecord(records[k], p)
  {
    if records == [] then [] else [ClassifyRecord(records[0], p)] + Classify(records[1..], p)
  }

  function Records(rows: seq<Row>): (records: seq<Record>)
    ensures |records| == |rows| && forall k :: 0 <= k < |rows| ==> records[k] == rows[k].record
  {
    seq(|rows|, k requires 0 <= k < |rows| => rows[k].record)
  }

  /** identify_overheating_hours, step by step on the frame in place: both
      flag columns set to 0, the night flag set to NaN outside the window,
      then to 1 where the hour is in the window and the temperature at or
      above the threshold, then the overheating flag set to 1 wherever the
      temperature is at or above the threshold. */
  method IdentifyOverheatingHours(frame: array<Row>, p: Params)
    modifies frame
    ensures frame[..] == Classify(Records(old(frame[..])), p)
  {
    // Both flag columns start at 0 (loader.py:250-251).
    for k := 0 to frame.Length
      invariant forall j :: 0 <= j < frame.Length ==> frame[j].record == old(frame[j].record)
      invariant forall j :: 0 <= j < k ==> frame[j].overheatingFlag == 0 && frame[j].nightOverheatingFlag == Num(0)
    {
      frame[k] := frame[k].(overheatingFlag := 0, nightOverheatingFlag := Num(0));
    }
    // Outside the night window the night flag becomes NaN (loader.py:252-253).
    for k := 0 to frame.Length
      invariant forall j :: 0 <= j < frame.Length ==> frame[j].record == old(frame[j].record)
      invariant forall j :: 0 <= j < frame.Length ==> frame[j].overheatingFlag == 0
      invariant forall j :: 0 <= j < k ==>
        frame[j].nightOverheatingFlag == if InNightWindow(frame[j].record.time.hour, p) then Num(0) else NaN
      invariant forall j :: k <= j < frame.Length ==> frame[j].nightOverheatingFlag == Num(0)
    {
      if !InNightWindow(frame[k].record.time.hour, p) {
        frame[k] := frame[k].(nightOverheatingFlag := NaN);
      }
    }
    // Inside the window and at or above the threshold it becomes 1 (loader.py:254).
    for k := 0 to frame.Length
      invariant forall j :: 0 <= j < frame.Length ==> frame[j].record == old(frame[j].record)
      invariant forall j :: 0 <= j < frame.Length ==> frame[j].overheatingFlag == 0
      invariant forall j :: 0 <= j < k ==>
        frame[j].nightOverheatingFlag == ClassifyRecord(frame[j].record, p).nightOverheatingFlag
      invariant forall j :: k <= j < frame.Length ==>
        frame[j].nightOverheatingFlag == if InNightWindow(frame[j].record.time.hour, p) then Num(0) else NaN
    {
      if InNightWindow(frame[k].record.time.hour, p) && AtOrAboveThreshold(frame[k].record, p) {
        frame[k] := frame[k].(nightOverheatingFlag := Num(1));
      }
    }
    // At or above the threshold the day flag becomes 1 (loader.py:255-256).
    for k := 0 to frame.Length
      invariant forall j :: 0 <= j < frame.Length ==> frame[j].record == old(frame[j].record)
      invariant forall j :: 0 <= j < frame.Length ==>
        frame[j].nightOverheatingFlag == ClassifyRecord(frame[j].record, p).nightOverheatingFlag
      invariant forall j :: 0 <= j < k ==> frame[j] == ClassifyRecord(frame[j].record, p)
      invariant forall j :: k <= j < frame.Length ==> frame[j].overheatingFlag == 0
    {
      if AtOrAboveThreshold(frame[k].record, p) {
        frame[k] := frame[k].(overheatingFlag := 1);
      }
    }
  }

  // ---------------------------------------------------------------------
  // Properties
  // ---------------------------------------------------------------------

  /** When the start hour is at most one past the end hour the window is
      every hour of the day, so no night flag is NaN. */
  lemma {:induction false} NonWrappingWindowCoversDay(records: seq<Record>, p: Params)
    requires p.nightStartHour <= p.nightEndHour + 1
    ensures forall k :: 0 <= k < |records| ==> Classify(records, p)[k].nightOverheatingFlag.Num?
  {
  }

  /** A wrapping window (start > end + 1) leaves out the hours strictly
      between end and start, whose night flag is NaN. */
  lemma WrappingWindowExcludesDaytime(r: Record, p: Params)
    requires p.nightEndHour < r.time.hour < p.nightStartHour
    ensures ClassifyRecord(r, p).nightOverheatingFlag == NaN
  {
  }
}
