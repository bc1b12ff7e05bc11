/** The area label codec of src/utils/common_functions.py: an area id is
    shown as "<area type>  <id>" (two spaces) and read back by splitting on
    "<area type> " (one space) and calling int() on the second piece. The
    area type, read from the AREA_TYPE environment variable in the source,
    is a parameter here. */
module AreaLabel {
  import opened Cells
  import opened Decimal

  /** The two exceptions get_area_id can raise. */
  datatype AreaIdError =
    | IndexError   // the separator does not occur: split() gives one piece
    | ValueError   // the second piece is not an integer

  /** get_area_str: the area type, two spaces, then the id in decimal. */
  function AreaStr(areaType: string, areaId: int): (s: string)
    ensures |s| > |areaType| + 2
    ensures s[..|areaType|] == areaType && s[|areaType|..|areaType| + 2] == "  "
    ensures s[|areaType| + 2..] == IntToString(areaId)
  {
    areaType + "  " + IntToString(areaId)
  }

  /** get_list_area_str: one label per id, in the same order. */
  function ListAreaStr(areaType: string, ids: seq<int>): (labels: seq<string>)
    ensures |labels| == |ids|
    ensures forall k :: 0 <= k < |ids| ==> labels[k] == AreaStr(areaType, ids[k])
  {
    seq(|ids|, k requires 0 <= k < |ids| => AreaStr(areaType, ids[k]))
  }

  predicate OccursAt(s: string, sep: string, i: int) {
    0 <= i && i + |sep| <= |s| && s[i..i + |sep|] == sep
  }

  /** The first occurrence of `sep` in `s` at or after `from`. */
  function Find(s: string, sep: string, from: nat): (r: Option<nat>)
    ensures r.Some? ==> from <= r.value && OccursAt(s, sep, r.value)
    ensures r.Some? ==> forall j :: from <= j < r.value ==> !OccursAt(s, sep, j)
    ensures r.None? ==> forall j :: from <= j ==> !OccursAt(s, sep, j)
    decreases |s| - from
  {
    if from + |sep| > |s| then None
    else if s[from..from + |sep|] == sep then Some(from)
    else Find(s, sep, from + 1)
  }

  /** `s.split(sep)[1]`: the text between the first occurrence of `sep` and
      the next one (or the end of `s`); None where Python raises IndexError
      because `sep` does not occur. Python refuses an empty separator. */
  function SecondPiece(s: string, sep: string): (piece: Option<string>)
    requires |sep| > 0
    ensures piece.None? <==> forall j :: !OccursAt(s, sep, j)
  {
    match Find(s, sep, 0)
    case None => None
    case Some(i) =>
      var from := i + |sep|;
      match Find(s, sep, from)
      case None => Some(s[from..])
      case Some(j) => Some(s[from..j])
  }

  /** get_area_id: the integer after the first "<area type> " of `value`. */
  function AreaId(areaType: string, value: string): (r: Result<int, AreaIdError>)
    ensures r == Failure(IndexError) <==> forall j :: !OccursAt(value, areaType + " ", j)
  {
    match SecondPiece(value, areaType + " ")
    case None => Failure(IndexError)
    case Some(piece) =>
      match ParseInt(piece)
      case None => Failure(ValueError)
      case Some(id) => Success(id)
  }

  // ---------------------------------------------------------------------
  // Properties
  // ---------------------------------------------------------------------

  /** `sep` occurs at `i` and nowhere before it. */
  predicate FirstOccurrence(s: string, sep: string, i: int) {
    OccursAt(s, sep, i) && forall j :: 0 <= j < i ==> !OccursAt(s, sep, j)
  }

  /** `e` ends the piece that starts at `from`: the next occurrence of `sep`
      at or after `from`, or the end of `s` when there is none. */
  predicate PieceEnd(s: string, sep: string, from: int, e: int) {
    && from <= e <= |s|
    && (e == |s| || OccursAt(s, sep, e))
    && forall j :: from <= j < e ==> !OccursAt(s, sep, j)
  }

  /** `s.split(sep)[1]` is the text from the end of the first occurrence of
      `sep` up to the next occurrence, or up to the end of `s`. */
  lemma SecondPieceBetween(s: string, sep: string, i: int, e: int)
    requires |sep| > 0
    requires FirstOccurrence(s, sep, i) && PieceEnd(s, sep, i + |sep|, e)
    ensures SecondPiece(s, sep) == Some(s[i + |sep|..e])
  {
    assert Find(s, sep, 0) == Some(i);
    if e < |s| {
      assert Find(s, sep, i + |sep|) == Some(e);
    } else {
      forall j | i + |sep| <= j
        ensures !OccursAt(s, sep, j)
      {
      }
      assert Find(s, sep, i + |sep|) == None;
      assert s[i + |sep|..] == s[i + |sep|..e];
    }
  }

  /** get_area_id on any text where "<area type> " occurs: the result is
      the id that int() reads from the piece between the first occurrence
      and the next, and ValueError exactly when int() rejects that piece. */
  lemma AreaIdParsesSecondPiece(areaType: string, value: string, i: int, e: int)
    requires FirstOccurrence(value, areaType + " ", i)
    requires PieceEnd(value, areaType + " ", i + |areaType| + 1, e)
    ensures ParseInt(value[i + |areaType| + 1..e]).Some? ==>
      AreaId(areaType, value) == Success(ParseInt(value[i + |areaType| + 1..e]).value)
    ensures ParseInt(value[i + |areaType| + 1..e]).None? <==> AreaId(areaType, value) == Failure(ValueError)
  {
    var piece := value[i + |areaType| + 1..e];
    assert SecondPiece(value, areaType + " ") == Some(piece) by {
      SecondPieceBetween(value, areaType + " ", i, e);
    }
  }

  /** Round trip: reading back a label gives the id, for any non-empty area
      type (the second space of the label is dropped by int()'s strip). */
  lemma AreaIdOfAreaStr(areaType: string, areaId: int)
    requires |areaType| > 0
    ensures AreaId(areaType, AreaStr(areaType, areaId)) == Success(areaId)
  {
    var digits := IntToString(areaId);
    var rest := " " + digits;
    assert SecondPiece(AreaStr(areaType, areaId), areaType + " ") == Some(rest) by {
      assert AreaStr(areaType, areaId) == areaType + " " + rest;
      assert forall i :: 1 <= i < |rest| ==> rest[i] == digits[i - 1] && rest[i] != ' ';
      SecondPieceAfterSeparator(areaType, rest);
    }
    assert ParseInt(rest) == Some(areaId) by {
      ParseIntIgnoresLeadingSpace(digits);
      ParseIntOfIntToString(areaId);
    }
  }

  /** When the text after "<area type> " has no space past its first
      character, the separator occurs at the start only (any later
      occurrence would end in a space past that character), so the second
      piece is all of that text. */
  lemma SecondPieceAfterSeparator(areaType: string, rest: string)
    requires |areaType| > 0
    requires forall i :: 1 <= i < |rest| ==> rest[i] != ' '
    ensures SecondPiece(areaType + " " + rest, areaType + " ") == Some(rest)
  {
    var sep := areaType + " ";
    var s := sep + rest;
    assert s[0..|sep|] == sep;
    assert Find(s, sep, 0) == Some(0);
    assert sep[|sep| - 1] == ' ';
    forall j | |sep| <= j
      ensures !OccursAt(s, sep, j)
    {
      if j + |sep| <= |s| {
        var last := j + |sep| - 1;
        assert s[last] == rest[last - |sep|];
        assert s[j..j + |sep|][|sep| - 1] == s[last];
      }
    }
    assert Find(s, sep, |sep|) == None;
    assert s[|sep|..] == rest;
  }

  /** A label whose second space is replaced by an information separator
      (0x1C) is rejected with ValueError: int() does not skip that
      character. */
  lemma AreaIdRejectsSeparator(areaType: string, areaId: int)
    requires |areaType| > 0
    ensures AreaId(areaType, areaType + " " + [28 as char] + IntToString(areaId)) == Failure(ValueError)
  {
    var digits := IntToString(areaId);
    var rest := [28 as char] + digits;
    var value := areaType + " " + [28 as char] + digits;
    assert SecondPiece(value, areaType + " ") == Some(rest) by {
      assert value == areaType + " " + rest;
      assert forall i :: 1 <= i < |rest| ==> rest[i] == digits[i - 1] && rest[i] != ' ';
      SecondPieceAfterSeparator(areaType, rest);
    }
    assert ParseInt(rest) == None by {
      ParseIntRejectsSeparator(areaId);
    }
  }

  /** With an empty area type the separator is a single space, so the
      second piece of a text that starts with two spaces is empty and
      get_area_id fails with ValueError. */
  lemma AreaIdEmptyTypeFails(value: string)
    requires |value| >= 2 && value[0] == ' ' && value[1] == ' '
    ensures AreaId("", value) == Failure(ValueError)
  {
    assert "" + " " == " ";
    assert Find(value, " ", 0) == Some(0) by { assert value[0..1] == " "; }
    assert Find(value, " ", 1) == Some(1) by { assert value[1..2] == " "; }
    assert |" "| == 1 && value[1..1] == [];
    assert SecondPiece(value, " ") == Some([]);
    assert ParseInt([]) == None by { assert Strip([]) == []; }
  }

  /** So the round trip needs a non-empty area type. */
  lemma AreaIdOfAreaStrEmptyType(areaId: int)
    ensures AreaId("", AreaStr("", areaId)) == Failure(ValueError)
  {
    AreaIdEmptyTypeFails(AreaStr("", areaId));
  }

  /** Distinct ids get distinct labels, so a table keyed by label has one
      row per area. */
  lemma AreaStrDistinct(areaType: string, a: int, b: int)
    requires a != b
    ensures AreaStr(areaType, a) != AreaStr(areaType, b)
  {
    if AreaStr(areaType, a) == AreaStr(areaType, b) {
      IntToStringInjective(a, b);
    }
  }

  /** Every label of get_list_area_str reads back as its id. */
  lemma ListAreaStrRoundTrip(areaType: string, ids: seq<int>)
    requires |areaType| > 0
    ensures forall k :: 0 <= k < |ids| ==> AreaId(areaType, ListAreaStr(areaType, ids)[k]) == Success(ids[k])
  {
    forall k | 0 <= k < |ids|
      ensures AreaId(areaType, ListAreaStr(areaType, ids)[k]) == Success(ids[k])
    {
      AreaIdOfAreaStr(areaType, ids[k]);
    }
  }
}
