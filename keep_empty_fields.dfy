/**
 * Trailing empty fields. split(",") removes the empty strings at the end of
 * a line, so a data line whose last fields are empty ("x,y,") has fewer
 * fields than the header names: addressing such a field throws, and a line
 * that does not match loses its trailing delimiters when it is re-joined.
 * Cutting at every delimiter instead (split(",", -1)) keeps every field.
 */
module KeepEmptyFields {
  import opened Wrappers
  import opened JavaString
  import opened CsvSubstitutor

  /** As written: the third field of "x,y," is empty, yet addressing it throws. */
  lemma TrailingEmptyFieldThrows()
    ensures |Cut("x,y,")| == 3
    ensures ReplacedLine(2, "", "z", "x,y,") == Failure(IndexOutOfBounds(2, 2))
  {
    SplitTrailingEmpty();
  }

  /** As written: a line ending with a delimiter is not written back unchanged, even without a match. */
  lemma TrailingDelimiterDropped()
    ensures ReplacedLine(0, "b", "z", "x,y,") == Success("x,y")
  {
    SplitTrailingEmpty();
    TrimIsSlice("x", 0, 1);
    MismatchJoinsParts(0, "b", "z", "x,y,", ["x", "y"]);
    JoinedXY();
  }

  lemma JoinedXY()
    ensures Join(["x", "y"]) == "x,y"
  {
    assert ["x", "y"][1..] == ["y"];
    assert Join(["x", "y"]) == "x" + [Delimiter] + "y";
  }

  lemma MismatchJoinsParts(fieldIndex: nat, valueToReplace: string, newValue: string, csv: string, parts: seq<string>)
    requires Split(csv) == parts && fieldIndex < |parts| && Trim(parts[fieldIndex]) != valueToReplace
    ensures ReplacedLine(fieldIndex, valueToReplace, newValue, csv) == Success(Join(parts))
  {
    assert parts[fieldIndex := parts[fieldIndex]] == parts;
  }

  lemma SplitTrailingEmpty()
    ensures Cut("x,y,") == ["x", "y", ""]
    ensures Split("x,y,") == ["x", "y"]
  {
    var parts := ["x", "y", ""];
    assert parts[1..] == ["y", ""] && parts[1..][1..] == [""];
    assert Join(parts) == "x,y,";
    CutJoin(parts);
    assert Delimiter in "x,y,";
  }

  /**
   * replaceWithinLine with the line cut at every delimiter: the field at
   * `fieldIndex` exists exactly when the line has more than `fieldIndex`
   * delimiters, trailing empty fields included.
   */
  function ReplacedLineKeepingEmpty(fieldIndex: int, valueToReplace: string, newValue: string, csv: string)
    : (r: Result<string, Exception>)
    ensures r.Failure? <==> !(0 <= fieldIndex < |Cut(csv)|)
    ensures r.Failure? ==> r.error == IndexOutOfBounds(fieldIndex, |Cut(csv)|)
  {
    var fields := Cut(csv);
    if 0 <= fieldIndex < |fields| then
      var value := if Trim(fields[fieldIndex]) == valueToReplace then newValue else fields[fieldIndex];
      Success(Join(fields[fieldIndex := value]))
    else
      Failure(IndexOutOfBounds(fieldIndex, |fields|))
  }

  /** Every field the as-written code can address, the corrected one addresses the same way. */
  lemma KeepingEmptyAgreesOnSplitFields(fieldIndex: int, valueToReplace: string, newValue: string, csv: string)
    requires 0 <= fieldIndex < |Split(csv)|
    requires csv == [] || csv[|csv| - 1] != Delimiter
    ensures ReplacedLineKeepingEmpty(fieldIndex, valueToReplace, newValue, csv)
            == ReplacedLine(fieldIndex, valueToReplace, newValue, csv)
  {
    CutLastEmpty(csv);
  }

  /** A line whose field does not match is written back byte for byte, whatever it ends with. */
  lemma KeepingEmptyMismatchUnchanged(fieldIndex: int, valueToReplace: string, newValue: string, csv: string)
    requires 0 <= fieldIndex < |Cut(csv)|
    requires Trim(Cut(csv)[fieldIndex]) != valueToReplace
    ensures ReplacedLineKeepingEmpty(fieldIndex, valueToReplace, newValue, csv) == Success(csv)
  {
    var fields := Cut(csv);
    assert fields[fieldIndex := fields[fieldIndex]] == fields;
    JoinCut(csv);
  }

  /**
   * A matching field is replaced by `newValue`, cut at its own delimiters,
   * and every other field, trailing empty ones included, stays where it
   * was; a delimiter-free `newValue` takes the place of exactly one field.
   */
  lemma KeepingEmptyMatchReplacesField(fieldIndex: int, valueToReplace: string, newValue: string, csv: string)
    requires 0 <= fieldIndex < |Cut(csv)|
    requires Trim(Cut(csv)[fieldIndex]) == valueToReplace
    ensures ReplacedLineKeepingEmpty(fieldIndex, valueToReplace, newValue, csv).Success?
    ensures Cut(ReplacedLineKeepingEmpty(fieldIndex, valueToReplace, newValue, csv).value)
            == Cut(csv)[..fieldIndex] + Cut(newValue) + Cut(csv)[fieldIndex + 1..]
    ensures Delimiter !in newValue ==>
              Cut(ReplacedLineKeepingEmpty(fieldIndex, valueToReplace, newValue, csv).value) == Cut(csv)[fieldIndex := newValue]
  {
    var fields := Cut(csv);
    var before, after := fields[..fieldIndex], fields[fieldIndex + 1..];
    UpdateAround(fields, fieldIndex, newValue);
    CutJoinAround(before, newValue, after);
    if Delimiter !in newValue {
      CutWhole(newValue);
    }
  }

  /** The line that threw above: its empty third field is found and replaced. */
  lemma TrailingEmptyFieldReplaced()
    ensures ReplacedLineKeepingEmpty(2, "", "z", "x,y,") == Success("x,y,z")
  {
    SplitTrailingEmpty();
    assert Trim("") == "";
    MatchJoinsCutParts(2, "", "z", "x,y,", ["x", "y", ""]);
    JoinedXYZ();
  }

  lemma JoinedXYZ()
    ensures Join(["x", "y", ""][2 := "z"]) == "x,y,z"
  {
    var parts := ["x", "y", "z"];
    assert ["x", "y", ""][2 := "z"] == parts;
    assert parts[1..] == ["y", "z"] && parts[1..][1..] == ["z"];
    assert Join(["y", "z"]) == "y" + [Delimiter] + "z";
    assert Join(parts) == "x" + [Delimiter] + "y" + [Delimiter] + "z";
  }

  lemma MatchJoinsCutParts(fieldIndex: nat, valueToReplace: string, newValue: string, csv: string, parts: seq<string>)
    requires Cut(csv) == parts && fieldIndex < |parts| && Trim(parts[fieldIndex]) == valueToReplace
    ensures ReplacedLineKeepingEmpty(fieldIndex, valueToReplace, newValue, csv) == Success(Join(parts[fieldIndex := newValue]))
  {
  }
}
