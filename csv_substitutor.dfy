/**
 * The pure core of csv.CSVSubstitutor: locating a column by its heading,
 * rewriting one field of a line, and the line-sequence transformation that
 * makeSubstitutions performs between reading and writing its files.
 */
module CsvSubstitutor {
  import opened Wrappers
  import opened JavaString

  /**
   * The unchecked exceptions the code can throw: List.get(0) on an empty
   * file and fields[fieldIndex] on a short line both report the index and
   * the length they were used with.
   */
  datatype Exception = IndexOutOfBounds(index: int, length: nat)

  /** The trimmed part at position k equals `field`. */
  predicate MatchesAt(parts: seq<string>, k: nat, field: string)
    requires k < |parts|
  {
    Trim(parts[k]) == field
  }

  // ------------------------------------------------------------ getIndexOf

  /** First position at or after `from` whose trimmed part equals `field`. */
  function FirstMatchFrom(parts: seq<string>, field: string, from: nat): (r: Option<nat>)
    requires from <= |parts|
    ensures r.Some? ==> from <= r.value < |parts| && MatchesAt(parts, r.value, field)
    ensures r.Some? ==> forall k :: from <= k < r.value ==> !MatchesAt(parts, k, field)
    ensures r.None? <==> forall k :: from <= k < |parts| ==> !MatchesAt(parts, k, field)
    decreases |parts| - from
  {
    if from == |parts| then None
    else if MatchesAt(parts, from, field) then Some(from)
    else
      var r := FirstMatchFrom(parts, field, from + 1);
      FirstMatchStep(parts, field, from, r);
      r
  }

  /** A first match after a non-matching position is the first match from that position. */
  lemma FirstMatchStep(parts: seq<string>, field: string, from: nat, r: Option<nat>)
    requires from < |parts| && !MatchesAt(parts, from, field)
    requires r.Some? ==> from + 1 <= r.value < |parts| && MatchesAt(parts, r.value, field)
    requires r.Some? ==> forall k :: from + 1 <= k < r.value ==> !MatchesAt(parts, k, field)
    requires r.None? <==> forall k :: from + 1 <= k < |parts| ==> !MatchesAt(parts, k, field)
    ensures r.Some? ==> forall k :: from <= k < r.value ==> !MatchesAt(parts, k, field)
    ensures r.None? <==> forall k :: from <= k < |parts| ==> !MatchesAt(parts, k, field)
  {
    var hi := if r.Some? then r.value else |parts|;
    forall k | from <= k < hi ensures !MatchesAt(parts, k, field) {
      if k != from {
        assert from + 1 <= k < hi;
      }
    }
  }

  /**
   * getIndexOf(field, csv): the zero-based position of the first header part
   * whose trimmed value is `field`, or empty.
   */
  function IndexOf(field: string, csv: string): (r: Option<nat>)
    ensures r.Some? ==> r.value < |Split(csv)| && MatchesAt(Split(csv), r.value, field)
    ensures r.Some? ==> forall k :: 0 <= k < r.value ==> !MatchesAt(Split(csv), k, field)
    ensures r.None? <==> forall k :: 0 <= k < |Split(csv)| ==> !MatchesAt(Split(csv), k, field)
  {
    FirstMatchFrom(Split(csv), field, 0)
  }

  /** A matching position with no match before it is the one IndexOf finds. */
  lemma IndexOfIsFirstMatch(field: string, csv: string, i: nat)
    requires i < |Split(csv)| && MatchesAt(Split(csv), i, field)
    requires forall k :: 0 <= k < i ==> !MatchesAt(Split(csv), k, field)
    ensures IndexOf(field, csv) == Some(i)
  {
    FirstMatchIs(Split(csv), field, i);
  }

  lemma FirstMatchIs(parts: seq<string>, field: string, i: nat)
    requires i < |parts| && MatchesAt(parts, i, field)
    requires forall k :: 0 <= k < i ==> !MatchesAt(parts, k, field)
    ensures FirstMatchFrom(parts, field, 0) == Some(i)
  {
    var r := FirstMatchFrom(parts, field, 0);
    assert r.Some?;
    assert MatchesAt(parts, r.value, field);
  }

  /** getIndexOf as the source runs it: a counting loop with an early return. */
  method GetIndexOf(field: string, csv: string) returns (r: Option<nat>)
    ensures r == IndexOf(field, csv)
  {
    var headers := Split(csv);
    for index := 0 to |headers|
      invariant forall k :: 0 <= k < index ==> !MatchesAt(headers, k, field)
    {
      if Trim(headers[index]) == field {
        IndexOfIsFirstMatch(field, csv, index);
        return Some(index);
      }
    }
    return None;
  }

  // ----------------------------------------------------- replaceWithinLine

  /**
   * replaceWithinLine(fieldIndex, valueToReplace, newValue, csv): the line
   * re-joined from its split fields, the field at `fieldIndex` overwritten
   * with `newValue` when its trimmed value is `valueToReplace`; an index
   * outside the split fields throws.
   */
  function ReplacedLine(fieldIndex: int, valueToReplace: string, newValue: string, csv: string): (r: Result<string, Exception>)
    ensures r.Failure? <==> !(0 <= fieldIndex < |Split(csv)|)
    ensures r.Failure? ==> r.error == IndexOutOfBounds(fieldIndex, |Split(csv)|)
  {
    var fields := Split(csv);
    if 0 <= fieldIndex < |fields| then
      var value := if Trim(fields[fieldIndex]) == valueToReplace then newValue else fields[fieldIndex];
      Success(Join(fields[fieldIndex := value]))
    else
      Failure(IndexOutOfBounds(fieldIndex, |fields|))
  }

  /** replaceWithinLine as the source runs it: the split fields overwritten in place, then joined. */
  method ReplaceWithinLine(fieldIndex: int, valueToReplace: string, newValue: string, csv: string)
    returns (r: Result<string, Exception>)
    ensures r == ReplacedLine(fieldIndex, valueToReplace, newValue, csv)
  {
    var parts := Split(csv);
    var fields := new string[|parts|](k requires 0 <= k < |parts| => parts[k]);
    if !(0 <= fieldIndex < fields.Length) {
      return Failure(IndexOutOfBounds(fieldIndex, fields.Length));
    }
    if Trim(fields[fieldIndex]) == valueToReplace {
      fields[fieldIndex] := newValue;
    }
    assert fields[..] == parts[fieldIndex := fields[fieldIndex]];
    return Success(Join(fields[..]));
  }

  /**
   * On a match, the output line, cut at its delimiters, has the input's
   * split fields before and after `fieldIndex` unchanged and `newValue`,
   * cut at its own delimiters, in between; a delimiter-free `newValue`
   * therefore takes the place of exactly one field.
   */
  lemma ReplacedLineOnMatch(fieldIndex: int, valueToReplace: string, newValue: string, csv: string)
    requires 0 <= fieldIndex < |Split(csv)|
    requires Trim(Split(csv)[fieldIndex]) == valueToReplace
    ensures ReplacedLine(fieldIndex, valueToReplace, newValue, csv).Success?
    ensures Cut(ReplacedLine(fieldIndex, valueToReplace, newValue, csv).value)
            == Split(csv)[..fieldIndex] + Cut(newValue) + Split(csv)[fieldIndex + 1..]
    ensures Delimiter !in newValue ==>
              Cut(ReplacedLine(fieldIndex, valueToReplace, newValue, csv).value) == Split(csv)[fieldIndex := newValue]
  {
    var fields := Split(csv);
    var before, after := fields[..fieldIndex], fields[fieldIndex + 1..];
    UpdateAround(fields, fieldIndex, newValue);
    CutJoinAround(before, newValue, after);
    if Delimiter !in newValue {
      CutWhole(newValue);
    }
  }

  /**
   * Without a match, the output line cuts into exactly the input's split
   * fields, and it is the input itself exactly when the input does not end
   * with a delimiter (split drops trailing empty fields).
   */
  lemma ReplacedLineOnMismatch(fieldIndex: int, valueToReplace: string, newValue: string, csv: string)
    requires 0 <= fieldIndex < |Split(csv)|
    requires Trim(Split(csv)[fieldIndex]) != valueToReplace
    ensures ReplacedLine(fieldIndex, valueToReplace, newValue, csv).Success?
    ensures Cut(ReplacedLine(fieldIndex, valueToReplace, newValue, csv).value) == Split(csv)
    ensures ReplacedLine(fieldIndex, valueToReplace, newValue, csv).value == csv
            <==> (csv == [] || csv[|csv| - 1] != Delimiter)
  {
    var fields := Split(csv);
    assert fields[fieldIndex := fields[fieldIndex]] == fields;
    CutJoin(fields);
    JoinSplit(csv);
  }

  /**
   * A line comes back unchanged when it does not end with a delimiter and
   * its field either does not match or already is `newValue` verbatim.
   */
  lemma ReplacedLineUnchanged(fieldIndex: int, valueToReplace: string, newValue: string, csv: string)
    requires 0 <= fieldIndex < |Split(csv)|
    requires Trim(Split(csv)[fieldIndex]) != valueToReplace || Split(csv)[fieldIndex] == newValue
    requires csv == [] || csv[|csv| - 1] != Delimiter
    ensures ReplacedLine(fieldIndex, valueToReplace, newValue, csv) == Success(csv)
  {
    var fields := Split(csv);
    if Trim(fields[fieldIndex]) == valueToReplace {
      assert fields[fieldIndex := newValue] == fields;
    } else {
      assert fields[fieldIndex := fields[fieldIndex]] == fields;
    }
    JoinSplit(csv);
  }

  /** The same call on " A" yields "A": replacing a value with itself is not the identity. */
  lemma ReplacedLineWithItselfDropsPadding()
    ensures ReplacedLine(0, "A", "A", " A") == Success("A")
  {
    assert Delimiter !in " A";
    assert Split(" A") == [" A"];
    TrimIsSlice(" A", 1, 2);
  }

  // -------------------------------------------------- makeSubstitutions

  /** Every line has a field at `fieldIndex`. */
  predicate AllHaveField(fieldIndex: int, lines: seq<string>) {
    forall k :: 0 <= k < |lines| ==> 0 <= fieldIndex < |Split(lines[k])|
  }

  /**
   * The stream map of replaceWithinLine over the data lines, collected in
   * order; the first line without the field throws and ends the run.
   */
  function ReplaceInLines(fieldIndex: int, valueToReplace: string, newValue: string, lines: seq<string>)
    : (r: Result<seq<string>, Exception>)
    ensures r.Success? <==> AllHaveField(fieldIndex, lines)
    ensures r.Success? ==> |r.value| == |lines|
    ensures r.Success? ==> forall k :: 0 <= k < |lines| ==>
              ReplacedLine(fieldIndex, valueToReplace, newValue, lines[k]) == Success(r.value[k])
  {
    if lines == [] then Success([])
    else
      AllHaveFieldCons(fieldIndex, lines);
      match ReplacedLine(fieldIndex, valueToReplace, newValue, lines[0])
      case Failure(e) => Failure(e)
      case Success(line) =>
        match ReplaceInLines(fieldIndex, valueToReplace, newValue, lines[1..])
        case Failure(e) => Failure(e)
        case Success(rest) =>
          ReplacedLinesCons(fieldIndex, valueToReplace, newValue, lines, line, rest);
          Success([line] + rest)
  }

  /** Every line has the field exactly when the first one and all the others do. */
  lemma AllHaveFieldCons(fieldIndex: int, lines: seq<string>)
    requires lines != []
    ensures AllHaveField(fieldIndex, lines) <==>
            0 <= fieldIndex < |Split(lines[0])| && AllHaveField(fieldIndex, lines[1..])
  {
    AllCons(line => 0 <= fieldIndex < |Split(line)|, lines);
  }

  /** Line-for-line rewriting extends to one more line in front. */
  lemma ReplacedLinesCons(fieldIndex: int, valueToReplace: string, newValue: string, lines: seq<string>,
                          line: string, rest: seq<string>)
    requires lines != [] && ReplacedLine(fieldIndex, valueToReplace, newValue, lines[0]) == Success(line)
    requires |rest| == |lines| - 1
    requires forall k :: 0 <= k < |rest| ==>
               ReplacedLine(fieldIndex, valueToReplace, newValue, lines[1..][k]) == Success(rest[k])
    ensures forall k :: 0 <= k < |lines| ==>
              ReplacedLine(fieldIndex, valueToReplace, newValue, lines[k]) == Success(([line] + rest)[k])
  {
    PairwiseCons((l, o) => ReplacedLine(fieldIndex, valueToReplace, newValue, l) == Success(o), lines, line, rest);
  }

  /** A property holds of every element exactly when it holds of the first and of all the rest. */
  lemma AllCons<T>(p: T -> bool, xs: seq<T>)
    requires xs != []
    ensures (forall k :: 0 <= k < |xs| ==> p(xs[k])) <==> p(xs[0]) && forall k :: 0 <= k < |xs| - 1 ==> p(xs[1..][k])
  {
    assert forall k :: 1 <= k < |xs| ==> xs[k] == xs[1..][k - 1];
  }

  /** A relation holding element for element extends to one more pair in front. */
  lemma PairwiseCons<A, B>(r: (A, B) -> bool, xs: seq<A>, y: B, ys: seq<B>)
    requires xs != [] && r(xs[0], y) && |ys| == |xs| - 1
    requires forall k :: 0 <= k < |ys| ==> r(xs[1..][k], ys[k])
    ensures forall k :: 0 <= k < |xs| ==> r(xs[k], ([y] + ys)[k])
  {
    PairwiseBehind(r, xs, y, ys);
  }

  /** A relation holding element for element behind the first pair, realigned after putting `y` in front. */
  lemma PairwiseBehind<A, B>(r: (A, B) -> bool, xs: seq<A>, y: B, ys: seq<B>)
    requires xs != [] && |ys| == |xs| - 1
    requires forall k :: 0 <= k < |ys| ==> r(xs[1..][k], ys[k])
    ensures forall k :: 1 <= k < |xs| ==> r(xs[k], ([y] + ys)[k])
  {
    forall k | 1 <= k < |xs| ensures r(xs[k], ([y] + ys)[k]) {
      assert xs[k] == xs[1..][k - 1] && ([y] + ys)[k] == ys[k - 1];
    }
  }

  /**
   * The exception that ends the run is the one thrown by the first line
   * without the field.
   */
  lemma {:induction false} ReplaceInLinesThrowsAtFirst(fieldIndex: int, valueToReplace: string, newValue: string,
                                                       lines: seq<string>, j: nat)
    requires j < |lines| && AllHaveField(fieldIndex, lines[..j])
    requires !(0 <= fieldIndex < |Split(lines[j])|)
    ensures ReplaceInLines(fieldIndex, valueToReplace, newValue, lines) == Failure(IndexOutOfBounds(fieldIndex, |Split(lines[j])|))
  {
    if j > 0 {
      assert lines[1..][..j - 1] == lines[..j][1..];
      assert lines[1..][j - 1] == lines[j];
      assert lines[..j][0] == lines[0];
      ReplaceInLinesThrowsAtFirst(fieldIndex, valueToReplace, newValue, lines[1..], j - 1);
    }
  }

  /**
   * The pure part of makeSubstitutions(inputFilename, columnHeading,
   * valueToReplace, newValue, outputFilename) on the lines read: the first
   * line is the header; an unknown heading means no output file (None);
   * otherwise the header, unchanged, followed by every data line rewritten.
   */
  function Substitute(lines: seq<string>, columnHeading: string, valueToReplace: string, newValue: string)
    : (r: Result<Option<seq<string>>, Exception>)
    ensures lines == [] ==> r == Failure(IndexOutOfBounds(0, 0))
    ensures lines != [] && IndexOf(columnHeading, lines[0]).None? ==> r == Success(None)
    ensures r.Success? && r.value.Some? ==>
              |r.value.value| == |lines| && r.value.value[0] == lines[0]
  {
    if lines == [] then Failure(IndexOutOfBounds(0, 0))
    else
      var header := lines[0];
      match IndexOf(columnHeading, header)
      case None => Success(None)
      case Some(index) =>
        match ReplaceInLines(index, valueToReplace, newValue, lines[1..])
        case Failure(e) => Failure(e)
        case Success(outputLines) => Success(Some([header] + outputLines))
  }

  /**
   * With the heading found at `index` and every data line long enough, the
   * output keeps the header and, line for line in the original order, holds
   * replaceWithinLine of each data line.
   */
  lemma SubstituteFound(lines: seq<string>, columnHeading: string, valueToReplace: string, newValue: string, index: nat)
    requires lines != [] && IndexOf(columnHeading, lines[0]) == Some(index)
    requires AllHaveField(index, lines[1..])
    ensures Substitute(lines, columnHeading, valueToReplace, newValue).Success?
    ensures Substitute(lines, columnHeading, valueToReplace, newValue).value.Some?
    ensures var out := Substitute(lines, columnHeading, valueToReplace, newValue).value.value;
            |out| == |lines| && out[0] == lines[0] &&
            forall k :: 1 <= k < |lines| ==> ReplacedLine(index, valueToReplace, newValue, lines[k]) == Success(out[k])
  {
    var rows := ReplaceInLines(index, valueToReplace, newValue, lines[1..]).value;
    assert Substitute(lines, columnHeading, valueToReplace, newValue) == Success(Some([lines[0]] + rows));
    RewrittenAfterHeader(index, valueToReplace, newValue, lines, rows);
  }

  /** Data lines rewritten one for one stay aligned with their lines once the header is put back in front. */
  lemma RewrittenAfterHeader(fieldIndex: int, valueToReplace: string, newValue: string, lines: seq<string>,
                             rows: seq<string>)
    requires lines != [] && |rows| == |lines| - 1
    requires forall k :: 0 <= k < |rows| ==>
               ReplacedLine(fieldIndex, valueToReplace, newValue, lines[1..][k]) == Success(rows[k])
    ensures forall k :: 1 <= k < |lines| ==>
              ReplacedLine(fieldIndex, valueToReplace, newValue, lines[k]) == Success(([lines[0]] + rows)[k])
  {
    PairwiseBehind((l, o) => ReplacedLine(fieldIndex, valueToReplace, newValue, l) == Success(o), lines, lines[0], rows);
  }

  /**
   * Conversely, any sequence of lines that are, one for one, what
   * replaceWithinLine makes of the data lines is what the run writes after
   * the header.
   */
  lemma SubstituteIsHeaderThenRewrittenLines(lines: seq<string>, columnHeading: string, valueToReplace: string,
                                             newValue: string, index: nat, rewritten: seq<string>)
    requires lines != [] && IndexOf(columnHeading, lines[0]) == Some(index)
    requires |rewritten| == |lines| - 1
    requires forall k :: 0 <= k < |rewritten| ==>
               ReplacedLine(index, valueToReplace, newValue, lines[k + 1]) == Success(rewritten[k])
    ensures Substitute(lines, columnHeading, valueToReplace, newValue) == Success(Some([lines[0]] + rewritten))
  {
    assert AllHaveField(index, lines[1..]) by {
      forall k | 0 <= k < |lines| - 1 ensures 0 <= index < |Split(lines[1..][k])| {
        assert lines[1..][k] == lines[k + 1];
        assert ReplacedLine(index, valueToReplace, newValue, lines[k + 1]) == Success(rewritten[k]);
      }
    }
    SubstituteFound(lines, columnHeading, valueToReplace, newValue, index);
    var out := Substitute(lines, columnHeading, valueToReplace, newValue).value.value;
    forall k | 1 <= k < |lines| ensures out[k] == ([lines[0]] + rewritten)[k] {
      assert ReplacedLine(index, valueToReplace, newValue, lines[(k - 1) + 1]) == Success(rewritten[k - 1]);
    }
    assert out == [lines[0]] + rewritten;
  }

  /**
   * The run throws exactly when the file is empty or the heading is found
   * and some data line has no field at its index (which exception it is:
   * SubstituteThrowsAtFirst).
   */
  lemma SubstituteThrows(lines: seq<string>, columnHeading: string, valueToReplace: string, newValue: string)
    ensures Substitute(lines, columnHeading, valueToReplace, newValue).Failure? <==>
            (lines == [] ||
             (IndexOf(columnHeading, lines[0]).Some? &&
              !AllHaveField(IndexOf(columnHeading, lines[0]).value, lines[1..])))
  {
    if lines != [] && IndexOf(columnHeading, lines[0]).Some? {
      var index := IndexOf(columnHeading, lines[0]).value;
      var rows := ReplaceInLines(index, valueToReplace, newValue, lines[1..]);
      if rows.Failure? {
        assert Substitute(lines, columnHeading, valueToReplace, newValue) == Failure(rows.error);
      } else {
        assert Substitute(lines, columnHeading, valueToReplace, newValue) == Success(Some([lines[0]] + rows.value));
      }
    }
  }

  /**
   * The exception thrown is the one for the first data line without the
   * field: its index and that line's field count.
   */
  lemma SubstituteThrowsAtFirst(lines: seq<string>, columnHeading: string, valueToReplace: string, newValue: string,
                                index: nat, j: nat)
    requires lines != [] && IndexOf(columnHeading, lines[0]) == Some(index)
    requires 1 <= j < |lines| && AllHaveField(index, lines[1..j])
    requires !(index < |Split(lines[j])|)
    ensures Substitute(lines, columnHeading, valueToReplace, newValue)
            == Failure(IndexOutOfBounds(index, |Split(lines[j])|))
  {
    DataLinesThrowAtFirst(index, valueToReplace, newValue, lines, j);
    SubstituteFailsAsDataLines(lines, columnHeading, valueToReplace, newValue, index);
  }

  /** ReplaceInLinesThrowsAtFirst, counted from the first data line after the header. */
  lemma DataLinesThrowAtFirst(fieldIndex: int, valueToReplace: string, newValue: string, lines: seq<string>, j: nat)
    requires 1 <= j < |lines| && AllHaveField(fieldIndex, lines[1..j])
    requires !(0 <= fieldIndex < |Split(lines[j])|)
    ensures ReplaceInLines(fieldIndex, valueToReplace, newValue, lines[1..])
            == Failure(IndexOutOfBounds(fieldIndex, |Split(lines[j])|))
  {
    PrefixOfTail(lines, j);
    ReplaceInLinesThrowsAtFirst(fieldIndex, valueToReplace, newValue, lines[1..], j - 1);
  }

  lemma SubstituteFailsAsDataLines(lines: seq<string>, columnHeading: string, valueToReplace: string, newValue: string,
                                   index: nat)
    requires lines != [] && IndexOf(columnHeading, lines[0]) == Some(index)
    requires ReplaceInLines(index, valueToReplace, newValue, lines[1..]).Failure?
    ensures Substitute(lines, columnHeading, valueToReplace, newValue)
            == Failure(ReplaceInLines(index, valueToReplace, newValue, lines[1..]).error)
  {
  }

  lemma HeadThenTail<T>(s: seq<T>)
    requires s != []
    ensures [s[0]] + s[1..] == s
  {
  }

  lemma PrefixOfTail<T>(s: seq<T>, j: nat)
    requires 1 <= j < |s|
    ensures s[1..][..j - 1] == s[1..j] && s[1..][j - 1] == s[j]
  {
  }

  /** The heading is missing: no output, however many data lines would match. */
  lemma SubstituteHeadingMissing(lines: seq<string>, columnHeading: string, valueToReplace: string, newValue: string)
    requires lines != []
    requires forall k :: 0 <= k < |Split(lines[0])| ==> Trim(Split(lines[0])[k]) != columnHeading
    ensures Substitute(lines, columnHeading, valueToReplace, newValue) == Success(None)
  {
    assert forall k :: 0 <= k < |Split(lines[0])| ==> !MatchesAt(Split(lines[0]), k, columnHeading);
  }

  /** A file holding only its header is written back unchanged once the heading is found. */
  lemma SubstituteHeaderOnly(header: string, columnHeading: string, valueToReplace: string, newValue: string)
    requires IndexOf(columnHeading, header).Some?
    ensures Substitute([header], columnHeading, valueToReplace, newValue) == Success(Some([header]))
  {
    var lines := [header];
    assert lines[0] == header && lines[1..] == [];
    assert ReplaceInLines(IndexOf(columnHeading, header).value, valueToReplace, newValue, lines[1..]) == Success([]);
    assert [header] + [] == lines;
  }

  /**
   * The output equals the input when the heading is found and every data
   * line has the field, does not end with a delimiter, and its field either
   * does not match or already is `newValue` verbatim. This is sufficient,
   * not necessary: a `newValue` holding delimiters can rebuild a line that
   * ends with one.
   */
  lemma SubstituteUnchanged(lines: seq<string>, columnHeading: string, valueToReplace: string, newValue: string, index: nat)
    requires lines != [] && IndexOf(columnHeading, lines[0]) == Some(index)
    requires forall k :: 1 <= k < |lines| ==>
               index < |Split(lines[k])| &&
               (lines[k] == [] || lines[k][|lines[k]| - 1] != Delimiter) &&
               (Trim(Split(lines[k])[index]) != valueToReplace || Split(lines[k])[index] == newValue)
    ensures Substitute(lines, columnHeading, valueToReplace, newValue) == Success(Some(lines))
  {
    DataLinesUnchanged(index, valueToReplace, newValue, lines);
    SubstituteIsHeaderThenRewrittenLines(lines, columnHeading, valueToReplace, newValue, index, lines[1..]);
    HeadThenTail(lines);
  }

  /** ReplacedLineUnchanged for every data line after the header. */
  lemma DataLinesUnchanged(fieldIndex: nat, valueToReplace: string, newValue: string, lines: seq<string>)
    requires lines != []
    requires forall k :: 1 <= k < |lines| ==>
               fieldIndex < |Split(lines[k])| &&
               (lines[k] == [] || lines[k][|lines[k]| - 1] != Delimiter) &&
               (Trim(Split(lines[k])[fieldIndex]) != valueToReplace || Split(lines[k])[fieldIndex] == newValue)
    ensures forall k :: 0 <= k < |lines| - 1 ==>
              ReplacedLine(fieldIndex, valueToReplace, newValue, lines[k + 1]) == Success(lines[1..][k])
  {
    forall k | 0 <= k < |lines| - 1
      ensures ReplacedLine(fieldIndex, valueToReplace, newValue, lines[k + 1]) == Success(lines[1..][k])
    {
      ReplacedLineUnchanged(fieldIndex, valueToReplace, newValue, lines[k + 1]);
    }
  }
}
