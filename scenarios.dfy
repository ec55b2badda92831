/**
 * The concrete cases of SubstituteJUnitTest, stated on the model: the
 * header lookup, the two single-line substitutions and the four whole-file
 * runs on the lines the tests write.
 */
module Scenarios {
  import opened Wrappers
  import opened JavaString
  import opened CsvSubstitutor

  const Header: string := "heading0, heading1, heading2, heading3"
  const HeaderParts: seq<string> := ["heading0", " heading1", " heading2", " heading3"]
  const Row: string := "field0, field1, AAAAAA, field3"
  const RowParts: seq<string> := ["field0", " field1", " AAAAAA", " field3"]
  const PlainRow: string := "field0, field1, field2, field3"
  const PlainRowParts: seq<string> := ["field0", " field1", " field2", " field3"]
  const ReplacedRow: string := "field0, field1,ZZZZZZ, field3"
  const DoubleRow: string := "field0, AAAAAA, AAAAAA, field3"
  const DoubleRowParts: seq<string> := ["field0", " AAAAAA", " AAAAAA", " field3"]
  const ReplacedDoubleRow: string := "field0, AAAAAA,ZZZZZZ, field3"
  const SecondColumnRow: string := "field0, AAAAAA, field2, field3"
  const SecondColumnRowParts: seq<string> := ["field0", " AAAAAA", " field2", " field3"]

  lemma JoinFour(a: string, b: string, c: string, d: string)
    ensures Join([a, b, c, d]) == a + [Delimiter] + b + [Delimiter] + c + [Delimiter] + d
  {
    assert [a, b, c, d][1..] == [b, c, d] && [b, c, d][1..] == [c, d] && [c, d][1..] == [d];
    assert Join([c, d]) == c + [Delimiter] + d;
    assert Join([b, c, d]) == b + [Delimiter] + c + [Delimiter] + d;
  }

  /** A line of four delimiter-free fields, the last non-empty, splits into them. */
  lemma SplitFour(s: string, a: string, b: string, c: string, d: string)
    requires Delimiter !in a && Delimiter !in b && Delimiter !in c && Delimiter !in d && d != []
    requires s == a + [Delimiter] + b + [Delimiter] + c + [Delimiter] + d
    ensures Split(s) == [a, b, c, d]
  {
    JoinFour(a, b, c, d);
    SplitJoin([a, b, c, d]);
  }

  lemma HeaderSplit()
    ensures Split(Header) == HeaderParts
  {
    HeaderJoined();
    SplitFour(Header, "heading0", " heading1", " heading2", " heading3");
  }

  lemma HeaderJoined()
    ensures Header == "heading0" + [Delimiter] + " heading1" + [Delimiter] + " heading2" + [Delimiter] + " heading3"
  {
  }

  lemma HeaderTrimmed()
    ensures Trim("heading0") == "heading0" && Trim(" heading1") == "heading1"
    ensures Trim(" heading2") == "heading2" && Trim(" heading3") == "heading3"
  {
    TrimmedAsIs("heading0");
    TrimmedAfterBlank(" heading1");
    TrimmedAfterBlank(" heading2");
    TrimmedAfterBlank(" heading3");
  }

  lemma TrimmedAsIs(s: string)
    requires s != [] && !IsTrimmable(s[0]) && !IsTrimmable(s[|s| - 1])
    ensures Trim(s) == s
  {
    TrimIsSlice(s, 0, |s|);
  }

  lemma TrimmedAfterBlank(s: string)
    requires |s| >= 2 && s[0] == ' ' && !IsTrimmable(s[1]) && !IsTrimmable(s[|s| - 1])
    ensures Trim(s) == s[1..]
  {
    TrimIsSlice(s, 1, |s|);
  }

  /** The first trimmed match among four parts is at 2 when the first two differ. */
  lemma ThirdOfFourMatches(parts: seq<string>, field: string)
    requires |parts| == 4 && Trim(parts[2]) == field && Trim(parts[0]) != field && Trim(parts[1]) != field
    ensures FirstMatchFrom(parts, field, 0) == Some(2)
  {
    assert MatchesAt(parts, 2, field);
  }

  /** getIndexOf("heading2", header) is 2. */
  lemma HeadingPresent()
    ensures IndexOf("heading2", Header) == Some(2)
  {
    HeaderSplit();
    HeaderTrimmed();
    ThirdOfFourMatches(HeaderParts, "heading2");
  }

  /** getIndexOf("hello", header) and getIndexOf("NON_EXISTENT_HEADING", header) are empty. */
  lemma HeadingAbsent()
    ensures IndexOf("hello", Header) == None
    ensures IndexOf("NON_EXISTENT_HEADING", Header) == None
  {
    HeaderSplit();
    HeaderTrimmed();
  }

  lemma RowSplit()
    ensures Split(Row) == RowParts
  {
    RowJoined();
    SplitFour(Row, "field0", " field1", " AAAAAA", " field3");
  }

  lemma RowJoined()
    ensures Row == "field0" + [Delimiter] + " field1" + [Delimiter] + " AAAAAA" + [Delimiter] + " field3"
  {
  }

  lemma PlainRowSplit()
    ensures Split(PlainRow) == PlainRowParts
  {
    PlainRowJoined();
    SplitFour(PlainRow, "field0", " field1", " field2", " field3");
  }

  lemma PlainRowJoined()
    ensures PlainRow == "field0" + [Delimiter] + " field1" + [Delimiter] + " field2" + [Delimiter] + " field3"
  {
  }

  lemma RowTrimmed()
    ensures Trim("field0") == "field0" && Trim(" field1") == "field1"
    ensures Trim(" AAAAAA") == "AAAAAA" && Trim(" field2") == "field2"
  {
    TrimmedAsIs("field0");
    TrimmedAfterBlank(" field1");
    TrimmedAfterBlank(" AAAAAA");
    TrimmedAfterBlank(" field2");
  }

  /** replaceWithinLine on a line whose split parts are known and whose field matches. */
  lemma ReplacedMatchingPart(fieldIndex: nat, valueToReplace: string, newValue: string, csv: string, parts: seq<string>)
    requires Split(csv) == parts && fieldIndex < |parts| && Trim(parts[fieldIndex]) == valueToReplace
    ensures ReplacedLine(fieldIndex, valueToReplace, newValue, csv) == Success(Join(parts[fieldIndex := newValue]))
  {
  }

  /** The third of four fields matches: it alone is replaced, padding and all. */
  lemma ReplacedThirdOfFour(csv: string, a: string, b: string, c: string, d: string,
                            valueToReplace: string, newValue: string)
    requires Split(csv) == [a, b, c, d] && Trim(c) == valueToReplace
    ensures ReplacedLine(2, valueToReplace, newValue, csv)
            == Success(a + [Delimiter] + b + [Delimiter] + newValue + [Delimiter] + d)
  {
    ReplacedMatchingPart(2, valueToReplace, newValue, csv, [a, b, c, d]);
    assert [a, b, c, d][2 := newValue] == [a, b, newValue, d];
    JoinFour(a, b, newValue, d);
  }

  lemma RowReplaced()
    ensures ReplacedLine(2, "AAAAAA", "ZZZZZZ", Row)
            == Success("field0" + [Delimiter] + " field1" + [Delimiter] + "ZZZZZZ" + [Delimiter] + " field3")
  {
    RowSplit();
    RowTrimmed();
    ReplacedThirdOfFour(Row, "field0", " field1", " AAAAAA", " field3", "AAAAAA", "ZZZZZZ");
  }

  lemma RowReplacedJoined()
    ensures "field0" + [Delimiter] + " field1" + [Delimiter] + "ZZZZZZ" + [Delimiter] + " field3" == ReplacedRow
  {
  }

  /** The matched field is replaced and loses its leading blank: "field0, field1,ZZZZZZ, field3". */
  lemma ValueSubstituted()
    ensures ReplacedLine(2, "AAAAAA", "ZZZZZZ", Row) == Success(ReplacedRow)
  {
    RowReplaced();
    RowReplacedJoined();
  }

  /** A value that is not present leaves the line as it was. */
  lemma ValueNotSubstituted()
    ensures ReplacedLine(2, "BBBBBB", "ZZZZZZ", Row) == Success(Row)
    ensures ReplacedLine(2, "AAAAAA", "ZZZZZZ", PlainRow) == Success(PlainRow)
  {
    RowSplit();
    PlainRowSplit();
    RowTrimmed();
    ReplacedLineUnchanged(2, "BBBBBB", "ZZZZZZ", Row);
    ReplacedLineUnchanged(2, "AAAAAA", "ZZZZZZ", PlainRow);
  }

  /**
   * Only the column with the heading is touched: in a line holding the
   * value in two columns, the other column keeps it.
   */
  lemma DoubleRowSplit()
    ensures Split(DoubleRow) == DoubleRowParts
  {
    DoubleRowJoined();
    SplitFour(DoubleRow, "field0", " AAAAAA", " AAAAAA", " field3");
  }

  lemma DoubleRowJoined()
    ensures DoubleRow == "field0" + [Delimiter] + " AAAAAA" + [Delimiter] + " AAAAAA" + [Delimiter] + " field3"
  {
  }

  lemma SecondColumnRowSplit()
    ensures Split(SecondColumnRow) == SecondColumnRowParts
  {
    SecondColumnRowJoined();
    SplitFour(SecondColumnRow, "field0", " AAAAAA", " field2", " field3");
  }

  lemma SecondColumnRowJoined()
    ensures SecondColumnRow == "field0" + [Delimiter] + " AAAAAA" + [Delimiter] + " field2" + [Delimiter] + " field3"
  {
  }

  lemma DoubleRowReplacedParts()
    ensures ReplacedLine(2, "AAAAAA", "ZZZZZZ", DoubleRow)
            == Success("field0" + [Delimiter] + " AAAAAA" + [Delimiter] + "ZZZZZZ"
                       + [Delimiter] + " field3")
  {
    DoubleRowSplit();
    RowTrimmed();
    ReplacedThirdOfFour(DoubleRow, "field0", " AAAAAA", " AAAAAA", " field3",
                        "AAAAAA", "ZZZZZZ");
  }

  lemma DoubleRowReplacedJoined()
    ensures "field0" + [Delimiter] + " AAAAAA" + [Delimiter] + "ZZZZZZ" + [Delimiter] + " field3"
            == ReplacedDoubleRow
  {
  }

  lemma DoubleRowReplaced()
    ensures ReplacedLine(2, "AAAAAA", "ZZZZZZ", DoubleRow) == Success(ReplacedDoubleRow)
  {
    DoubleRowReplacedParts();
    DoubleRowReplacedJoined();
  }

  /** A line holding the value only in another column comes back as it was. */
  lemma SecondColumnRowUnchanged()
    ensures ReplacedLine(2, "AAAAAA", "ZZZZZZ", SecondColumnRow) == Success(SecondColumnRow)
  {
    SecondColumnRowSplit();
    RowTrimmed();
    ReplacedLineUnchanged(2, "AAAAAA", "ZZZZZZ", SecondColumnRow);
  }

  lemma RowHeaderLookup()
    ensures IndexOf("AAAAAA", Row) == Some(2)
  {
    RowSplit();
    RowTrimmed();
    ThirdOfFourMatches(RowParts, "AAAAAA");
  }

  /** One more data line in front: its rewritten form goes in front of the rest. */
  lemma ReplaceInLinesCons(index: nat, valueToReplace: string, newValue: string, line: string, rest: seq<string>,
                           out: string, outs: seq<string>)
    requires ReplacedLine(index, valueToReplace, newValue, line) == Success(out)
    requires ReplaceInLines(index, valueToReplace, newValue, rest) == Success(outs)
    ensures ReplaceInLines(index, valueToReplace, newValue, [line] + rest) == Success([out] + outs)
  {
    assert ([line] + rest)[0] == line && ([line] + rest)[1..] == rest;
  }

  /** A five-line run whose four data lines are rewritten to `r1` .. `r4`. */
  lemma SubstituteFiveLines(l0: string, l1: string, l2: string, l3: string, l4: string,
                            columnHeading: string, valueToReplace: string, newValue: string, index: nat,
                            r1: string, r2: string, r3: string, r4: string)
    requires IndexOf(columnHeading, l0) == Some(index)
    requires ReplacedLine(index, valueToReplace, newValue, l1) == Success(r1)
    requires ReplacedLine(index, valueToReplace, newValue, l2) == Success(r2)
    requires ReplacedLine(index, valueToReplace, newValue, l3) == Success(r3)
    requires ReplacedLine(index, valueToReplace, newValue, l4) == Success(r4)
    ensures Substitute([l0, l1, l2, l3, l4], columnHeading, valueToReplace, newValue)
            == Success(Some([l0, r1, r2, r3, r4]))
  {
    ReplaceInLinesCons(index, valueToReplace, newValue, l4, [], r4, []);
    ReplaceInLinesCons(index, valueToReplace, newValue, l3, [l4] + [], r3, [r4] + []);
    ReplaceInLinesCons(index, valueToReplace, newValue, l2, [l3] + ([l4] + []), r2, [r3] + ([r4] + []));
    ReplaceInLinesCons(index, valueToReplace, newValue, l1, [l2] + ([l3] + ([l4] + [])),
                       r1, [r2] + ([r3] + ([r4] + [])));
    FiveAsConses(l0, l1, l2, l3, l4);
    FiveAsConses(l0, r1, r2, r3, r4);
  }

  /** A five-element display, built one element at a time. */
  lemma FiveAsConses<T>(a: T, b: T, c: T, d: T, e: T)
    ensures [a, b, c, d, e][1..] == [b] + ([c] + ([d] + ([e] + [])))
    ensures [a] + ([b] + ([c] + ([d] + ([e] + [])))) == [a, b, c, d, e]
  {
  }

  /**
   * The run of "allGivenValuesInAFileInAColumnWithAGivenHeaderAreReplaced…":
   * every matching field under "heading2" becomes "ZZZZZZ".
   */
  lemma AllValuesInColumnReplaced()
    ensures Substitute([Header, PlainRow, Row, PlainRow, Row], "heading2", "AAAAAA", "ZZZZZZ")
            == Success(Some([Header, PlainRow, ReplacedRow, PlainRow, ReplacedRow]))
  {
    HeadingPresent();
    ValueSubstituted();
    ValueNotSubstituted();
    SubstituteFiveLines(Header, PlainRow, Row, PlainRow, Row, "heading2", "AAAAAA", "ZZZZZZ", 2,
                        PlainRow, ReplacedRow, PlainRow, ReplacedRow);
  }

  /**
   * The run of "substitutionsAreNotMadeToTheColumnHeadings": the heading
   * "AAAAAA" is found at 2 in a header that also holds the value to
   * replace; the header stays as it is, only the data lines are rewritten.
   */
  lemma HeaderNeverRewritten()
    ensures Substitute([Row, PlainRow, Row, PlainRow, Row], "AAAAAA", "AAAAAA", "ZZZZZZ")
            == Success(Some([Row, PlainRow, ReplacedRow, PlainRow, ReplacedRow]))
  {
    RowHeaderLookup();
    ValueSubstituted();
    ValueNotSubstituted();
    SubstituteFiveLines(Row, PlainRow, Row, PlainRow, Row, "AAAAAA", "AAAAAA", "ZZZZZZ", 2,
                        PlainRow, ReplacedRow, PlainRow, ReplacedRow);
  }

  /**
   * The run of "substitutionsAreNotMadeToOtherColumns": "AAAAAA" in the
   * second column survives, in the third it is replaced.
   */
  lemma OtherColumnsUntouched()
    ensures Substitute([Header, PlainRow, DoubleRow, SecondColumnRow, Row], "heading2", "AAAAAA", "ZZZZZZ")
            == Success(Some([Header, PlainRow, ReplacedDoubleRow, SecondColumnRow, ReplacedRow]))
  {
    HeadingPresent();
    ValueSubstituted();
    ValueNotSubstituted();
    DoubleRowReplaced();
    SecondColumnRowUnchanged();
    SubstituteFiveLines(Header, PlainRow, DoubleRow, SecondColumnRow, Row, "heading2", "AAAAAA", "ZZZZZZ", 2,
                        PlainRow, ReplacedDoubleRow, SecondColumnRow, ReplacedRow);
  }

  /** An unknown heading produces no output file, although data lines would match. */
  lemma NoOutputForUnknownHeading()
    ensures Substitute([Header, PlainRow, Row, PlainRow, Row], "NON_EXISTENT_HEADING", "AAAAAA", "ZZZZZZ")
            == Success(None)
  {
    HeadingAbsent();
  }
}
