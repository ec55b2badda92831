# CSVSubstitutor in Dafny

`csv.CSVSubstitutor` rewrites one column of a comma-separated file. It reads the
file's lines and takes the first line as the header. It finds the column whose
trimmed heading equals the given heading. In every later line it replaces the
field in that column with a new value when the field's trimmed text equals the
value to replace. Then it writes the header and the rewritten lines to a new
file. When the heading is not in the header, it writes nothing at all.

This project models the pure part of that class, with the file reading and
writing removed:

- `JavaString` (`java_string.dfy`) models the three `java.lang.String`
  operations the class relies on, for the literal delimiter `","`:
  - `split(",")` (limit 0): `Split` cuts the line at every comma (`Cut`) and
    drops the trailing empty strings. A line with no comma is its own only
    part.
  - `String.join(",", …)`: `Join`.
  - `trim()`: `Trim` strips characters whose code is at most U+0020 from
    both ends.
- `CsvSubstitutor` (`csv_substitutor.dfy`) holds the class's own logic:
  - `getIndexOf` is the method `GetIndexOf`. It is a counting loop with an
    early return, proved equal to the function `IndexOf`, which states the
    first-match property.
  - `replaceWithinLine` is the method `ReplaceWithinLine`. It copies the
    split fields into an array, overwrites one cell in place and joins the
    array. It is proved equal to the function `ReplacedLine`.
  - `makeSubstitutions` between reading and writing is the function
    `Substitute`. It maps a line sequence to `Success(None)` when no file is
    written, to `Success(Some(lines))` when `lines` are written, or to
    `Failure(e)` when the code throws.
- The code throws in two places, and both are modelled as the error value
  `IndexOutOfBounds(index, length)`:
  - `List.get(0)` on an empty file.
  - `fields[fieldIndex]` on a data line with too few fields. This exception
    ends the whole run, so no file is written.
- `Scenarios` (`scenarios.dfy`) restates the cases of `SubstituteJUnitTest`
  that do not depend on the file system as lemmas about the model: the two
  header lookups, the two single-line substitutions and the four whole-file
  runs, each on the test's own lines.
- `KeepEmptyFields` (`keep_empty_fields.dfy`) holds the finding below.
- `Wrappers` (`wrappers.dfy`) holds `Option` (Java's `Optional`) and
  `Result`.

Replacing a value with the same value does not always give the line back
byte for byte. A matched field loses its surrounding blanks, because the new
value is inserted as given. A line that ends with a comma loses its trailing
empty fields. `ReplacedLineUnchanged` gives a sufficient condition for a line
to come back unchanged: the field does not match, or it already is the new
value verbatim, and the line does not end with a comma. The condition is not
necessary. A new value holding commas can rebuild a line that ends with one:
`ReplacedLine(0, "a", "a,", "a,")` is `Success("a,")`.
`ReplacedLineWithItselfDropsPadding` and `TrailingDelimiterDropped` show the
two losses.

## Model

| member | source | states |
|---|---|---|
| `JavaString.Trim` | src/main/java/csv/CSVSubstitutor.java:96 | the trimmed text is empty or starts and ends with a character above U+0020; it is empty exactly when every character is at most U+0020 |
| `JavaString.TrimIsSlice` | src/main/java/csv/CSVSubstitutor.java:96 | any slice with only trimmable characters around it, and with an untrimmable first and last character, is what trim returns |
| `JavaString.TrimIdempotent` | src/main/java/csv/CSVSubstitutor.java:96 | trimming a trimmed string changes nothing |
| `JavaString.Split` | src/main/java/csv/CSVSubstitutor.java:93 | no split part holds a comma; the last of several parts is never empty; a line without a comma is its own only part; otherwise the parts are the line cut at every comma, with only empty pieces dropped from the end |
| `JavaString.Join` | src/main/java/csv/CSVSubstitutor.java:120 | joining no parts gives the empty string; the first part starts the result and, when more parts follow, is followed by a comma |
| `JavaString.CutAppend` | src/main/java/csv/CSVSubstitutor.java:114-120 | cutting two strings joined by a comma gives the pieces of the first, then the pieces of the second |
| `JavaString.CutJoinAround` | src/main/java/csv/CSVSubstitutor.java:117-120 | joining comma-free parts around one arbitrary part and cutting again gives the parts back, with that one part cut into its own pieces |
| `JavaString.JoinCut` | src/main/java/csv/CSVSubstitutor.java:120 | joining with "," the pieces of a line cut at every comma gives the line back |
| `JavaString.CutJoin` | src/main/java/csv/CSVSubstitutor.java:120 | cutting a join of comma-free parts gives the parts back |
| `JavaString.JoinSplit` | src/main/java/csv/CSVSubstitutor.java:114-120 | join(split(s)) equals s exactly when s is empty or does not end with a comma |
| `JavaString.SplitJoin` | src/main/java/csv/CSVSubstitutor.java:114-120 | split(join(parts)) equals parts for comma-free parts unless the last of several parts is empty |
| `JavaString.SplitEmpty` | src/main/java/csv/CSVSubstitutor.java:93 | split returns no part at all exactly for a non-empty line made only of commas |
| `JavaString.CutLastEmpty` | src/main/java/csv/CSVSubstitutor.java:114 | the last comma-cut piece is empty exactly when the line is empty or ends with a comma |
| `CsvSubstitutor.IndexOf` | src/main/java/csv/CSVSubstitutor.java:92-102 | a returned index is within the header parts and its trimmed part equals the field; no earlier part matches; empty exactly when no trimmed part equals the field |
| `CsvSubstitutor.FirstMatchFrom` | src/main/java/csv/CSVSubstitutor.java:95-99 | the first match at or after a start position, with no match before it; none exactly when nothing from there on matches |
| `CsvSubstitutor.IndexOfIsFirstMatch` | src/main/java/csv/CSVSubstitutor.java:95-97 | a position whose trimmed part equals the field, with no such part before it, is the index returned |
| `CsvSubstitutor.GetIndexOf` | src/main/java/csv/CSVSubstitutor.java:92-102 | the counting loop with early return yields exactly IndexOf |
| `CsvSubstitutor.ReplacedLine` | src/main/java/csv/CSVSubstitutor.java:113-121 | throws exactly when the index is outside the split fields, reporting that index and the field count |
| `CsvSubstitutor.ReplaceWithinLine` | src/main/java/csv/CSVSubstitutor.java:113-121 | overwriting the array cell in place and joining yields exactly ReplacedLine |
| `CsvSubstitutor.ReplacedLineOnMatch` | src/main/java/csv/CSVSubstitutor.java:116-120 | on a match, the output cut at its commas is the input's fields before the index, then the new value cut at its own commas, then the input's fields after the index; for a comma-free new value that is the input's fields with the new value, verbatim, at the index |
| `CsvSubstitutor.ReplacedLineOnMismatch` | src/main/java/csv/CSVSubstitutor.java:114-120 | without a match, the output cuts into exactly the input's split fields and equals the input exactly when the input does not end with a comma |
| `CsvSubstitutor.ReplacedLineUnchanged` | src/main/java/csv/CSVSubstitutor.java:113-121 | a line not ending with a comma comes back unchanged when its field does not match or already is the new value verbatim |
| `CsvSubstitutor.ReplacedLineWithItselfDropsPadding` | src/main/java/csv/CSVSubstitutor.java:116-117 | replacing "A" with "A" in the line " A" gives "A": replacing a value with itself is not the identity |
| `CsvSubstitutor.ReplaceInLines` | src/main/java/csv/CSVSubstitutor.java:47-52 | succeeds exactly when every data line has the field; then the output has one line per input line, each being replaceWithinLine of that line, in order |
| `CsvSubstitutor.ReplaceInLinesThrowsAtFirst` | src/main/java/csv/CSVSubstitutor.java:47-52 | the exception that ends the stream is the one of the first line without the field |
| `CsvSubstitutor.Substitute` | src/main/java/csv/CSVSubstitutor.java:42-57 | an empty file throws at get(0); an unknown heading writes nothing; written output is as long as the input and starts with the unchanged header |
| `CsvSubstitutor.SubstituteFound` | src/main/java/csv/CSVSubstitutor.java:46-54 | with the heading found and every data line long enough, output line k is replaceWithinLine of input line k for every k >= 1, after the unchanged header |
| `CsvSubstitutor.SubstituteIsHeaderThenRewrittenLines` | src/main/java/csv/CSVSubstitutor.java:46-54 | conversely, the header followed by lines that are, one for one, replaceWithinLine of the data lines is exactly what is written |
| `CsvSubstitutor.SubstituteThrows` | src/main/java/csv/CSVSubstitutor.java:42-52 | the run throws exactly when the file is empty, or when the heading is found and some data line lacks the field |
| `CsvSubstitutor.SubstituteThrowsAtFirst` | src/main/java/csv/CSVSubstitutor.java:47-52 | when the heading is found, the exception of the whole run is the one of the first data line without the field: that index and that line's field count |
| `CsvSubstitutor.SubstituteHeadingMissing` | src/main/java/csv/CSVSubstitutor.java:44-46 | when no trimmed header part equals the heading, nothing is written, whatever the data lines hold |
| `CsvSubstitutor.SubstituteHeaderOnly` | src/main/java/csv/CSVSubstitutor.java:46-56 | a file holding only its header, with the heading found, is written back unchanged |
| `CsvSubstitutor.SubstituteUnchanged` | src/main/java/csv/CSVSubstitutor.java:46-54 | the output equals the input when every data line has the field, does not end with a comma, and does not match or already holds the new value verbatim (a sufficient condition, not a necessary one) |
| `Scenarios.HeadingPresent` | src/test/java/csv/SubstituteJUnitTest.java:61-66 | "heading2" is found at index 2 of "heading0, heading1, heading2, heading3" |
| `Scenarios.HeadingAbsent` | src/test/java/csv/SubstituteJUnitTest.java:68-73 | "hello" and "NON_EXISTENT_HEADING" are not found in that header |
| `Scenarios.ValueSubstituted` | src/test/java/csv/SubstituteJUnitTest.java:75-80 | replacing AAAAAA with ZZZZZZ at index 2 gives "field0, field1,ZZZZZZ, field3" |
| `Scenarios.ValueNotSubstituted` | src/test/java/csv/SubstituteJUnitTest.java:82-88 | a value that is not present leaves the line unchanged |
| `Scenarios.DoubleRowReplaced` | src/test/java/csv/SubstituteJUnitTest.java:162-171 | in "field0, AAAAAA, AAAAAA, field3" only the field at index 2 is replaced, giving "field0, AAAAAA,ZZZZZZ, field3" |
| `Scenarios.SecondColumnRowUnchanged` | src/test/java/csv/SubstituteJUnitTest.java:163-172 | "field0, AAAAAA, field2, field3", holding the value only at index 1, comes back unchanged |
| `Scenarios.AllValuesInColumnReplaced` | src/test/java/csv/SubstituteJUnitTest.java:104-122 | the five-line file under "heading2" is written with both "AAAAAA" fields of column 2 replaced by "ZZZZZZ" and every other line unchanged |
| `Scenarios.NoOutputForUnknownHeading` | src/test/java/csv/SubstituteJUnitTest.java:124-136 | for the same five-line file, the heading "NON_EXISTENT_HEADING" produces no output, although data lines would match |
| `Scenarios.HeaderNeverRewritten` | src/test/java/csv/SubstituteJUnitTest.java:138-155 | for the five-line file whose header holds "AAAAAA", the header is written unchanged and only the matching data lines are rewritten |
| `Scenarios.OtherColumnsUntouched` | src/test/java/csv/SubstituteJUnitTest.java:157-174 | "AAAAAA" outside column 2 survives and in column 2 is replaced, for the whole five-line file |
| `KeepEmptyFields.TrailingEmptyFieldThrows` | src/main/java/csv/CSVSubstitutor.java:114-116 | the line "x,y," has three comma-cut fields, yet addressing field 2 throws IndexOutOfBounds(2, 2) |
| `KeepEmptyFields.TrailingDelimiterDropped` | src/main/java/csv/CSVSubstitutor.java:114-120 | the non-matching line "x,y," is written back as "x,y" |
| `KeepEmptyFields.ReplacedLineKeepingEmpty` | src/main/java/csv/CSVSubstitutor.java:113-121 | with every empty field kept, the field exists exactly when the index is within the comma-cut fields |
| `KeepEmptyFields.KeepingEmptyAgreesOnSplitFields` | src/main/java/csv/CSVSubstitutor.java:113-121 | on lines not ending with a comma, the corrected and the as-written replacement agree |
| `KeepEmptyFields.KeepingEmptyMismatchUnchanged` | src/main/java/csv/CSVSubstitutor.java:114-120 | with every empty field kept, a line whose field does not match is written back byte for byte |
| `KeepEmptyFields.KeepingEmptyMatchReplacesField` | src/main/java/csv/CSVSubstitutor.java:116-120 | with every empty field kept, on a match the output cut at its commas is the fields before the index, then the new value cut at its own commas, then the fields after it, trailing empty ones included; for a comma-free new value, exactly that field is replaced |
| `KeepEmptyFields.TrailingEmptyFieldReplaced` | src/main/java/csv/CSVSubstitutor.java:114-120 | with every empty field kept, the empty third field of "x,y," is found and "x,y,z" results |

## Left out

- `toListOfStringLines` (src/main/java/csv/CSVSubstitutor.java:66-83) is file I/O: opening the file, decoding bytes and recognising line terminators. The `FileNotFoundException` and other `IOException` paths are I/O too. The model takes the line sequence as its input.
- `writeToFile` (src/main/java/csv/CSVSubstitutor.java:129-135) is file I/O: `PrintWriter` output and platform line terminators. The model returns the lines that would be written, or `None` when no file is created.
- The file names given to `makeSubstitutions` are I/O parameters and do not appear in `Substitute`.
- The regular-expression engine behind `String.split` is not modelled. The only pattern used is the literal `","`, so `Split` works on that character directly.
- Characters are Dafny `char` values, not UTF-16 code units. The code only compares characters with `,` and with U+0020, where the two agree.
- Quoting and escaping of fields are not modelled, because the code has none.
- The test helpers `createInputFile` and `assertOutputFileContainsLines` and the file clean-up (src/test/java/csv/SubstituteJUnitTest.java:31-35, 176-202) are filesystem plumbing. The read and write tests (src/test/java/csv/SubstituteJUnitTest.java:37-58, 90-102) test only I/O.

## Findings

| source | as written | input that shows it | evidently intended | confidence | as-written member | corrected member |
|---|---|---|---|---|---|---|
| src/main/java/csv/CSVSubstitutor.java:114-116 | `split(",")` drops trailing empty fields, so a data line whose last fields are empty has fewer fields than the header. Indexing such a field throws `ArrayIndexOutOfBoundsException`, and that aborts the whole run. | header "h0,h1,h2", data line "x,y,", heading "h2": the line has three fields, but index 2 throws | an empty last field is a field like any other, so it can be matched (here against "") and replaced | not executed | `KeepEmptyFields.TrailingEmptyFieldThrows` | `KeepEmptyFields.ReplacedLineKeepingEmpty` |
| src/main/java/csv/CSVSubstitutor.java:114-120 | a data line that does not match but ends with a comma is re-joined without its trailing empty fields | "x,y," at index 0 with value "b": written as "x,y" | a line whose field does not match is written back unchanged | not executed | `KeepEmptyFields.TrailingDelimiterDropped` | `KeepEmptyFields.KeepingEmptyMismatchUnchanged` |

The corrected definition cuts the line at every comma, as `split(",", -1)`
does. `KeepingEmptyAgreesOnSplitFields` shows that it agrees with the code on
every line that does not end with a comma. `Substitute` itself keeps the
as-written behaviour, because that is what the program does.
