# UTS grading planner: a verified model of its core

UTS plans which students a teacher grades at each test of a period. A
document (`.uts` file) is a grid with one row per student and one cell per
test. Each cell is `None` (`-`), `Absent` (`A`), `Recommended` (`D`),
`Graded` (`Z`) or `Locked` (`L`). The document carries three parameters:
`T` tests, `K` students to grade per test, and `E` grades every student
needs by the end. This project models the following in Dafny:

- the selection engine that regenerates the recommendations of one test column;
- the student record and the document that hold the grid;
- the cell codec;
- the `.uts` text format (its CSV line parser, field escaper, metadata lookup, loader and writer);
- the cell-click and diagnostics logic of the main window's view model.

It proves what these operations promise.

Layout, one module per file:

| file | module | models |
|---|---|---|
| `errors.dfy` | `Errors` | the exceptions the code throws, as `Result`/`Outcome` values |
| `cell_state.dfy` | `CellStates` | `CellState` and `CellStateCodec` |
| `student_record.dfy` | `Students` | `StudentRecord`, a class over a fixed `array<CellState>` |
| `uts_document.dfy` | `Documents` | `UtsDocument`, a class with `T`/`K`/`E` and the student list; `Validate` |
| `selection_spec.dfy` | `SelectionSpec` | what one regeneration computes, as functions on grid values |
| `selection_engine.dfy` | `SelectionEngine` | `RegenerateColumn` step by step, each step proved against the spec |
| `selection_properties.dfy` | `SelectionProperties` | what a regeneration guarantees about the column |
| `csv_line.dfy` | `CsvLine` | `Parse` and `Esc`, and the round trip between them |
| `uts_format.dfy` | `UtsFormat` | `Get`, the lines `Save` writes and what `Load` reads |
| `uts_round_trip.dfy` | `UtsRoundTrip` | loading what `Save` wrote gives the document back |
| `uts_file.dfy` | `UtsFile` | the file as text: the line terminators `Save` writes and the split of `File.ReadAllLines` |
| `uts_load_properties.dfy` | `UtsLoadProperties` | exactly which files `Load` accepts, and what it builds from them |
| `view_model.dfy` | `ViewModel` | the click transitions, `RecomputeDiagnostics`, `GenerateColumn` |

How the code's behaviour is represented:

- **Exceptions** are error values, and their kinds are kept. `Validate`'s `InvalidOperationException` has its four causes. `FormatException` has its nine causes. An index outside a cell array and an out-of-range test index each have their own kind.
- **A document's grid** is read through the ghost function `UtsDocument.Rows()`. It gives one `Row` value (id, name, cells) per student. The engine's methods change the records' arrays in place and are proved against functions on these values.
- **The random choice** in `SampleByKeys` is any subset of the pool of the requested size.
- **`int.Parse`** in `Load` is the function parameter `parseInt`.
- **`T*K < n*E`** is evaluated with C#'s unchecked 32-bit products (`Wrap32`), as the code does.
- **Left-over Locked cells.** The engine follows the code, not the intent. A `Locked` cell is eligible and counts as an opportunity, so it can take a slot. The write-back only flips `None` cells, so a Locked cell is never flipped.

## Model

| member | source | states |
|---|---|---|
| CellStates.ToChar | UTS.Backend/Domain/CellStateCodec.cs:5-12 | the symbol is one of `A D Z - L`, and it is `-` exactly for `None` |
| CellStates.FromChar | UTS.Backend/Domain/CellStateCodec.cs:14-22 | succeeds exactly on the five symbols; any other character fails with an invalid-cell format error naming it |
| CellStates.FromCharToChar | UTS.Backend/Domain/CellStateCodec.cs:5-22 | decoding the symbol of any state gives that state back |
| CellStates.ToCharFromChar | UTS.Backend/Domain/CellStateCodec.cs:5-22 | encoding the state of any valid symbol gives that symbol back |
| CellStates.ToCharBijective | UTS.Backend/Domain/CellStateCodec.cs:5-12 | `ToChar` is injective and its range is exactly the five symbols |
| Students.OccurrencesIsCardinality | UTS.Backend/Domain/StudentRecord.cs:35 | the count of a state is the number of positions holding it |
| Students.OccurrencesBelow | UTS.Backend/Domain/StudentRecord.cs:35 | the count over a prefix is the number of positions below `n` holding the state |
| Students.OccurrencesZero | UTS.Backend/Domain/StudentRecord.cs:35 | a state occurs zero times exactly when no cell holds it |
| Students.OccurrencesUpdate | UTS.Backend/Domain/StudentRecord.cs:23-29 | writing one cell changes each state's count by the cell's old and new values only |
| Students.StudentRecord.constructor | UTS.Backend/Domain/StudentRecord.cs:9-14 | keeps id and name; a fresh array of `testsCount` cells, all `None` |
| Students.StudentRecord.Create | UTS.Backend/Domain/StudentRecord.cs:9-14 | a null name fails with `ArgumentNull`, and a negative length fails with `Overflow`; a null id becomes `""`; otherwise a fresh all-`None` record of the given length |
| Students.StudentRecord.At | UTS.Backend/Domain/StudentRecord.cs:22 | the cell at `i` when `0 <= i < TestsCount`, otherwise an index-out-of-range failure (no clamping) |
| Students.StudentRecord.Set | UTS.Backend/Domain/StudentRecord.cs:23-29 | in range: the cells become the old cells with only `i` replaced (so writing the current value changes nothing); out of range: a failure and no change; the length never changes |
| Students.StudentRecord.GradedCount | UTS.Backend/Domain/StudentRecord.cs:35 | the number of `Graded` cells, between 0 and `TestsCount` |
| Students.StudentRecord.LastGradedIndex | UTS.Backend/Domain/StudentRecord.cs:37-42 | the largest index holding `Graded`, or -1 exactly when there is none; the result lies in `[-1, TestsCount)` |
| Documents.Validation | UTS.Backend/Domain/UtsDocument.cs:29-37 | passes iff `T > 0`, `K >= 0`, `E >= 0` and every row has `T` cells; otherwise the first failing check in the order T, K, E, rows decides the error |
| Documents.UtsDocument.constructor | UTS.Backend/Domain/UtsDocument.cs:10-27 | `"Unnamed"`, `T = K = E = 0`, no students, and it fails validation on `T` |
| Documents.UtsDocument.Rows | UTS.Backend/Domain/UtsDocument.cs:27 | one row value per student, in list order, holding the record's id, name and cells |
| Documents.UtsDocument.Validate | UTS.Backend/Domain/UtsDocument.cs:29-37 | reports `Validation` of the current fields and grid, and modifies nothing |
| SelectionSpec.Wrap32 | UTS.Backend/Selection/SelectionEngine.cs:17 | the product reduced into the 32-bit range, congruent to it modulo 2^32; a product that fits is unchanged |
| SelectionSpec.GlobalCheckExact | UTS.Backend/Selection/SelectionEngine.cs:17 | when both products fit in 32 bits, the check is exactly `T*K < n*E` |
| SelectionSpec.GlobalCheckWraps | UTS.Backend/Selection/SelectionEngine.cs:17 | with `T = K = 65536` and `n = E = 1` the wrapped product makes the check report infeasibility |
| SelectionSpec.GlobalCheckWrapsNegative | UTS.Backend/Selection/SelectionEngine.cs:17 | whenever `T*K` lies between 2^31 and 2^32 and `n*E` fits in 32 bits, the check reports infeasibility although `n*E < T*K` |
| SelectionSpec.OpportunitiesComplement | UTS.Backend/Selection/SelectionEngine.cs:48-54 | every cell is an opportunity, Absent or Graded, and never two of these |
| SelectionSpec.Column | UTS.Backend/Selection/SelectionEngine.cs:25 | the cells of column `t`, one per student |
| SelectionSpec.ColumnCountIsCardinality | UTS.Backend/Selection/SelectionEngine.cs:25 | the column count of a state is the number of students holding it at `t` |
| SelectionSpec.EligibleIndices | UTS.Backend/Selection/SelectionEngine.cs:35 | exactly the students whose cell `t` is neither Absent nor Graded, in increasing order |
| SelectionSpec.CandidatesOf | UTS.Backend/Selection/SelectionEngine.cs:42-65 | one candidate per eligible student, in the same order, with that student's deficit and mandatory flag |
| SelectionSpec.MandatoryStudents | UTS.Backend/Selection/SelectionEngine.cs:69 | every mandatory candidate's student is listed |
| SelectionSpec.MandatoryStudentsSound | UTS.Backend/Selection/SelectionEngine.cs:69 | only mandatory candidates' students are listed |
| SelectionSpec.MandatoryStudentsIncreasing | UTS.Backend/Selection/SelectionEngine.cs:69 | the mandatory students come in document order |
| SelectionSpec.MandatoryStudentsPrefix | UTS.Backend/Selection/SelectionEngine.cs:69-73 | scanning a prefix of the candidates finds a prefix of the mandatory students |
| SelectionSpec.Cleared | UTS.Backend/Selection/SelectionEngine.cs:20-22 | every Recommended cell of column `t` becomes None; nothing else changes |
| SelectionSpec.WrittenRows | UTS.Backend/Selection/SelectionEngine.cs:86-95 | in column `t`, the None cells of the selected students become Recommended; nothing else changes |
| SelectionSpec.NoneAt | UTS.Backend/Selection/SelectionEngine.cs:90 | the students whose cell `t` is None |
| SelectionSpec.WrittenRowsStep | UTS.Backend/Selection/SelectionEngine.cs:88-95 | writing one more student after a selection gives the grid of writing the enlarged selection |
| SelectionEngine.SampleByKeys | UTS.Backend/Selection/SelectionEngine.cs:100-114 | a subset of the pool of `min(k, pool size)` members |
| SelectionEngine.CountOpportunities | UTS.Backend/Selection/SelectionEngine.cs:48-54 | the number of opportunities from column `from` on |
| SelectionEngine.Evaluate | UTS.Backend/Selection/SelectionEngine.cs:43-64 | the candidate's deficit `max(0, E - graded)`, its mandatory flag `deficit > 0 && deficit == remainingFromT`, and whether `E` is unreachable |
| SelectionEngine.ClearColumn | UTS.Backend/Selection/SelectionEngine.cs:20-22 | the grid becomes `Cleared` of the old grid |
| SelectionEngine.CountFixedGraded | UTS.Backend/Selection/SelectionEngine.cs:25 | the number of Graded cells in column `t` |
| SelectionEngine.EligibleStudents | UTS.Backend/Selection/SelectionEngine.cs:35 | the eligible students of column `t`, in document order |
| SelectionEngine.BuildCandidates | UTS.Backend/Selection/SelectionEngine.cs:41-65 | the candidates of the eligible students, with one unreachable-E warning per such student appended in order |
| SelectionEngine.SelectMandatory | UTS.Backend/Selection/SelectionEngine.cs:67-73 | the first `min(slots, mandatory count)` mandatory students in document order |
| SelectionEngine.WriteOne | UTS.Backend/Selection/SelectionEngine.cs:88-95 | one selected student is written, and the write happened exactly when the cell was None |
| SelectionEngine.WriteRecommendations | UTS.Backend/Selection/SelectionEngine.cs:86-95 | the grid becomes `WrittenRows` and `added` is the number of selected students whose cell was None |
| SelectionEngine.MandatoryAreEligible | UTS.Backend/Selection/SelectionEngine.cs:67-73 | mandatory students are eligible, and there are no more of them than candidates |
| SelectionEngine.ChooseStudents | UTS.Backend/Selection/SelectionEngine.cs:67-84 | `min(slots, eligible)` eligible students, including the first `min(slots, mandatory)` mandatory ones |
| SelectionEngine.CountSlots | UTS.Backend/Selection/SelectionEngine.cs:24-39 | `fixedGraded`, `slots = max(0, K - fixedGraded)`, the eligible students, and the capacity and too-few-eligible warnings in that order |
| SelectionEngine.Analyse | UTS.Backend/Selection/SelectionEngine.cs:24-75 | the column statistics, the candidates, and the column warnings in detection order |
| SelectionEngine.Plan | UTS.Backend/Selection/SelectionEngine.cs:24-84 | the column warnings and a valid selection of the cleared grid |
| SelectionEngine.Recommend | UTS.Backend/Selection/SelectionEngine.cs:24-95 | a valid selection written back, the number written, and the warnings |
| SelectionEngine.Regenerate | UTS.Backend/Selection/SelectionEngine.cs:13-97 | on a valid document, the grid after is `Regenerated` from the grid before, and the result holds `t`, the fixed grades, the number added and the expected warnings |
| SelectionEngine.RegenerateColumn | UTS.Backend/Selection/SelectionEngine.cs:8-98 | an invalid document fails with its validation error and an index outside `[0, T)` fails with `ArgumentOutOfRange`, both before any cell changes; otherwise as `Regenerate` |
| SelectionProperties.StudentsAtCount | UTS.Backend/Selection/SelectionEngine.cs:25 | the column count is the size of the set of students holding the state |
| SelectionProperties.SelectedAreEligible | UTS.Backend/Selection/SelectionEngine.cs:35 | every selected student is eligible in the cleared column |
| SelectionProperties.OtherCellsKept | UTS.Backend/Selection/SelectionEngine.cs:21-22 | the number and order of students, ids, names, row lengths and every cell outside column `t` are unchanged |
| SelectionProperties.ColumnAfter | UTS.Backend/Selection/SelectionEngine.cs:90-93 | Absent, Graded and Locked cells of column `t` are unchanged; a cell ends Recommended exactly when it was None or Recommended and its student was selected |
| SelectionProperties.GradesKept | UTS.Backend/Selection/SelectionEngine.cs:25 | the number of Graded cells in column `t` is the same before, after clearing and after the call, so it equals `FixedGraded` |
| SelectionProperties.RecommendedAreWritten | UTS.Backend/Selection/SelectionEngine.cs:86-97 | the Recommended cells of column `t` after the call are exactly those written, and their number is `RecommendedAdded` |
| SelectionProperties.IntersectionSize | UTS.Backend/Selection/SelectionEngine.cs:88-95 | writing to a subset of the selection writes at most the selection |
| SelectionProperties.AddedBound | UTS.Backend/Selection/SelectionEngine.cs:26-35 | `RecommendedAdded <= min(slots, eligible)`, with equality when the column holds no Locked cell |
| SelectionProperties.AtMostK | UTS.Backend/Selection/SelectionEngine.cs:26-32 | grades plus recommendations in column `t` never exceed `max(K, fixedGraded)` |
| SelectionProperties.FullColumnUnchanged | UTS.Backend/Selection/SelectionEngine.cs:26-32 | with `K <= fixedGraded` nobody is selected and no cell of column `t` is Recommended |
| SelectionProperties.MandatoryServed | UTS.Backend/Selection/SelectionEngine.cs:67-73 | the first `min(slots, mandatory)` mandatory students end up Recommended, unless their cell is Locked |
| CsvLine.Parse | UTS.Backend/Persistence/UtsCsv.cs:81-139 | the index loop computes `ParseLine`, the quote-aware state machine |
| CsvLine.ScanCounts | UTS.Backend/Persistence/UtsCsv.cs:84-138 | the parser fails only with the quote-in-unquoted-field or the unterminated-field error; an accepted line has one field more than the commas outside quotes, and an even number of quotes |
| CsvLine.FieldCount | UTS.Backend/Persistence/UtsCsv.cs:84-138 | a parsed line has at least one field: the commas outside quotes plus one |
| CsvLine.OddQuotesRejected | UTS.Backend/Persistence/UtsCsv.cs:120-136 | a line with an odd number of quotes is rejected, with one of the two format errors |
| CsvLine.ScanPlain | UTS.Backend/Persistence/UtsCsv.cs:128-131 | characters without commas or quotes are appended to the field as they are |
| CsvLine.QuotedFieldRead | UTS.Backend/Persistence/UtsCsv.cs:93-111 | inside quotes, `""` reads as one quote, commas are kept, and a single quote closes the field |
| CsvLine.EscAll | UTS.Backend/Persistence/UtsCsv.cs:71-72 | each field escaped in place |
| CsvLine.ScanEsc | UTS.Backend/Persistence/UtsCsv.cs:71-72 | an escaped field followed by a comma or the end of the line reads back as the field |
| CsvLine.ScanJoin | UTS.Backend/Persistence/UtsCsv.cs:71-139 | reading comma-joined escaped fields appends exactly those fields |
| CsvLine.RoundTrip | UTS.Backend/Persistence/UtsCsv.cs:71-139 | `Parse` of comma-joined `Esc`'d fields gives exactly those fields |
| CsvLine.EscPlain | UTS.Backend/Persistence/UtsCsv.cs:71-72 | `Esc` leaves a field with no comma or quote unchanged |
| CsvLine.ScanComma | UTS.Backend/Persistence/UtsCsv.cs:114-118 | outside quotes a comma completes the field and starts an empty one |
| CsvLine.ScanQuote | UTS.Backend/Persistence/UtsCsv.cs:120-126 | outside quotes a quote opens a quoted field when the field is empty, and fails with the quote-in-unquoted-field error otherwise |
| CsvLine.ScanLeading | UTS.Backend/Persistence/UtsCsv.cs:71-118 | after any sequence of escaped fields each followed by a comma, the parser is at the start of a field with exactly those fields completed |
| CsvLine.LeadingStep | UTS.Backend/Persistence/UtsCsv.cs:71-118 | the first such field is read back and its comma completes it |
| CsvLine.QuoteAfterTextRejected | UTS.Backend/Persistence/UtsCsv.cs:120-124 | after any accepted leading fields, a quote after other characters of an unquoted field fails with the quote-in-unquoted-field error (`x,a"b`) |
| CsvLine.QuotedThenPlain | UTS.Backend/Persistence/UtsCsv.cs:93-131 | a closed quoted field followed by plain text reads as the two run together, outside quotes |
| CsvLine.QuoteAfterQuotedRejected | UTS.Backend/Persistence/UtsCsv.cs:93-124 | after any accepted leading fields, a quoted field, then text, then a quote fails with the quote-in-unquoted-field error (`"a"b"`) |
| CsvLine.UnterminatedRejected | UTS.Backend/Persistence/UtsCsv.cs:135-136 | after any accepted leading fields, an opening quote whose remainder never closes it (any field with its quotes doubled, such as `a""`) fails with the unterminated-field error (`x,"a`, `"a""`) |
| CsvLine.UnterminatedFrom | UTS.Backend/Persistence/UtsCsv.cs:93-136 | once inside quotes, a rest whose quotes are all doubled ends unterminated |
| UtsFormat.Get | UTS.Backend/Persistence/UtsCsv.cs:148-163 | the loop over even positions computes `Lookup` |
| UtsFormat.LookupSkip | UTS.Backend/Persistence/UtsCsv.cs:152-160 | even positions that do not hold the key are passed over |
| UtsFormat.LookupFound | UTS.Backend/Persistence/UtsCsv.cs:152-159 | the first even position holding the key decides: the next token, or the missing-value error when the key is the last token |
| UtsFormat.LookupAbsent | UTS.Backend/Persistence/UtsCsv.cs:162 | without the key at an even position the default is returned |
| UtsFormat.NatToString | UTS.Backend/Persistence/UtsCsv.cs:16 | a decimal numeral is non-empty and has no comma or quote |
| UtsFormat.TestName | UTS.Backend/Persistence/UtsCsv.cs:19 | a header name `TestN` needs no escaping |
| UtsFormat.Encode | UTS.Backend/Persistence/UtsCsv.cs:16-27 | the meta line, the header, then one line per student |
| UtsFormat.WriteRow | UTS.Backend/Persistence/UtsCsv.cs:24-26 | the student's line: escaped id, escaped name, one symbol per cell |
| UtsFormat.WriteHeader | UTS.Backend/Persistence/UtsCsv.cs:18-20 | `StudentId,StudentName,Test1,...,TestT` |
| UtsFormat.WriteRows | UTS.Backend/Persistence/UtsCsv.cs:22-27 | one line per student, in document order |
| UtsFormat.Save | UTS.Backend/Persistence/UtsCsv.cs:11-28 | an invalid document fails with its validation error before anything is written; otherwise the lines of `Encode` |
| UtsFormat.ReadInt | UTS.Backend/Persistence/UtsCsv.cs:42-44 | `int.Parse` of `Get(meta, key, "0")` |
| UtsFormat.Utf16Length | UTS.Backend/Persistence/UtsCsv.cs:60 | C#'s `string.Length` in UTF-16 code units: between one and two per character |
| UtsFormat.Utf16LengthOne | UTS.Backend/Persistence/UtsCsv.cs:60 | a string has C# length 1 exactly when it is one character of the Basic Multilingual Plane |
| UtsFormat.ReadRecord | UTS.Backend/Persistence/UtsCsv.cs:57-62 | a fresh record read from the fields, or the first error: a field whose C# length is not 1 is an invalid cell token, otherwise the codec's error |
| UtsFormat.ReadRows | UTS.Backend/Persistence/UtsCsv.cs:51-64 | the students appended are the rows `DecodeRows` reads, or its first error |
| UtsFormat.Append | UTS.Backend/Persistence/UtsCsv.cs:63 | the grid gains the record as its last row; parameters unchanged |
| UtsFormat.Load | UTS.Backend/Persistence/UtsCsv.cs:30-68 | fails exactly when `Decode` fails, with the same error; otherwise a fresh document whose value is `Decode`'s |
| UtsFormat.LoadBody | UTS.Backend/Persistence/UtsCsv.cs:39-66 | the same, from the metadata on |
| UtsRoundTrip.JoinSnoc | UTS.Backend/Persistence/UtsCsv.cs:16 | joining one more field appends a comma and the field |
| UtsRoundTrip.CommasJoin | UTS.Backend/Persistence/UtsCsv.cs:18-26 | writing fields one comma at a time is joining them |
| UtsRoundTrip.TestNamesPlain | UTS.Backend/Persistence/UtsCsv.cs:19 | no header name needs escaping |
| UtsRoundTrip.TestColumnsCommas | UTS.Backend/Persistence/UtsCsv.cs:19 | the test columns are the names `Test1..TestT`, each after a comma |
| UtsRoundTrip.HeaderStart | UTS.Backend/Persistence/UtsCsv.cs:18 | the header starts with the two joined fixed names |
| UtsRoundTrip.HeaderWidth | UTS.Backend/Persistence/UtsCsv.cs:18-20 | the header for `T >= 0` tests reads back as `2 + T` fields, so `Load`'s width check passes |
| UtsRoundTrip.MetaRead | UTS.Backend/Persistence/UtsCsv.cs:16 | the meta line reads back as tag, version, class name and the three numerals |
| UtsRoundTrip.MetaLookups | UTS.Backend/Persistence/UtsCsv.cs:41-44 | every key sits at its own even position, so a class name such as `T` cannot shadow a parameter |
| UtsRoundTrip.Symbols | UTS.Backend/Persistence/UtsCsv.cs:25 | one single-symbol field per cell, none needing escaping |
| UtsRoundTrip.CellSymbolsCommas | UTS.Backend/Persistence/UtsCsv.cs:25 | the cell part of a line is the cell symbols, each after a comma |
| UtsRoundTrip.RowRead | UTS.Backend/Persistence/UtsCsv.cs:24-26 | a student line reads back as id, name and one symbol per cell |
| UtsRoundTrip.DecodeSymbols | UTS.Backend/Persistence/UtsCsv.cs:58-62 | the symbols of the cells decode back to those cells |
| UtsRoundTrip.RowNotBlank | UTS.Backend/Persistence/UtsCsv.cs:53 | a student line is never skipped as blank |
| UtsRoundTrip.RowDecoded | UTS.Backend/Persistence/UtsCsv.cs:53-62 | a student line of a `T`-test document passes the width check and decodes to that student |
| UtsRoundTrip.RowsRead | UTS.Backend/Persistence/UtsCsv.cs:51-64 | the student lines decode to the students, in order |
| UtsRoundTrip.MetaDecoded | UTS.Backend/Persistence/UtsCsv.cs:35-44 | the meta line gives back the class name and `T`, `K`, `E` |
| UtsRoundTrip.BodyDecoded | UTS.Backend/Persistence/UtsCsv.cs:42-66 | from the parameters on, the saved lines decode to the document |
| UtsRoundTrip.DecodeEncode | UTS.Backend/Persistence/UtsCsv.cs:11-68 | decoding the sequence of lines saved for any valid document, taken line for line, gives that document back, when `int.Parse` reads decimal numerals; the file's split into lines is `UtsFile.FileRoundTrip` |
| UtsRoundTrip.DecodeValid | UTS.Backend/Persistence/UtsCsv.cs:66 | every document `Load` returns passes validation |
| UtsFile.WrittenText | UTS.Backend/Persistence/UtsCsv.cs:14-27 | the text written: every line followed by the terminator, so at least one character per line |
| UtsFile.ReadLinesSingle | UTS.Backend/Persistence/UtsCsv.cs:32 | no line `File.ReadAllLines` returns holds `\r` or `\n` |
| UtsFile.ReadLineOf | UTS.Backend/Persistence/UtsCsv.cs:32 | a line free of line breaks, then `\r\n` or `\n`, is read as that line |
| UtsFile.ReadWritten | UTS.Backend/Persistence/UtsCsv.cs:14-32 | splitting the written text gives back the lines written, when none holds a line break |
| UtsFile.DoubleChars | UTS.Backend/Persistence/UtsCsv.cs:72 | quote-doubling keeps exactly the characters of the field |
| UtsFile.EscSingle | UTS.Backend/Persistence/UtsCsv.cs:71-72 | an escaped field holds a line break exactly when the field does |
| UtsFile.JoinSingle | UTS.Backend/Persistence/UtsCsv.cs:16 | comma-joined fields hold a line break exactly when one of the fields does |
| UtsFile.NatToStringSingle | UTS.Backend/Persistence/UtsCsv.cs:16 | a decimal numeral holds no line break |
| UtsFile.IntToStringSingle | UTS.Backend/Persistence/UtsCsv.cs:16 | a formatted `int` holds no line break |
| UtsFile.MetaLineSingle | UTS.Backend/Persistence/UtsCsv.cs:16 | the metadata line holds a line break exactly when the class name does |
| UtsFile.TestColumnsSingle | UTS.Backend/Persistence/UtsCsv.cs:19 | the test columns hold no line break |
| UtsFile.HeaderLineSingle | UTS.Backend/Persistence/UtsCsv.cs:18-20 | the header holds no line break |
| UtsFile.CellSymbolsSingle | UTS.Backend/Persistence/UtsCsv.cs:25 | the cell symbols hold no line break |
| UtsFile.RowLineSingle | UTS.Backend/Persistence/UtsCsv.cs:24-26 | a student line holds a line break exactly when the id or the name does |
| UtsFile.RowsSingle | UTS.Backend/Persistence/UtsCsv.cs:22-27 | the student lines hold a line break exactly where an id or a name does |
| UtsFile.SafeLines | UTS.Backend/Persistence/UtsCsv.cs:14-27 | without line breaks in the class name, ids and names, no saved line holds one |
| UtsFile.UnsafeLine | UTS.Backend/Persistence/UtsCsv.cs:14-27 | with a line break in the class name, an id or a name, some saved line holds one |
| UtsFile.EncodeSingleLines | UTS.Backend/Persistence/UtsCsv.cs:14-27 | every saved line is free of line breaks exactly when the class name and all ids and names are |
| UtsFile.ReadBack | UTS.Backend/Persistence/UtsCsv.cs:14-32 | `File.ReadAllLines` of the saved text gives back exactly the saved lines if and only if no class name, id or name holds a line break |
| UtsFile.FileRoundTrip | UTS.Backend/Persistence/UtsCsv.cs:11-68 | loading the file saved for a valid document gives it back, when no class name, id or name holds a line break and `int.Parse` reads decimal numerals |
| UtsLoadProperties.SupplementaryTokenRejected | UTS.Backend/Persistence/UtsCsv.cs:60 | a one-character cell field outside the Basic Multilingual Plane (C# length 2) fails as an invalid cell token, not as an invalid cell |
| UtsLoadProperties.DecodeCellsRead | UTS.Backend/Persistence/UtsCsv.cs:58-62 | the cells are read exactly when every field is one valid symbol, each cell then being `FromChar` of its field |
| UtsLoadProperties.DecodeRecordRead | UTS.Backend/Persistence/UtsCsv.cs:57-62 | a line becomes a student exactly when its cell fields are single symbols; id, name and cells come from the fields |
| UtsLoadProperties.DecodeRowsRead | UTS.Backend/Persistence/UtsCsv.cs:51-64 | the rows are accepted iff every non-blank line parses to `2 + T` single-symbol cells; the students are then the non-blank lines in file order |
| UtsLoadProperties.DecodeAccepted | UTS.Backend/Persistence/UtsCsv.cs:33-66 | an accepted file has at least two lines, starts with `UTS,1`, has a header of `2 + T` fields and well-formed non-blank rows, yields those rows as students in order, and passes validation |
| UtsLoadProperties.BodyAccepted | UTS.Backend/Persistence/UtsCsv.cs:42-66 | from the parameters on, an accepted file has a header of `2 + T` fields, well-formed student lines read in file order, and passes validation |
| UtsLoadProperties.RowsAccepted | UTS.Backend/Persistence/UtsCsv.cs:51-64 | accepted student lines are the non-blank lines, each well-formed, read in file order |
| ViewModel.LeftClickTwice | UTS.WPF/MVVM/MainViewModel.cs:95 | two left clicks give back Absent, and send any other state to None, so None and Absent are restored |
| ViewModel.RightClickCycle | UTS.WPF/MVVM/MainViewModel.cs:101-105 | a right click moves None, Recommended and Graded on, and three right clicks bring each back |
| ViewModel.ClickFixedPoints | UTS.WPF/MVVM/MainViewModel.cs:101-108 | Absent is the only state a right click keeps; Locked becomes None; no click produces Locked |
| ViewModel.BelowEOf | UTS.WPF/MVVM/MainViewModel.cs:125-127 | at most one item per student |
| ViewModel.BelowIndices | UTS.WPF/MVVM/MainViewModel.cs:125 | positions of students, at most one per student |
| ViewModel.BelowIndicesExact | UTS.WPF/MVVM/MainViewModel.cs:125 | the positions increase, and a student is listed iff `GradedCount < E` |
| ViewModel.BelowEIsFilter | UTS.WPF/MVVM/MainViewModel.cs:125-127 | the k-th item of the panel is the k-th student below E, with its name and grade count |
| ViewModel.BelowEMissing | UTS.WPF/MVVM/MainViewModel.cs:127 | every item misses `E - GradedCount >= 1` grades |
| ViewModel.GlobalWarningTwice | UTS.WPF/MVVM/MainViewModel.cs:119-123 | after a regeneration of an infeasible document the global warning is shown twice in a row; otherwise the list is the column warnings alone |
| ViewModel.WarningsOf | UTS.WPF/MVVM/MainViewModel.cs:116-123 | the global warning iff `T*K < n*E`, then the engine's warnings in order |
| ViewModel.BelowEList | UTS.WPF/MVVM/MainViewModel.cs:125-127 | the panel items computed from the records are `BelowEOf` the grid |
| ViewModel.MainViewModel.constructor | UTS.WPF/MVVM/MainViewModel.cs:14-40 | no document, no warnings, an empty panel |
| ViewModel.MainViewModel.SetDocument | UTS.WPF/MVVM/MainViewModel.cs:17-29 | re-assigning the open document changes nothing; otherwise the document is installed and the panel shows it, and setting no document clears the warnings but keeps the "below E" list |
| ViewModel.MainViewModel.RecomputeDiagnostics | UTS.WPF/MVVM/MainViewModel.cs:112-128 | without a document the warnings are cleared and the panel is left as it was; otherwise both show the document's state and the grid is untouched |
| ViewModel.MainViewModel.HandleLeftClick | UTS.WPF/MVVM/MainViewModel.cs:93-97 | only the addressed cell changes, by `LeftClick`, and the panel is refreshed; an index outside the row fails with nothing changed; without a document the warnings are cleared and the "below E" list is kept |
| ViewModel.MainViewModel.HandleRightClick | UTS.WPF/MVVM/MainViewModel.cs:99-110 | only the addressed cell changes, by `RightClick`, and the panel is refreshed; an index outside the row fails with nothing changed; without a document the warnings are cleared and the "below E" list is kept |
| ViewModel.MainViewModel.GenerateColumn | UTS.WPF/MVVM/MainViewModel.cs:63-68 | without a document nothing happens; otherwise the engine's failure leaves grid and panel as they were, and success regenerates column `t` and shows the global warning followed by the engine's warnings |
| ViewModel.MainViewModel.Generate | UTS.WPF/MVVM/MainViewModel.cs:66-67 | the same for an open document, given its grid at the call |

## Left out

- Random and floating-point code. `ComputeWeight`, `NextDoubleOpen01` and the `-ln(u)/w` keys of `SampleByKeys` (UTS.Backend/Selection/SelectionEngine.cs:100-133) are not modelled. The choice is any subset of the right size, so the weighting bias is not modelled either. The `sinceLast` recency term (line 62) only feeds these weights.
- SelectionEngine.SampleByKeys: states only subset and size, not which members the weighted keys favour. The keys are random floating-point values.
- File I/O and encoding. `Save` returns its lines and `Load` takes lines. The text between them is modelled by `UtsFile.WrittenText` and `UtsFile.ReadAllLines`, for a terminator of `\r\n` or `\n`. Opening files and UTF-8 are left out. Strings are sequences of Unicode characters; where the code tests a C# length (the cell token, UtsCsv.cs:60) it is measured in UTF-16 code units by `UtsFormat.Utf16Length`.
- UtsRoundTrip.DecodeEncode: holds for the saved lines taken one by one. For the file it needs, in addition, class names, ids and names without `\r` or `\n`. `UtsFile.ReadBack` shows that any such break splits a saved line, and `UtsFile.FileRoundTrip` is the file-level round trip.
- `int.Parse` is the parameter `parseInt`. The round trip assumes it reads every decimal numeral as its value, and nothing else is assumed about it.
- Warning text. Warnings are a datatype of kinds that keeps the numbers and names each message shows.
- Null arguments other than the record's id and name. `Parse(null)`, `Get(null, ...)` and a null `engineWarnings` are out of scope. A null engine list behaves like an empty one.
- The five-argument constructor call at UTS.Backend/Persistence/UtsCsv.cs:57 matches no constructor of UTS.Backend/Domain/StudentRecord.cs. `Load` is modelled with the three-argument constructor (StudentRecord.cs:9), which takes no `K` or `E`.
- Documents.UtsDocument.Rows: documents are assumed to hold distinct cell arrays (`Wf`). C# lists may alias one record twice; `Load` always builds fresh records.
- Integer width of `2 + T` and the 32-bit range of `T`, `K`, `E`. They are unbounded integers, except the wrapped `T*K` and `n*E` products of the feasibility check.
- `INotifyPropertyChanged` and `DocumentChanged` events. They are UI notifications only.
- The WPF user interface. This covers the main window, converters, localization, app start-up, the about box and the class-creation dialog. It also covers the view model's commands, `OpenPath`, the `Save` command, `SaveAs`, `OpenInteractive` and `SwitchLanguage`. None of these are part of this model.
