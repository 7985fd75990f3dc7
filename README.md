# Measurement file ingestion, modelled in Dafny

The Measurement Data API accepts an uploaded CSV file of timed
measurements. Each data line has the form `Date;ExecutionTime;Value`, and
the first line is a header. The API parses the lines, validates the
records and computes a per-file summary. It then hands the file name,
the records and the summary to the repository. The whole file is
rejected, with every error it contains, when any line fails.

The model covers the four services that do this work:

* **`CsvFileParser`** (`csv_file_parser.dfy`):
  * It skips the header and the blank lines, and splits each data line at
    its first two `;`.
  * It trims the three fields and reads the date in one of sixteen exact
    formats (`date_formats.dfy`, on the calendar in `calendar.dfy`).
  * It reads both numbers, and reports the first field that fails.
  * `ParseFile` is the loop over the lines. `ParseLines` is its
    specification: a fold over the lines that is generic in the per-line
    parser.
* **`ValueValidator`** (`value_validator.dfy`):
  * It checks that the file is present and non-empty, and that the row
    count is in range.
  * Per record, it checks that the date lies between the first instant of
    the minimum year and "now", and that the execution time and the value
    are not negative unless the settings allow it.
  * `ValidateValues` and `ValidateRecord` are the loop and the appending
    helper. They are proved equal to the fold `AllRecordErrors`.
* **`StatisticsCalculator`** (`statistics_calculator.dfy`):
  * It computes the earliest date, the span in seconds, the two averages,
    the median of the sorted values, the maximum and the minimum.
  * The one-pass loop `CalculateStatistics` is proved equal to the
    specification function `Statistics`. Its folds, the sort and the
    median are related to their meaning by lemmas.
* **`DataProcessingService.ProcessFile`** (`data_processing_service.dfy`):
  * It checks the file, then picks the first registered parser whose
    extensions contain the lower-cased extension of the file name.
  * It parses, validates, merges the parse and validation errors and
    orders them stably by line. Errors without a line go last.
  * On any error it fails with the merged list. Otherwise it checks the
    row count, computes the statistics, saves once and returns the number
    of records.
  * `Process` states the whole call as a function of its inputs: its
    outcome, the stages it ran and the save it made. The method
    `ProcessFile`, with `ValidateAndSave` for the steps after parsing, is
    proved against it, and the lemmas after it state what the call
    promises.

Shared modules:

* `results.dfy` holds `Option` and `ToSeq`, the list of zero or one element an option stands for.
* `text.dfy` holds the .NET character and string operations the services
  use: `char.IsWhiteSpace`, `Trim`, `IndexOf` and lower-casing.
* `models.dfy` holds the records, the settings and the structured error
  reports.

Errors are structured values: a `PipelineError` holds the line it is
about, if any, and an `ErrorKind`. The source instead writes a Russian
message, prefixed `Строка N:` when it is about a line.

## Model

| member | source | states |
|---|---|---|
| Text.SkipWhiteSpace | MeasurementDataApi/Services/Parsing/CsvFileParser.cs:76-78 | the scan stops at the first non-white-space character at or after `i`, and everything it skipped is white space |
| Text.SkipWhiteSpaceBack | MeasurementDataApi/Services/Parsing/CsvFileParser.cs:76-78 | the backward scan stops after the last non-white-space character before `j`, and everything it skipped is white space |
| Text.Trim | MeasurementDataApi/Services/Parsing/CsvFileParser.cs:76-78 | the trimmed field is a piece of the original that only white space surrounds, it neither starts nor ends with white space, and it is empty exactly when the original is blank |
| Text.TrimFixedPoint | MeasurementDataApi/Services/Parsing/CsvFileParser.cs:76-78 | trimming leaves a string unchanged exactly when its ends are not white space; trimming twice equals trimming once |
| Text.IndexFrom | MeasurementDataApi/Services/Parsing/CsvFileParser.cs:71 | the result is -1 or the first position at or after `i` holding `c`; no earlier position from `i` holds `c` |
| Text.IndexOf | MeasurementDataApi/Services/Parsing/CsvFileParser.cs:68 | the result is -1 exactly when `c` does not occur, and otherwise the position of its first occurrence |
| Text.ToLower | MeasurementDataApi/Services/DataProcessingService.cs:49 | the lower-cased string has the same length, and each character is lower-cased on its own |
| Calendar.DaysBeforeMonth | MeasurementDataApi/Services/Parsing/CsvFileParser.cs:132-135 | the days before a month of the year are never negative |
| Calendar.DaysBeforeNextYear | MeasurementDataApi/Services/Parsing/CsvFileParser.cs:132-135 | the day count of the next year starts where this year's days end |
| Calendar.YearOfMonths | MeasurementDataApi/Services/Parsing/CsvFileParser.cs:132-135 | the twelve months of a year add up to its length, 365 or 366 days |
| Calendar.MonthEndsInYear | MeasurementDataApi/Services/Parsing/CsvFileParser.cs:132-135 | every month ends within its year |
| Calendar.TicksWithinYear | MeasurementDataApi/Services/Parsing/CsvFileParser.cs:132-135 | the ticks of a valid instant lie between the start of its year and the start of the next |
| Calendar.StartOfYearMonotone | MeasurementDataApi/Services/Validation/ValueValidator.cs:18 | a later year starts no earlier |
| Calendar.BeforeYearStart | MeasurementDataApi/Services/Validation/ValueValidator.cs:18 | a valid instant lies before the start of a year exactly when its year is earlier |
| DateFormats.FractionLetters | MeasurementDataApi/Services/Parsing/CsvFileParser.cs:109-124 | the fraction letters of the patterns are one to seven `f`s |
| DateFormats.HyphenPatternsAsDeclared | MeasurementDataApi/Services/Parsing/CsvFileParser.cs:109-116 | the first eight formats, in order, render to the eight hyphen-separated format strings of the parser |
| DateFormats.ColonPatternsAsDeclared | MeasurementDataApi/Services/Parsing/CsvFileParser.cs:117-124 | the last eight formats, in order, render to the eight colon-separated format strings of the parser |
| DateFormats.DigitsValue | MeasurementDataApi/Services/Parsing/CsvFileParser.cs:132-135 | a run of `n` digits reads as a number below 10^n |
| DateFormats.Digits | MeasurementDataApi/Services/Parsing/CsvFileParser.cs:132-135 | a number written with a fixed width is that many digits |
| DateFormats.DigitsRoundTrip | MeasurementDataApi/Services/Parsing/CsvFileParser.cs:132-135 | writing a number that fits the width and reading it back gives the number |
| DateFormats.DigitsOfValue | MeasurementDataApi/Services/Parsing/CsvFileParser.cs:132-135 | reading a run of digits and writing the number back with the run's width gives the run itself, leading zeros included |
| DateFormats.MatchFormat | MeasurementDataApi/Services/Parsing/CsvFileParser.cs:132-135 | a literal one format accepts has that format's exact layout and denotes a valid calendar instant; with `ParseThenRender`, writing that instant back in the format gives the literal itself, so each format reads exactly the literals it writes |
| DateFormats.TryParseExact | MeasurementDataApi/Services/Parsing/CsvFileParser.cs:130-136 | parsing fails exactly when no format matches; otherwise the result is the first format's match in list order |
| DateFormats.ShapeDeterminesFormat | MeasurementDataApi/Services/Parsing/CsvFileParser.cs:107-125 | no literal has the layout of two different formats, so the order of the list never changes the result |
| DateFormats.AcceptedIffSomeFormatMatches | MeasurementDataApi/Services/Parsing/CsvFileParser.cs:130-136 | `TryParseDate` accepts a date exactly when one of the sixteen formats matches it, and it then returns that format's UTC instant in ticks |
| DateFormats.AcceptedLiteralLayout | MeasurementDataApi/Services/Parsing/CsvFileParser.cs:107-125 | an accepted literal is 20 to 28 characters long, never 21, with `-` at 4 and 7, `T` at 10, a final upper-case `Z` (the only designator the model accepts, see `DateFormats.MatchFormat` under Left out) and the same `-` or `:` at 13 and 16 |
| DateFormats.FractionDigits | MeasurementDataApi/Services/Parsing/CsvFileParser.cs:109-124 | the fraction of a second is written with exactly the format's number of digits |
| DateFormats.RenderLayout | MeasurementDataApi/Services/Parsing/CsvFileParser.cs:107-125 | rendering a valid instant in a format lays out each field at that format's positions |
| DateFormats.FractionRoundTrip | MeasurementDataApi/Services/Parsing/CsvFileParser.cs:109-124 | a fraction that the digit count can represent reads back unchanged |
| DateFormats.LaidOutShape | MeasurementDataApi/Services/Parsing/CsvFileParser.cs:107-125 | a rendered literal has the shape its format demands |
| DateFormats.LaidOutDateFields | MeasurementDataApi/Services/Parsing/CsvFileParser.cs:132-135 | year, month and day read back from a rendered literal |
| DateFormats.LaidOutTimeFields | MeasurementDataApi/Services/Parsing/CsvFileParser.cs:132-135 | hour, minute and second read back from a rendered literal |
| DateFormats.LaidOutFraction | MeasurementDataApi/Services/Parsing/CsvFileParser.cs:132-135 | the fraction reads back from a rendered literal |
| DateFormats.LaidOutFields | MeasurementDataApi/Services/Parsing/CsvFileParser.cs:132-135 | every field of the instant reads back from its rendering |
| DateFormats.RenderThenParse | MeasurementDataApi/Services/Parsing/CsvFileParser.cs:130-136 | rendering any valid instant in any of the sixteen formats and parsing the result gives that instant's ticks back |
| DateFormats.ShapedDateDigits | MeasurementDataApi/Services/Parsing/CsvFileParser.cs:132-135 | in a literal of a format's shape, the year, month and day digits are those of the fields read from them |
| DateFormats.ShapedTimeDigits | MeasurementDataApi/Services/Parsing/CsvFileParser.cs:132-135 | in a literal of a format's shape, the hour, minute and second digits are those of the fields read from them |
| DateFormats.ShapedFractionDigits | MeasurementDataApi/Services/Parsing/CsvFileParser.cs:109-124 | in a literal with fraction digits, those digits are the fraction read from them, written back with the same count |
| DateFormats.MatchedLiteralLaidOut | MeasurementDataApi/Services/Parsing/CsvFileParser.cs:130-136 | a literal a format accepts is laid out, field by field, as that format writes the instant it denotes |
| DateFormats.LaidOutUnique | MeasurementDataApi/Services/Parsing/CsvFileParser.cs:107-125 | a format lays out an instant in only one way: two literals with the same layout of the same instant are equal |
| DateFormats.ParseThenRender | MeasurementDataApi/Services/Parsing/CsvFileParser.cs:130-136 | the instant a format reads from a literal, written back in that format, is the literal: the inverse of `RenderThenParse` |
| CsvFileParser.ParseFields | MeasurementDataApi/Services/Parsing/CsvFileParser.cs:80-104 | a line's fields make a record exactly when the date and both numbers parse; the record holds exactly those values, the file name and the line number; a failure names the line |
| CsvFileParser.ParseLine | MeasurementDataApi/Services/Parsing/CsvFileParser.cs:63-105 | a record carries the line number and the file name it was given; an error names that line |
| CsvFileParser.ParseFile | MeasurementDataApi/Services/Parsing/CsvFileParser.cs:21-57 | the loop returns the records and errors of `ParseLines` (lines 30-35 read the header, then `ParseDataLines` folds over the rest); with no header, or a blank one, the result is no records and the single empty-file error |
| CsvFileParser.CountOfZero | MeasurementDataApi/Services/Parsing/CsvFileParser.cs:68-69 | the count of `;` is zero exactly when the line has no `;` |
| CsvFileParser.CountOfAppend | MeasurementDataApi/Services/Parsing/CsvFileParser.cs:68-73 | the separators of two joined pieces add up |
| CsvFileParser.CountAfterFirst | MeasurementDataApi/Services/Parsing/CsvFileParser.cs:71-73 | after the first separator, the rest of the line holds one separator fewer |
| CsvFileParser.SeparatorCount | MeasurementDataApi/Services/Parsing/CsvFileParser.cs:68-73 | the split reports no separator, no second separator or three fields exactly when the line holds zero, one, or two or more `;` |
| CsvFileParser.SeparatorErrors | MeasurementDataApi/Services/Parsing/CsvFileParser.cs:63-78 | a line with no `;` fails with the missing-separator error, one with a single `;` with the missing-second-separator error, and otherwise its three trimmed fields are parsed |
| CsvFileParser.SplitAtFirstTwo | MeasurementDataApi/Services/Parsing/CsvFileParser.cs:68-78 | a line made of two `;`-free fields and a rest splits into exactly those pieces, whatever `;` the rest holds |
| CsvFileParser.SplitFieldsComeFromLine | MeasurementDataApi/Services/Parsing/CsvFileParser.cs:68-78 | split fields rejoin with `;` into the original line, and the first two hold no `;` |
| CsvFileParser.SplitLineFields | MeasurementDataApi/Services/Parsing/CsvFileParser.cs:68-78 | `SplitLine` splits a line into three given fields exactly when it is them joined by `;` and the first two have no `;` |
| CsvFileParser.LaterFieldsNotExamined | MeasurementDataApi/Services/Parsing/CsvFileParser.cs:80-95 | the date is checked first and the execution time second; the first field that fails decides the error, whatever the later fields hold |
| CsvFileParser.ParseLineTagsLines | MeasurementDataApi/Services/Parsing/CsvFileParser.cs:63-105 | the CSV line parser tags each record and each error with the line number it was given |
| CsvFileParser.OneOutputPerNonBlankLine | MeasurementDataApi/Services/Parsing/CsvFileParser.cs:40-54 | in `ParseDataLines`, the fold over the data lines, each non-blank data line yields exactly one record or one error, and blank lines yield nothing |
| CsvFileParser.RecordsComeFromTheirLines | MeasurementDataApi/Services/Parsing/CsvFileParser.cs:37-54 | every record is what its own non-blank data line parses to, under its 1-based file line number, and records keep file order |
| CsvFileParser.ErrorsComeFromTheirLines | MeasurementDataApi/Services/Parsing/CsvFileParser.cs:37-54 | every error is what its own non-blank data line fails with, and errors keep file order |
| CsvFileParser.EveryNonBlankLineReported | MeasurementDataApi/Services/Parsing/CsvFileParser.cs:40-54 | every non-blank data line shows up as a record or an error with its file line number |
| CsvFileParser.WellFormedLine | MeasurementDataApi/Services/Parsing/CsvFileParser.cs:63-105 | a line of three trimmed, parsable fields joined by `;` parses to the record of those values |
| CsvFileParser.ShortLiteralRejected | MeasurementDataApi/Services/Parsing/CsvFileParser.cs:130-136 | a date literal shorter than 20 characters (for example `bad_date`) is rejected |
| CsvFileParser.AllLinesParsed | MeasurementDataApi.Tests/CsvFileParserTests.cs:21-38 | when every data line parses, there are no errors and one record per line, in order |
| CsvFileParser.HeaderIgnored | MeasurementDataApi.Tests/CsvFileParserTests.cs:62-78 | the header's content does not matter as long as it is not blank |
| ValueValidator.NewValidator | MeasurementDataApi/Services/Validation/ValueValidator.cs:15-19 | a validator exists exactly when the minimum year is a valid `DateTime` year, and it then keeps the settings and starts the admitted range at the first instant of that year |
| ValueValidator.ValidateFile | MeasurementDataApi/Services/Validation/ValueValidator.cs:22-28 | the file check fails exactly for a missing or zero-length file, with the line-less missing-or-empty error |
| ValueValidator.ValidateRowCount | MeasurementDataApi/Services/Validation/ValueValidator.cs:31-38 | the row count passes exactly when it lies between the minimum and the maximum, both included; otherwise the error quotes the count and both bounds |
| ValueValidator.RecordErrors | MeasurementDataApi/Services/Validation/ValueValidator.cs:53-69 | a record yields at most three errors, each naming the record's line |
| ValueValidator.ValidateRecord | MeasurementDataApi/Services/Validation/ValueValidator.cs:53-69 | the errors list grows by exactly the record's errors, keeping what it held |
| ValueValidator.ValidateValues | MeasurementDataApi/Services/Validation/ValueValidator.cs:41-51 | the loop returns `AllRecordErrors`, the record errors of all records, in record order |
| ValueValidator.RecordErrorConditions | MeasurementDataApi/Services/Validation/ValueValidator.cs:53-69 | each error kind appears exactly when its condition holds (`DateError`: date outside [start of min year, now]; `ExecutionTimeError`: a forbidden negative time; `ValueError`: a forbidden negative value); no errors exactly when the record is valid; the kinds come in that order |
| ValueValidator.NoRecordErrorsIffValid | MeasurementDataApi/Services/Validation/ValueValidator.cs:53-69 | a record yields no error exactly when its date is in range and no forbidden negative time or value occurs |
| ValueValidator.ErrorsOfConcatenation | MeasurementDataApi/Services/Validation/ValueValidator.cs:41-51 | the errors of two runs of records are the errors of each, concatenated |
| ValueValidator.NoErrorsIffAllValid | MeasurementDataApi/Services/Validation/ValueValidator.cs:41-51 | validation returns no errors exactly when every record is valid |
| ValueValidator.ErrorsBoundedAndTagged | MeasurementDataApi/Services/Validation/ValueValidator.cs:41-69 | there are at most three errors per record, and each names the line of some record |
| ValueValidator.LowerBoundIsYear | MeasurementDataApi/Services/Validation/ValueValidator.cs:18 | a valid instant is before the admitted start exactly when its year is before the minimum year |
| ValueValidator.DefaultRowCountBounds | MeasurementDataApi/Models/FileValidationSettings.cs:21-26 | with the default settings 0 and 10001 rows fail and 1 and 10000 rows pass |
| StatisticsCalculator.Values | MeasurementDataApi/Services/Statistics/StatisticsCalculator.cs:36 | the projected values are the records' values, in order |
| StatisticsCalculator.Insert | MeasurementDataApi/Services/Statistics/StatisticsCalculator.cs:36 | inserting adds one element |
| StatisticsCalculator.SortAscending | MeasurementDataApi/Services/Statistics/StatisticsCalculator.cs:36 | sorting keeps the length |
| StatisticsCalculator.Mean | MeasurementDataApi/Services/Statistics/StatisticsCalculator.cs:53-54 | the average times the count is the sum |
| StatisticsCalculator.Statistics | MeasurementDataApi/Services/Statistics/StatisticsCalculator.cs:11-59 | the summary carries the file name it was given |
| StatisticsCalculator.CalculateStatistics | MeasurementDataApi/Services/Statistics/StatisticsCalculator.cs:11-59 | the one-pass loop and the sort compute exactly the summary `Statistics` specifies |
| StatisticsCalculator.SumStep | MeasurementDataApi/Services/Statistics/StatisticsCalculator.cs:28-29 | each record adds its execution time and its value to the running sums `SumExecutionTime` and `SumValue` |
| StatisticsCalculator.ExtremesStep | MeasurementDataApi/Services/Statistics/StatisticsCalculator.cs:16-32 | the extremes start at the first record and change only when a record is strictly beyond them |
| StatisticsCalculator.InsertKeepsOrder | MeasurementDataApi/Services/Statistics/StatisticsCalculator.cs:36 | inserting into an ascending sequence keeps it ascending |
| StatisticsCalculator.InsertAddsOne | MeasurementDataApi/Services/Statistics/StatisticsCalculator.cs:36 | inserting adds exactly the inserted value to the multiset |
| StatisticsCalculator.SortIsAscendingPermutation | MeasurementDataApi/Services/Statistics/StatisticsCalculator.cs:36 | the sorted values are ascending and a permutation of the input |
| StatisticsCalculator.AscendingPermutationUnique | MeasurementDataApi/Services/Statistics/StatisticsCalculator.cs:36 | two ascending permutations of the same values are equal, so the median does not depend on how the sort is done |
| StatisticsCalculator.MiddleSplitsHalves | MeasurementDataApi/Services/Statistics/StatisticsCalculator.cs:37-46 | `Median` (by way of `Middle`) lies between the two middle elements; the lower half is no greater and the upper half no smaller |
| StatisticsCalculator.DateExtremes | MeasurementDataApi/Services/Statistics/StatisticsCalculator.cs:16-26 | the folds `MinDate` and `MaxDate` give dates of some record that bound every record's date |
| StatisticsCalculator.ValueExtremes | MeasurementDataApi/Services/Statistics/StatisticsCalculator.cs:20-32 | the folds `MinValue` and `MaxValue` give values of some record that bound every record's value |
| StatisticsCalculator.SortedValuesBetweenExtremes | MeasurementDataApi/Services/Statistics/StatisticsCalculator.cs:36 | every sorted value lies between the minimum and the maximum |
| StatisticsCalculator.MedianBetweenExtremes | MeasurementDataApi/Services/Statistics/StatisticsCalculator.cs:36-46 | the median lies between the minimum and the maximum |
| StatisticsCalculator.EarliestDateAndSpan | MeasurementDataApi/Services/Statistics/StatisticsCalculator.cs:48-52 | `MinDate` is some record's date and no later than any; `TimeDelta` times 10^7 is the ticks from `MinDate` to the latest record's date, so `Seconds` computes `(maxDate - minDate).TotalSeconds`; the span is non-negative and is zero exactly when all dates are equal |
| StatisticsCalculator.ValueStatistics | MeasurementDataApi/Services/Statistics/StatisticsCalculator.cs:48-58 | the summary's minimum and maximum are attained and bound every value, and the median lies between them |
| StatisticsCalculator.StatisticsOfNothing | MeasurementDataApi/Services/Statistics/StatisticsCalculator.cs:13 | no records give the default summary that holds only the file name |
| StatisticsCalculator.StatisticsOfOne | MeasurementDataApi.Tests/StatisticsCalculatorTests.cs:30-51 | for one record, the minimum, maximum, average and median are its value, the average execution time is its time, the span is 0 and `MinDate` is its date |
| StatisticsCalculator.TimeSpanOfTwo | MeasurementDataApi.Tests/StatisticsCalculatorTests.cs:96-115 | two records 100 seconds apart have a span of 100 seconds and the earlier date as `MinDate` |
| StatisticsCalculator.SortThree | MeasurementDataApi/Services/Statistics/StatisticsCalculator.cs:36 | three values with the middle one last sort into order |
| StatisticsCalculator.SortFour | MeasurementDataApi/Services/Statistics/StatisticsCalculator.cs:36 | four values with the largest second sort into order |
| StatisticsCalculator.OddCountMedian | MeasurementDataApi.Tests/StatisticsCalculatorTests.cs:53-73 | values 10, 30, 20 give median 20, maximum 30, minimum 10 and average 20 |
| StatisticsCalculator.EvenCountMedian | MeasurementDataApi.Tests/StatisticsCalculatorTests.cs:75-94 | values 10, 40, 20, 30 give median 25 and average 25 |
| DataProcessingService.LastDotFrom | MeasurementDataApi/Services/DataProcessingService.cs:49 | the result is the last `.` before `i` with no `/` after it, or -1 when every `.` before `i` is followed by a `/` |
| DataProcessingService.Extension | MeasurementDataApi/Services/DataProcessingService.cs:49 | the extension is empty, or a suffix of the name that starts with its only `.`, holds no `/` and has at least one character after the dot |
| DataProcessingService.LastDotIs | MeasurementDataApi/Services/DataProcessingService.cs:49 | the last-dot search finds a given `.` when nothing after it is a `.` or a `/` |
| DataProcessingService.ExtensionOfName | MeasurementDataApi/Services/DataProcessingService.cs:49 | the extension of `stem.ext` is `.ext`, when `ext` is non-empty and holds no `.` or `/` |
| DataProcessingService.NoDotNoExtension | MeasurementDataApi/Services/DataProcessingService.cs:49 | a name without a `.` has an empty extension |
| DataProcessingService.FindParser | MeasurementDataApi/Services/DataProcessingService.cs:50 | the index found is that of a registered parser |
| DataProcessingService.FindParserFindsFirst | MeasurementDataApi/Services/DataProcessingService.cs:50 | `FindParser` finds the first registered parser that supports the extension; none is found exactly when no parser supports it |
| DataProcessingService.InsertByKey | MeasurementDataApi/Services/DataProcessingService.cs:74-79 | inserting an error adds one element |
| DataProcessingService.SortByKey | MeasurementDataApi/Services/DataProcessingService.cs:74-79 | ordering keeps the number of errors |
| DataProcessingService.WithKeyAppend | MeasurementDataApi/Services/DataProcessingService.cs:74-79 | the errors with a given key in two joined lists are those of each list, joined |
| DataProcessingService.WithKeyAbove | MeasurementDataApi/Services/DataProcessingService.cs:74-79 | a list whose keys all exceed `k` holds no error with key `k` |
| DataProcessingService.InsertByKeyKeepsOrder | MeasurementDataApi/Services/DataProcessingService.cs:74-79 | inserting into a list ordered by line keeps it ordered |
| DataProcessingService.InsertByKeyIsStable | MeasurementDataApi/Services/DataProcessingService.cs:74-79 | inserting an error puts it after every error with the same key |
| DataProcessingService.InsertFirstIsStable | MeasurementDataApi/Services/DataProcessingService.cs:74-79 | an error put in front of a list whose keys are all greater comes after the errors of its own key, of which there are none |
| DataProcessingService.OrderedTail | MeasurementDataApi/Services/DataProcessingService.cs:74-79 | the rest of a list ordered by line is ordered by line |
| DataProcessingService.WithKeyCons | MeasurementDataApi/Services/DataProcessingService.cs:74-79 | the errors with a given key of a list with one more error in front are that error, if it has the key, followed by those of the list |
| DataProcessingService.InsertByKeyAddsOne | MeasurementDataApi/Services/DataProcessingService.cs:74-79 | inserting adds exactly that error to the multiset |
| DataProcessingService.SortByKeyIsStableSort | MeasurementDataApi/Services/DataProcessingService.cs:74-79 | ordering by line is ordered, a permutation, and keeps the original order of errors with equal keys |
| DataProcessingService.SortByKeyOrders | MeasurementDataApi/Services/DataProcessingService.cs:74-79 | the errors ordered by line ascend by key |
| DataProcessingService.SortByKeyPermutes | MeasurementDataApi/Services/DataProcessingService.cs:74-79 | ordering by line keeps every error exactly as often as it occurs |
| DataProcessingService.SortByKeyKeepsKeyOrder | MeasurementDataApi/Services/DataProcessingService.cs:74-79 | ordering by line keeps the errors of each key in their original order |
| DataProcessingService.InsertLastIsStable | MeasurementDataApi/Services/DataProcessingService.cs:74-79 | one insertion step of the sort keeps the errors of each key in input order, the new error last |
| DataProcessingService.MergedErrorsOrderedAndStable | MeasurementDataApi/Services/DataProcessingService.cs:74-79 | `MergeErrors` gives exactly the parse and validation errors, ordered by line; within one line, parse errors come before validation errors, each in their original order |
| DataProcessingService.LineLessErrorsLast | MeasurementDataApi/Services/DataProcessingService.cs:75-77 | errors without a line come after all errors with a line, and the lines ascend |
| DataProcessingService.DataRepository.constructor | MeasurementDataApi/Repositories/IDataRepository.cs:18 | a fresh repository has recorded no saves |
| DataProcessingService.DataRepository.SaveData | MeasurementDataApi/Repositories/IDataRepository.cs:18 | a save appends exactly one entry with the file name, the records and the summary |
| DataProcessingService.NextStage | MeasurementDataApi/Services/DataProcessingService.cs:37-112 | running the next stage of the fixed order extends the stages run so far by that stage |
| DataProcessingService.ProcessFile | MeasurementDataApi/Services/DataProcessingService.cs:37-112 | the method returns the outcome of `Process` (the function `Process`, with `ProcessParsed` for the part after parsing and `UnsupportedFormatError` for line 52-55), records one stage per step it ran, in order, and appends to the repository exactly the save `Process` makes, if any (`ToSeq` of it, line 102) |
| DataProcessingService.ValidateAndSave | MeasurementDataApi/Services/DataProcessingService.cs:58-111 | after parsing, the method returns the outcome of `ProcessParsed`, adds the validation, merge (`MergeErrors`), row-count, statistics and save stages it ran to the three run before, and appends exactly the save `ProcessParsed` makes |
| DataProcessingService.StagesRunInOrder | MeasurementDataApi/Services/DataProcessingService.cs:37-112 | the stages run form a prefix of the fixed order, starting with the file check; a save happens, and a count is returned, exactly when every stage ran |
| DataProcessingService.ParsedStagesRunInOrder | MeasurementDataApi/Services/DataProcessingService.cs:58-111 | after parsing, at least the validation and merge stages run, in order, and a save happens exactly when all stages ran |
| DataProcessingService.MergedEmptyIffClean | MeasurementDataApi/Services/DataProcessingService.cs:74-82 | the merged error list is empty exactly when there are no parse errors and every parsed record is valid |
| DataProcessingService.ErrorsAbortBeforeSave | MeasurementDataApi/Services/DataProcessingService.cs:82-89 | any error fails the call with exactly the merged list; the row count, the statistics and the save do not run |
| DataProcessingService.RowCountOnlyWhenClean | MeasurementDataApi/Services/DataProcessingService.cs:82-92 | the row count is checked exactly when the merged list is empty; a count outside the range fails the call with that single error and nothing is saved |
| DataProcessingService.AcceptedIffClean | MeasurementDataApi/Services/DataProcessingService.cs:82-111 | the call succeeds exactly when there are no parse errors, every record is valid and the count is in range; it then returns the count and saves the file name, the records and their statistics |
| DataProcessingService.MissingFileRejected | MeasurementDataApi/Services/DataProcessingService.cs:43 | a missing or empty file fails with the missing-or-empty error, and only the file check runs |
| DataProcessingService.UnsupportedExtensionRejected | MeasurementDataApi/Services/DataProcessingService.cs:49-55 | when no parser supports the lower-cased extension, the call fails with one line-less error naming it, and nothing is parsed |
| DataProcessingService.CsvFilesGoToCsvParser | MeasurementDataApi/Services/DataProcessingService.cs:49-58 | with the CSV parser registered first, a file `stem.ext` whose extension lower-cases to `.csv` (`.csv`, `.CSV`, …) is parsed by the CSV parser |
| DataProcessingService.OtherExtensionsRejected | MeasurementDataApi.Tests/DataProcessingServiceTests.cs:76-86 | with only the CSV parser, a file `stem.ext` whose extension does not lower-case to `.csv` fails with the unsupported-format error for that extension, and nothing is parsed |

## Left out

- I/O: the uploaded file is given as its lines, that is, the successive `ReadLine` results of its stream. Stream handling, encodings and line-ending detection are not modelled.
- `async`/`await`, logging and the `Stopwatch` timings are not modelled; they do not affect the results.
- Floating point: `double` values are modelled as mathematical reals. Rounding in the sums, the averages, the median and `TotalSeconds`, and NaN and infinity, are not modelled.
- `double.TryParse` with `NumberStyles.Any` and the invariant culture is a parameter of the parser (`NumberParser`, a function from the trimmed field to an optional real). Its grammar is not modelled.
- `DateTime.UtcNow` is a parameter `now` in ticks. One call reads it once; the source reads the clock again for each record.
- `DateTime` is modelled as ticks (100 ns units since 0001-01-01), together with calendar validity for years 1 to 9999. The local-time conversion of `ToUniversalTime` is the identity here, because every literal the model accepts ends in `Z` and is read as UTC (the lower-case `z` and `GMT` that .NET also reads as UTC are left out, see `DateFormats.MatchFormat` below).
- Error messages are structured (`PipelineError`), not Russian strings. The merge key is the structured line, not the `Строка (\d+):` regular expression. A line-less error takes the key `int.MaxValue` as in the source.
- DataProcessingService.LineLessErrorsLast: requires every line number to be below `int.MaxValue`. A line number equal to it would sort among the line-less errors; files that long are not modelled.
- `Path.GetExtension` is modelled for `/` as the only directory separator, the Unix behaviour. The Windows separators `\` and `:` are not modelled.
- `ToLower` is modelled on ASCII letters only; culture-specific case mappings are not.
- The repository is a log of save calls. Its database transaction, its other queries and `GetResultsAsync` are not modelled.
- Exceptions thrown by the validator and the service are modelled as `Rejected` outcomes carrying their error lists. The controller that turns them into HTTP responses is not part of this model.
- The parsers are a registry of values (supported extensions and a parse function). The validator and the calculator are the concrete modules, not interchangeable implementations. The service tests' mocks therefore appear only as the generic lemmas `ErrorsAbortBeforeSave`, `AcceptedIffClean` and `OtherExtensionsRejected`.
- DateFormats.MatchFormat: .NET reads the `Z` of the format strings as a time-zone name, which matches `Z` or `GMT` ignoring case. The model accepts only an upper-case `Z`, so it rejects literals ending in `z`, `GMT`, `gmt` and the like, 22 to 30 characters long for `GMT`, that `TryParseExact` accepts as UTC. `AcceptedLiteralLayout` and `ParseThenRender` are about the `Z` literals only.
- ValueValidator.NewValidator: `new DateTime(year, 1, 1)` throws for a year outside 1 to 9999; the model returns no validator instead of an exception.
- The test data files (`valid_data.csv`, `invalid_data.csv`, `bad_header.csv`) are not part of this model. Their cases appear as the generic lemmas `AllLinesParsed`, `LaterFieldsNotExamined` and `HeaderIgnored`.
- StatisticsCalculator.Statistics: its own contract states only the file name. The meaning of each field is stated by lemmas: `MinDate` and `TimeDelta` by `EarliestDateAndSpan`, the minimum, maximum and median by `ValueStatistics` and `MedianBetweenExtremes`, and the averages by `Mean`.
- StatisticsCalculator.SortAscending: `OrderBy` is modelled as an insertion sort. `AscendingPermutationUnique` shows that any correct sort gives the same sequence.
