/** The values that flow through the ingestion pipeline: the uploaded
    file, a parsed measurement, the per-file summary and the errors the
    stages report. */
module Models {
  import opened Results

  /** The uploaded file as the pipeline sees it: its name, its declared
      length in bytes and its text split into lines. */
  datatype UploadedFile = UploadedFile(fileName: string, length: int, lines: seq<string>)

  /** One parsed data line. `date` is a UTC instant in ticks; `lineNumber`
      is the 1-based source line, the header being line 1. */
  datatype ValueRecord = ValueRecord(fileName: string, date: int, executionTime: real,
                                     value: real, lineNumber: int)

  /** The summary of one file. `timeDelta` is in seconds, `minDate` in
      ticks. */
  datatype ResultRecord = ResultRecord(fileName: string, timeDelta: real, minDate: int,
                                       avgExecutionTime: real, avgValue: real,
                                       medianValue: real, maxValue: real, minValue: real)

  /** The validation settings: the earliest admitted year, the admitted
      range of data rows (both ends included) and whether negative
      execution times and values are admitted. */
  datatype FileValidationSettings = FileValidationSettings(
    minAllowedYear: int, minRowCount: int, maxRowCount: int,
    allowNegativeExecutionTime: bool, allowNegativeValue: bool)

  /** The settings a fresh `FileValidationSettings` holds. */
  const DefaultSettings := FileValidationSettings(2000, 1, 10000, false, false)

  /** What went wrong, with the offending literal or value where the
      message quotes one. */
  datatype ErrorKind =
    | EmptyFile                                 // no header line
    | MissingSeparator                          // no ';' on the line
    | MissingSecondSeparator                    // only one ';' on the line
    | BadDate(dateLiteral: string)
    | BadExecutionTime(executionTimeLiteral: string)
    | BadValue(valueLiteral: string)
    | DateOutOfRange(date: int)
    | NegativeExecutionTime(executionTime: real)
    | NegativeValue(value: real)
    | FileMissingOrEmpty
    | UnsupportedFormat(extension: string)
    | RowCountOutOfRange(count: int, minRowCount: int, maxRowCount: int)

  /** An error report: the source line it is about, if any, and what
      went wrong. */
  datatype PipelineError = PipelineError(line: Option<int>, kind: ErrorKind)
}
