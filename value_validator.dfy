/** The validator: admissibility of the uploaded file, the admitted
    number of rows, and the per-record checks of date range and sign. A
    failed guard is an error value; the per-record checks collect every
    error of every record. */
module ValueValidator {
  import opened Results
  import opened Calendar
  import opened Models

  /** A validator: its settings and January 1 of the earliest admitted
      year, UTC, in ticks. */
  datatype Validator = Validator(settings: FileValidationSettings, minAllowedDate: int)

  /** The validator the constructor builds from `settings`; `DateTime`
      admits years 1 to 9999 only, so for any other year there is none. */
  function NewValidator(settings: FileValidationSettings): (r: Option<Validator>)
    ensures r.Some? <==> 1 <= settings.minAllowedYear <= 9999
    ensures r.Some? ==> r.value.settings == settings && WellFormed(r.value)
  {
    if 1 <= settings.minAllowedYear <= 9999 then
      Some(Validator(settings, StartOfYear(settings.minAllowedYear)))
    else None
  }

  /** The bound on dates is January 1 of the settings' year. */
  predicate WellFormed(v: Validator) {
    1 <= v.settings.minAllowedYear <= 9999
    && v.minAllowedDate == StartOfYear(v.settings.minAllowedYear)
  }

  /** `ValidateFile`: the file must be present and not empty. */
  function ValidateFile(file: Option<UploadedFile>): (r: Option<PipelineError>)
    ensures r.Some? <==> file.None? || file.value.length == 0
    ensures r.Some? ==> r.value == PipelineError(None, FileMissingOrEmpty)
  {
    if file.None? || file.value.length == 0 then Some(PipelineError(None, FileMissingOrEmpty))
    else None
  }

  /** `ValidateRowCount`: the number of rows must lie within the admitted
      range, both ends included. */
  function ValidateRowCount(v: Validator, count: int): (r: Option<PipelineError>)
    ensures r.None? <==> v.settings.minRowCount <= count <= v.settings.maxRowCount
    ensures r.Some? ==> r.value == PipelineError(None, RowCountOutOfRange(
                          count, v.settings.minRowCount, v.settings.maxRowCount))
  {
    if count < v.settings.minRowCount || count > v.settings.maxRowCount then
      Some(PipelineError(None, RowCountOutOfRange(count, v.settings.minRowCount, v.settings.maxRowCount)))
    else None
  }

  // ---------------------------------------------------------------------
  // The per-record checks

  /** The date check: the date must lie between the bound and now, both
      included. */
  function DateError(v: Validator, lineNumber: int, date: int, now: int): Option<PipelineError> {
    if date < v.minAllowedDate || date > now then Some(PipelineError(Some(lineNumber), DateOutOfRange(date)))
    else None
  }

  /** The execution-time check: negative only where admitted. */
  function ExecutionTimeError(v: Validator, lineNumber: int, execTime: real): Option<PipelineError> {
    if !v.settings.allowNegativeExecutionTime && execTime < 0.0 then
      Some(PipelineError(Some(lineNumber), NegativeExecutionTime(execTime)))
    else None
  }

  /** The value check: negative only where admitted. */
  function ValueError(v: Validator, lineNumber: int, value: real): Option<PipelineError> {
    if !v.settings.allowNegativeValue && value < 0.0 then
      Some(PipelineError(Some(lineNumber), NegativeValue(value)))
    else None
  }

  /** The errors of one record: all three checks, in the order date,
      execution time, value. */
  function RecordErrors(v: Validator, lineNumber: int, date: int, execTime: real, value: real,
                        now: int): (es: seq<PipelineError>)
    ensures |es| <= 3
    ensures forall k :: 0 <= k < |es| ==> es[k].line == Some(lineNumber)
  {
    ToSeq(DateError(v, lineNumber, date, now))
    + ToSeq(ExecutionTimeError(v, lineNumber, execTime))
    + ToSeq(ValueError(v, lineNumber, value))
  }

  /** The errors of a record. */
  function ErrorsOf(v: Validator, r: ValueRecord, now: int): seq<PipelineError> {
    RecordErrors(v, r.lineNumber, r.date, r.executionTime, r.value, now)
  }

  /** The errors of all records, record after record. */
  function AllRecordErrors(v: Validator, values: seq<ValueRecord>, now: int): seq<PipelineError> {
    if values == [] then []
    else AllRecordErrors(v, values[..|values| - 1], now) + ErrorsOf(v, values[|values| - 1], now)
  }

  /** `ValidateRecord`: runs the three checks on one record and appends
      what fails to `errors`. */
  method ValidateRecord(v: Validator, errors: seq<PipelineError>, lineNumber: int, date: int,
                        execTime: real, value: real, now: int)
    returns (result: seq<PipelineError>)
    ensures result == errors + RecordErrors(v, lineNumber, date, execTime, value, now)
  {
    result := errors;
    if date < v.minAllowedDate || date > now {
      result := result + [PipelineError(Some(lineNumber), DateOutOfRange(date))];
    }
    if !v.settings.allowNegativeExecutionTime && execTime < 0.0 {
      result := result + [PipelineError(Some(lineNumber), NegativeExecutionTime(execTime))];
    }
    if !v.settings.allowNegativeValue && value < 0.0 {
      result := result + [PipelineError(Some(lineNumber), NegativeValue(value))];
    }
  }

  /** `ValidateValues`: checks every record, whatever the earlier ones
      gave, and returns all errors found. */
  method ValidateValues(v: Validator, values: seq<ValueRecord>, now: int)
    returns (allErrors: seq<PipelineError>)
    ensures allErrors == AllRecordErrors(v, values, now)
  {
    allErrors := [];
    for i := 0 to |values|
      invariant allErrors == AllRecordErrors(v, values[..i], now)
    {
      var record := values[i];
      assert values[..i + 1][..i] == values[..i];
      allErrors := ValidateRecord(v, allErrors, record.lineNumber, record.date,
                                  record.executionTime, record.value, now);
    }
    assert values[..|values|] == values;
  }

  // ---------------------------------------------------------------------
  // Properties

  /** A record is admitted when none of the three checks fails. */
  predicate RecordValid(v: Validator, r: ValueRecord, now: int) {
    && v.minAllowedDate <= r.date <= now
    && (v.settings.allowNegativeExecutionTime || r.executionTime >= 0.0)
    && (v.settings.allowNegativeValue || r.value >= 0.0)
  }

  /** Each check fails exactly under its condition: the date outside the
      closed range from the bound to now, a negative execution time where
      not admitted (zero is never an error), a negative value where not
      admitted; and the errors come in the order date, execution time,
      value. */
  lemma RecordErrorConditions(v: Validator, r: ValueRecord, now: int)
    ensures (exists k :: 0 <= k < |ErrorsOf(v, r, now)| && ErrorsOf(v, r, now)[k].kind.DateOutOfRange?)
            <==> r.date < v.minAllowedDate || r.date > now
    ensures (exists k :: 0 <= k < |ErrorsOf(v, r, now)| && ErrorsOf(v, r, now)[k].kind.NegativeExecutionTime?)
            <==> !v.settings.allowNegativeExecutionTime && r.executionTime < 0.0
    ensures (exists k :: 0 <= k < |ErrorsOf(v, r, now)| && ErrorsOf(v, r, now)[k].kind.NegativeValue?)
            <==> !v.settings.allowNegativeValue && r.value < 0.0
    ensures ErrorsOf(v, r, now) == [] <==> RecordValid(v, r, now)
    ensures forall k, m :: 0 <= k < m < |ErrorsOf(v, r, now)| ==>
              KindRank(ErrorsOf(v, r, now)[k].kind) < KindRank(ErrorsOf(v, r, now)[m].kind)
  {
    var es := ErrorsOf(v, r, now);
    var d := ToSeq(DateError(v, r.lineNumber, r.date, now));
    var x := ToSeq(ExecutionTimeError(v, r.lineNumber, r.executionTime));
    var w := ToSeq(ValueError(v, r.lineNumber, r.value));
    assert es == d + x + w;
    forall k | 0 <= k < |es|
      ensures (es[k].kind.DateOutOfRange? <==> k < |d|)
      ensures (es[k].kind.NegativeExecutionTime? <==> |d| <= k < |d| + |x|)
      ensures (es[k].kind.NegativeValue? <==> |d| + |x| <= k)
    {
      if k < |d| { assert es[k] == d[k]; }
      else if k < |d| + |x| { assert es[k] == x[k - |d|]; }
      else { assert es[k] == w[k - |d| - |x|]; }
    }
    if |d| > 0 { assert es[0] == d[0]; }
    if |x| > 0 { assert es[|d|] == x[0]; }
    if |w| > 0 { assert es[|d| + |x|] == w[0]; }
  }

  /** The position of a record error's kind in the order of the checks. */
  function KindRank(kind: ErrorKind): int {
    match kind
    case DateOutOfRange(_) => 0
    case NegativeExecutionTime(_) => 1
    case _ => 2
  }

  /** Checking a list in two parts gives the errors of the first part
      followed by those of the second: each record's errors stand
      together, in record order, and no record is skipped. */
  lemma {:induction false} ErrorsOfConcatenation(v: Validator, a: seq<ValueRecord>, b: seq<ValueRecord>, now: int)
    ensures AllRecordErrors(v, a + b, now) == AllRecordErrors(v, a, now) + AllRecordErrors(v, b, now)
    decreases |b|
  {
    if b == [] {
      assert a + b == a;
    } else {
      var init, last := b[..|b| - 1], b[|b| - 1];
      ErrorsOfConcatenation(v, a, init, now);
      assert AllRecordErrors(v, a + b, now)
             == AllRecordErrors(v, a + init, now) + ErrorsOf(v, last, now) by {
        assert (a + b)[..|a + b| - 1] == a + init;
        assert (a + b)[|a + b| - 1] == last;
      }
      AppendAssociates(AllRecordErrors(v, a, now), AllRecordErrors(v, init, now), ErrorsOf(v, last, now));
    }
  }

  lemma AppendAssociates<T>(x: seq<T>, y: seq<T>, z: seq<T>)
    ensures (x + y) + z == x + (y + z)
  {
  }

  /** A record yields no error exactly when it is admitted. */
  lemma NoRecordErrorsIffValid(v: Validator, r: ValueRecord, now: int)
    ensures ErrorsOf(v, r, now) == [] <==> RecordValid(v, r, now)
  {
    var d := ToSeq(DateError(v, r.lineNumber, r.date, now));
    var x := ToSeq(ExecutionTimeError(v, r.lineNumber, r.executionTime));
    var w := ToSeq(ValueError(v, r.lineNumber, r.value));
    assert |ErrorsOf(v, r, now)| == |d| + |x| + |w|;
  }

  /** No error at all exactly when every record is admitted. */
  lemma {:induction false} NoErrorsIffAllValid(v: Validator, values: seq<ValueRecord>, now: int)
    ensures AllRecordErrors(v, values, now) == []
            <==> forall k :: 0 <= k < |values| ==> RecordValid(v, values[k], now)
  {
    if values != [] {
      var init := values[..|values| - 1];
      var last := values[|values| - 1];
      NoErrorsIffAllValid(v, init, now);
      NoRecordErrorsIffValid(v, last, now);
      assert |AllRecordErrors(v, values, now)|
             == |AllRecordErrors(v, init, now)| + |ErrorsOf(v, last, now)|;
      assert forall k :: 0 <= k < |init| ==> values[k] == init[k];
    }
  }

  /** At most three errors per record, and every error carries the line
      number of a record of the list. */
  lemma {:induction false} ErrorsBoundedAndTagged(v: Validator, values: seq<ValueRecord>, now: int)
    ensures |AllRecordErrors(v, values, now)| <= 3 * |values|
    ensures forall k :: 0 <= k < |AllRecordErrors(v, values, now)| ==>
              exists j :: 0 <= j < |values|
                          && AllRecordErrors(v, values, now)[k].line == Some(values[j].lineNumber)
  {
    if values != [] {
      var init := values[..|values| - 1];
      var last := values[|values| - 1];
      ErrorsBoundedAndTagged(v, init, now);
      var prev := AllRecordErrors(v, init, now);
      var es := AllRecordErrors(v, values, now);
      forall k | 0 <= k < |es|
        ensures exists j :: 0 <= j < |values| && es[k].line == Some(values[j].lineNumber)
      {
        if k < |prev| {
          assert es[k] == prev[k];
          var j :| 0 <= j < |init| && prev[k].line == Some(init[j].lineNumber);
          assert values[j] == init[j];
        } else {
          assert es[k] == ErrorsOf(v, last, now)[k - |prev|];
          assert es[k].line == Some(values[|values| - 1].lineNumber);
        }
      }
    }
  }

  /** For a validator built from its settings, comparing a date with the
      bound is comparing years: a valid calendar time fails the lower
      bound exactly when its year is before the earliest admitted year. */
  lemma LowerBoundIsYear(v: Validator, t: CivilTime)
    requires WellFormed(v) && ValidTime(t)
    ensures Ticks(t) < v.minAllowedDate <==> t.year < v.settings.minAllowedYear
  {
    BeforeYearStart(t, v.settings.minAllowedYear);
  }

  /** The row-count cases of the validator's tests: with the default
      settings 0 and 10001 rows fail, 1 and 10000 pass. */
  lemma DefaultRowCountBounds(v: Validator)
    requires v.settings == DefaultSettings
    ensures ValidateRowCount(v, 0).Some? && ValidateRowCount(v, 10001).Some?
    ensures ValidateRowCount(v, 1).None? && ValidateRowCount(v, 10000).None?
  {
  }
}
