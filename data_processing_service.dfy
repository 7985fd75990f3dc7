/** The orchestrator: it checks the uploaded file, picks a parser by the
    file's extension, parses, validates the parsed records, merges and
    orders all errors by line, and either fails with them or checks the
    row count, computes the statistics and saves everything once. */
module DataProcessingService {
  import opened Results
  import opened Text
  import opened Models
  import CsvFileParser
  import ValueValidator
  import StatisticsCalculator

  // ---------------------------------------------------------------------
  // The file extension

  /** The position of the last '.' of `path[..i]` that no '/' follows, or
      -1 when there is none: every '.' before `i` then has a '/' after
      it. */
  function LastDotFrom(path: string, i: nat): (r: int)
    requires i <= |path|
    ensures -1 <= r < i
    ensures 0 <= r ==> path[r] == '.'
    ensures 0 <= r ==> forall k :: r < k < i ==> path[k] != '.' && path[k] != '/'
    ensures r < 0 ==> forall k :: 0 <= k < i && path[k] == '.' ==>
                        exists m :: k < m < i && path[m] == '/'
    decreases i
  {
    if i == 0 then -1
    else if path[i - 1] == '.' then i - 1
    else if path[i - 1] == '/' then -1
    else LastDotFrom(path, i - 1)
  }

  /** `Path.GetExtension`: from the last '.' of the file name (the part
      after the last '/') to the end, or empty when there is no such '.' or
      it is the last character. A non-empty extension is a suffix of the
      path made of a '.' and at least one more character, none of them a
      '.' or a '/'. */
  function Extension(path: string): (r: string)
    ensures |r| <= |path|
    ensures r == [] || (|r| >= 2 && r[0] == '.' && r == path[|path| - |r|..])
    ensures forall k :: 1 <= k < |r| ==> r[k] != '.' && r[k] != '/'
  {
    var dot := LastDotFrom(path, |path|);
    if dot < 0 || dot == |path| - 1 then [] else path[dot..]
  }

  /** A '.' that neither a '.' nor a '/' follows is the last one. */
  lemma {:induction false} LastDotIs(path: string, j: nat, i: nat)
    requires j < i <= |path| && path[j] == '.'
    requires forall k :: j < k < i ==> path[k] != '.' && path[k] != '/'
    ensures LastDotFrom(path, i) == j
    decreases i
  {
    if i - 1 != j {
      LastDotIs(path, j, i - 1);
    }
  }

  /** The extension of a name `stem.ext`, where `ext` is not empty and has
      no '.' and no '/', is `.ext`, whatever the stem. */
  lemma ExtensionOfName(stem: string, ext: string)
    requires ext != []
    requires forall k :: 0 <= k < |ext| ==> ext[k] != '.' && ext[k] != '/'
    ensures Extension(stem + "." + ext) == "." + ext
  {
    var path := stem + "." + ext;
    assert path[|stem|] == '.';
    assert forall k :: |stem| < k < |path| ==> path[k] == ext[k - |stem| - 1];
    LastDotIs(path, |stem|, |path|);
    assert path[|stem|..] == "." + ext;
  }

  /** A name with no '.' after its last '/' has no extension. */
  lemma NoDotNoExtension(path: string)
    requires forall k :: 0 <= k < |path| ==> path[k] != '.'
    ensures Extension(path) == []
  {
  }

  // ---------------------------------------------------------------------
  // Parsers

  /** A registered parser: the extensions it accepts and what it makes of
      the lines of a file with a given name. */
  datatype FileParser = FileParser(supportedExtensions: seq<string>,
                                   parse: (seq<string>, string) -> CsvFileParser.ParseOutput)

  /** The CSV parser, with the number reading it uses. */
  function CsvParser(parseNumber: CsvFileParser.NumberParser): FileParser {
    FileParser(CsvFileParser.SupportedExtensions,
               (lines, fileName) => CsvFileParser.ParseLines(lines, fileName, parseNumber))
  }

  /** `FirstOrDefault`: the index of the first parser that accepts
      `extension`, or none when no parser does. */
  function FindParser(parsers: seq<FileParser>, extension: string): (r: Option<nat>)
    ensures r.Some? ==> r.value < |parsers|
  {
    if parsers == [] then None
    else if extension in parsers[0].supportedExtensions then Some(0)
    else
      match FindParser(parsers[1..], extension)
      case None => None
      case Some(i) => Some(i + 1)
  }

  /** The parser found is the first registered one that supports the
      extension, and none is found exactly when no parser supports it. */
  lemma {:induction false} FindParserFindsFirst(parsers: seq<FileParser>, extension: string)
    ensures FindParser(parsers, extension).None? <==>
              forall j :: 0 <= j < |parsers| ==> extension !in parsers[j].supportedExtensions
    ensures FindParser(parsers, extension).Some? ==>
              extension in parsers[FindParser(parsers, extension).value].supportedExtensions
    ensures FindParser(parsers, extension).Some? ==>
              forall j :: 0 <= j < FindParser(parsers, extension).value ==>
                extension !in parsers[j].supportedExtensions
  {
    if parsers != [] && extension !in parsers[0].supportedExtensions {
      FindParserFindsFirst(parsers[1..], extension);
      assert forall j :: 1 <= j < |parsers| ==> parsers[j] == parsers[1..][j - 1];
    }
  }

  // ---------------------------------------------------------------------
  // Merging the errors

  /** `int.MaxValue`, the sort key of an error without a line. */
  const IntMaxValue: int := 0x7FFF_FFFF

  /** The sort key of an error: its line, or `int.MaxValue` when it has
      none. */
  function MergeKey(e: PipelineError): int {
    if e.line.Some? then e.line.value else IntMaxValue
  }

  predicate OrderedByKey(es: seq<PipelineError>) {
    forall i, j :: 0 <= i < j < |es| ==> MergeKey(es[i]) <= MergeKey(es[j])
  }

  /** `e` put after every error whose key is not greater than its own. */
  function InsertByKey(e: PipelineError, s: seq<PipelineError>): (r: seq<PipelineError>)
    ensures |r| == |s| + 1
  {
    if s == [] || MergeKey(e) < MergeKey(s[0]) then [e] + s
    else [s[0]] + InsertByKey(e, s[1..])
  }

  /** `OrderBy(MergeKey)`: a stable sort by key, by insertion. */
  function SortByKey(es: seq<PipelineError>): (r: seq<PipelineError>)
    ensures |r| == |es|
  {
    if es == [] then []
    else InsertByKey(es[|es| - 1], SortByKey(es[..|es| - 1]))
  }

  /** The parse errors followed by the validation errors, ordered by
      line. */
  function MergeErrors(parsingErrors: seq<PipelineError>,
                       validationErrors: seq<PipelineError>): seq<PipelineError> {
    SortByKey(parsingErrors + validationErrors)
  }

  /** The errors with key `k`, in their order. */
  function WithKey(es: seq<PipelineError>, k: int): seq<PipelineError> {
    if es == [] then []
    else (if MergeKey(es[0]) == k then [es[0]] else []) + WithKey(es[1..], k)
  }

  lemma {:induction false} WithKeyAppend(a: seq<PipelineError>, b: seq<PipelineError>, k: int)
    ensures WithKey(a + b, k) == WithKey(a, k) + WithKey(b, k)
  {
    if a == [] {
      assert a + b == b;
    } else {
      var head := if MergeKey(a[0]) == k then [a[0]] else [];
      assert (a + b)[0] == a[0] && (a + b)[1..] == a[1..] + b;
      WithKeyAppend(a[1..], b, k);
      calc {
        WithKey(a + b, k);
        head + WithKey(a[1..] + b, k);
        head + (WithKey(a[1..], k) + WithKey(b, k));
        (head + WithKey(a[1..], k)) + WithKey(b, k);
        WithKey(a, k) + WithKey(b, k);
      }
    }
  }

  lemma {:induction false} WithKeyAbove(s: seq<PipelineError>, k: int)
    requires forall i :: 0 <= i < |s| ==> k < MergeKey(s[i])
    ensures WithKey(s, k) == []
  {
    if s != [] {
      WithKeyAbove(s[1..], k);
    }
  }

  /** Inserting keeps the order and puts `e` last among the errors of its
      key. */
  lemma {:induction false} InsertByKeyKeepsOrder(e: PipelineError, s: seq<PipelineError>)
    requires OrderedByKey(s)
    ensures OrderedByKey(InsertByKey(e, s))
    ensures InsertByKey(e, s)[0] == e || (|s| > 0 && InsertByKey(e, s)[0] == s[0])
  {
    if s != [] && MergeKey(e) >= MergeKey(s[0]) {
      InsertByKeyKeepsOrder(e, s[1..]);
      var rest := InsertByKey(e, s[1..]);
      assert MergeKey(s[0]) <= MergeKey(rest[0]);
      assert forall i :: 0 <= i < |rest| ==> MergeKey(s[0]) <= MergeKey(rest[i]);
    }
  }

  lemma {:induction false} InsertByKeyIsStable(e: PipelineError, s: seq<PipelineError>, k: int)
    requires OrderedByKey(s)
    ensures WithKey(InsertByKey(e, s), k) == WithKey(s, k) + WithKey([e], k)
  {
    if s == [] || MergeKey(e) < MergeKey(s[0]) {
      InsertFirstIsStable(e, s, k);
    } else {
      OrderedTail(s);
      InsertByKeyIsStable(e, s[1..], k);
      var rest := InsertByKey(e, s[1..]);
      WithKeyCons(s[0], rest, k);
      WithKeyCons(s[0], s[1..], k);
      assert s == [s[0]] + s[1..];
      ValueValidator.AppendAssociates(WithKey([s[0]], k), WithKey(s[1..], k), WithKey([e], k));
    }
  }

  /** An error put before every error of a greater key comes last among
      those of its own key. */
  lemma InsertFirstIsStable(e: PipelineError, s: seq<PipelineError>, k: int)
    requires OrderedByKey(s)
    requires s == [] || MergeKey(e) < MergeKey(s[0])
    ensures WithKey([e] + s, k) == WithKey(s, k) + WithKey([e], k)
  {
    WithKeyCons(e, s, k);
    if MergeKey(e) == k {
      WithKeyAbove(s, k);
    }
  }

  lemma OrderedTail(s: seq<PipelineError>)
    requires OrderedByKey(s) && s != []
    ensures OrderedByKey(s[1..])
  {
    forall i, j | 0 <= i < j < |s[1..]|
      ensures MergeKey(s[1..][i]) <= MergeKey(s[1..][j])
    {
      assert s[1..][i] == s[i + 1] && s[1..][j] == s[j + 1];
    }
  }

  /** The errors of key `k` in `[x] + s`. */
  lemma WithKeyCons(x: PipelineError, s: seq<PipelineError>, k: int)
    ensures WithKey([x] + s, k) == WithKey([x], k) + WithKey(s, k)
  {
    assert ([x] + s)[0] == x && ([x] + s)[1..] == s;
    assert [x][1..] == [];
  }

  lemma {:induction false} InsertByKeyAddsOne(e: PipelineError, s: seq<PipelineError>)
    ensures multiset(InsertByKey(e, s)) == multiset(s) + multiset{e}
  {
    if s != [] && MergeKey(e) >= MergeKey(s[0]) {
      InsertByKeyAddsOne(e, s[1..]);
      assert s == [s[0]] + s[1..];
    }
  }

  /** The sort orders by key, keeps every error exactly once, and keeps
      the input order among the errors of one key. */
  lemma SortByKeyIsStableSort(es: seq<PipelineError>)
    ensures OrderedByKey(SortByKey(es))
    ensures multiset(SortByKey(es)) == multiset(es)
    ensures forall k :: WithKey(SortByKey(es), k) == WithKey(es, k)
  {
    SortByKeyOrders(es);
    SortByKeyPermutes(es);
    forall k
      ensures WithKey(SortByKey(es), k) == WithKey(es, k)
    {
      SortByKeyKeepsKeyOrder(es, k);
    }
  }

  lemma {:induction false} SortByKeyOrders(es: seq<PipelineError>)
    ensures OrderedByKey(SortByKey(es))
  {
    if es != [] {
      SortByKeyOrders(es[..|es| - 1]);
      InsertByKeyKeepsOrder(es[|es| - 1], SortByKey(es[..|es| - 1]));
    }
  }

  lemma {:induction false} SortByKeyPermutes(es: seq<PipelineError>)
    ensures multiset(SortByKey(es)) == multiset(es)
  {
    if es != [] {
      var init := es[..|es| - 1];
      var last := es[|es| - 1];
      SortByKeyPermutes(init);
      InsertByKeyAddsOne(last, SortByKey(init));
      assert es == init + [last];
    }
  }

  lemma {:induction false} SortByKeyKeepsKeyOrder(es: seq<PipelineError>, k: int)
    ensures WithKey(SortByKey(es), k) == WithKey(es, k)
  {
    if es != [] {
      var init := es[..|es| - 1];
      var last := es[|es| - 1];
      SortByKeyKeepsKeyOrder(init, k);
      SortByKeyOrders(init);
      InsertLastIsStable(init, last, k);
      assert es == init + [last];
    }
  }

  /** One insertion step of the sort keeps the errors of each key in
      input order. */
  lemma InsertLastIsStable(init: seq<PipelineError>, last: PipelineError, k: int)
    requires OrderedByKey(SortByKey(init))
    requires WithKey(SortByKey(init), k) == WithKey(init, k)
    ensures WithKey(InsertByKey(last, SortByKey(init)), k) == WithKey(init + [last], k)
  {
    InsertByKeyIsStable(last, SortByKey(init), k);
    WithKeyAppend(init, [last], k);
  }

  /** The merged list holds exactly the parse and the validation errors,
      ordered by line with the line-less ones (key `int.MaxValue`) last;
      among the errors of one line the parse errors come first, then the
      validation errors, each in their own order. */
  lemma MergedErrorsOrderedAndStable(parsingErrors: seq<PipelineError>,
                                     validationErrors: seq<PipelineError>)
    ensures multiset(MergeErrors(parsingErrors, validationErrors))
            == multiset(parsingErrors) + multiset(validationErrors)
    ensures OrderedByKey(MergeErrors(parsingErrors, validationErrors))
    ensures forall k :: WithKey(MergeErrors(parsingErrors, validationErrors), k)
                        == WithKey(parsingErrors, k) + WithKey(validationErrors, k)
  {
    SortByKeyIsStableSort(parsingErrors + validationErrors);
    forall k
      ensures WithKey(MergeErrors(parsingErrors, validationErrors), k)
              == WithKey(parsingErrors, k) + WithKey(validationErrors, k)
    {
      WithKeyAppend(parsingErrors, validationErrors, k);
    }
  }

  /** When every line number is below `int.MaxValue`, the merged list has
      its errors with a line in ascending line order and every error
      without a line after all of them. */
  lemma LineLessErrorsLast(parsingErrors: seq<PipelineError>,
                           validationErrors: seq<PipelineError>)
    requires forall e :: e in parsingErrors + validationErrors && e.line.Some? ==>
               e.line.value < IntMaxValue
    ensures forall i, j :: 0 <= i < j < |MergeErrors(parsingErrors, validationErrors)| ==>
              var m := MergeErrors(parsingErrors, validationErrors);
              (m[i].line.None? ==> m[j].line.None?)
              && (m[i].line.Some? && m[j].line.Some? ==> m[i].line.value <= m[j].line.value)
  {
    var m := MergeErrors(parsingErrors, validationErrors);
    SortByKeyIsStableSort(parsingErrors + validationErrors);
    forall i, j | 0 <= i < j < |m|
      ensures m[i].line.None? ==> m[j].line.None?
    {
      assert m[j] in multiset(parsingErrors + validationErrors);
    }
  }

  // ---------------------------------------------------------------------
  // The repository

  /** One call of `SaveDataAsync`: the file name, its records and its
      summary. */
  datatype SaveCall = SaveCall(fileName: string, values: seq<ValueRecord>, result: ResultRecord)

  /** The repository as the orchestrator sees it: a sink that records
      every save it is asked for. */
  class DataRepository {
    var saves: seq<SaveCall>

    constructor()
      ensures saves == []
    {
      saves := [];
    }

    /** `SaveDataAsync`: one more save. */
    method SaveData(fileName: string, values: seq<ValueRecord>, result: ResultRecord)
      modifies this
      ensures saves == old(saves) + [SaveCall(fileName, values, result)]
    {
      saves := saves + [SaveCall(fileName, values, result)];
    }
  }

  // ---------------------------------------------------------------------
  // Processing a file

  /** The stages of `ProcessFileAsync`, in the order they run. */
  datatype Stage =
    | ValidateFileStage | LookUpParserStage | ParseStage | ValidateValuesStage
    | MergeErrorsStage | ValidateRowCountStage | StatisticsStage | SaveStage

  const AllStages: seq<Stage> := [ValidateFileStage, LookUpParserStage, ParseStage, ValidateValuesStage,
                                  MergeErrorsStage, ValidateRowCountStage, StatisticsStage, SaveStage]

  /** Running one more stage extends the prefix of `AllStages` run so far. */
  lemma NextStage(k: nat)
    requires k < |AllStages|
    ensures AllStages[..k] + [AllStages[k]] == AllStages[..k + 1]
  {
  }

  /** How a call ends: it throws a `ValidationException` with its errors,
      or it returns the number of saved records. */
  datatype Outcome = Rejected(errors: seq<PipelineError>) | Accepted(count: int)

  /** A call's outcome, the stages it ran and the save it made, if any. */
  datatype Run = Run(outcome: Outcome, stages: seq<Stage>, saved: Option<SaveCall>)

  /** The error for a file whose extension no parser accepts. */
  function UnsupportedFormatError(extension: string): PipelineError {
    PipelineError(None, UnsupportedFormat(extension))
  }

  /** `ProcessFileAsync` as a function of its inputs: the collaborators
      (the registered parsers and the validator), the file and the current
      time. */
  function Process(parsers: seq<FileParser>, v: ValueValidator.Validator,
                   file: Option<UploadedFile>, now: int): Run
  {
    match ValueValidator.ValidateFile(file)
    case Some(e) => Run(Rejected([e]), AllStages[..1], None)
    case None =>
      var fileName := file.value.fileName;
      var extension := ToLower(Extension(fileName));
      match FindParser(parsers, extension)
      case None => Run(Rejected([UnsupportedFormatError(extension)]), AllStages[..2], None)
      case Some(i) => ProcessParsed(v, fileName, parsers[i].parse(file.value.lines, fileName), now)
  }

  /** The stages after parsing: validation of the records, the merge of
      all errors, then the row count, the statistics and the save. */
  function ProcessParsed(v: ValueValidator.Validator, fileName: string,
                         parsed: CsvFileParser.ParseOutput, now: int): Run
  {
    var allErrors := MergeErrors(parsed.errors, ValueValidator.AllRecordErrors(v, parsed.values, now));
    if |allErrors| > 0 then Run(Rejected(allErrors), AllStages[..5], None)
    else
      match ValueValidator.ValidateRowCount(v, |parsed.values|)
      case Some(e) => Run(Rejected([e]), AllStages[..6], None)
      case None =>
        Run(Accepted(|parsed.values|), AllStages,
            Some(SaveCall(fileName, parsed.values, StatisticsCalculator.Statistics(parsed.values, fileName))))
  }

  /** `ProcessFileAsync`: the stages in order, each failure ending the call
      with its errors; `stages` lists the stages that ran, always a prefix
      of the fixed order. */
  method ProcessFile(parsers: seq<FileParser>, v: ValueValidator.Validator,
                     repository: DataRepository, file: Option<UploadedFile>, now: int)
    returns (outcome: Outcome, ghost stages: seq<Stage>)
    modifies repository
    ensures outcome == Process(parsers, v, file, now).outcome
    ensures stages == Process(parsers, v, file, now).stages
    ensures repository.saves == old(repository.saves) + ToSeq(Process(parsers, v, file, now).saved)
  {
    stages := [ValidateFileStage];
    assert stages == AllStages[..1];
    var fileError := ValueValidator.ValidateFile(file);
    if fileError.Some? {
      return Rejected([fileError.value]), stages;
    }
    var fileName := file.value.fileName;

    NextStage(1);
    stages := stages + [LookUpParserStage];
    var extension := ToLower(Extension(fileName));
    var parser := FindParser(parsers, extension);
    if parser.None? {
      return Rejected([UnsupportedFormatError(extension)]), stages;
    }

    NextStage(2);
    stages := stages + [ParseStage];
    var parsed := parsers[parser.value].parse(file.value.lines, fileName);
    assert Process(parsers, v, file, now) == ProcessParsed(v, fileName, parsed, now);
    outcome, stages := ValidateAndSave(v, repository, fileName, parsed, now, stages);
  }

  /** The stages of `ProcessFileAsync` after the file has been parsed:
      it validates the records, merges every error, checks the row count,
      computes the statistics and saves. */
  method ValidateAndSave(v: ValueValidator.Validator, repository: DataRepository, fileName: string,
                         parsed: CsvFileParser.ParseOutput, now: int, ghost before: seq<Stage>)
    returns (outcome: Outcome, ghost stages: seq<Stage>)
    requires before == AllStages[..3]
    modifies repository
    ensures outcome == ProcessParsed(v, fileName, parsed, now).outcome
    ensures stages == ProcessParsed(v, fileName, parsed, now).stages
    ensures repository.saves == old(repository.saves) + ToSeq(ProcessParsed(v, fileName, parsed, now).saved)
  {
    var values := parsed.values;
    NextStage(3);
    stages := before + [ValidateValuesStage];
    var validationErrors := ValueValidator.ValidateValues(v, values, now);

    var totalCount := |values|;
    NextStage(4);
    stages := stages + [MergeErrorsStage];
    var allErrors := MergeErrors(parsed.errors, validationErrors);
    if |allErrors| > 0 {
      return Rejected(allErrors), stages;
    }

    NextStage(5);
    stages := stages + [ValidateRowCountStage];
    var countError := ValueValidator.ValidateRowCount(v, totalCount);
    if countError.Some? {
      return Rejected([countError.value]), stages;
    }

    NextStage(6);
    stages := stages + [StatisticsStage];
    var result := StatisticsCalculator.CalculateStatistics(values, fileName);

    NextStage(7);
    stages := stages + [SaveStage];
    repository.SaveData(fileName, values, result);
    outcome := Accepted(|values|);
  }

  // ---------------------------------------------------------------------
  // Properties of a run

  /** The stages that ran are always the first ones of the fixed order,
      from the file check on; the save happens, and the call returns a
      count, exactly when every stage ran. */
  lemma StagesRunInOrder(parsers: seq<FileParser>, v: ValueValidator.Validator,
                         file: Option<UploadedFile>, now: int)
    ensures 1 <= |Process(parsers, v, file, now).stages| <= |AllStages|
    ensures Process(parsers, v, file, now).stages
            == AllStages[..|Process(parsers, v, file, now).stages|]
    ensures Process(parsers, v, file, now).saved.Some? <==> Process(parsers, v, file, now).stages == AllStages
    ensures Process(parsers, v, file, now).outcome.Accepted? <==> Process(parsers, v, file, now).saved.Some?
  {
    if file.Some? && file.value.length != 0 {
      var ext := ToLower(Extension(file.value.fileName));
      var found := FindParser(parsers, ext);
      if found.Some? {
        var fileName := file.value.fileName;
        ParsedStagesRunInOrder(v, fileName, parsers[found.value].parse(file.value.lines, fileName), now);
      }
    }
  }

  /** The same, for the stages after parsing. */
  lemma ParsedStagesRunInOrder(v: ValueValidator.Validator, fileName: string,
                               parsed: CsvFileParser.ParseOutput, now: int)
    ensures 5 <= |ProcessParsed(v, fileName, parsed, now).stages| <= |AllStages|
    ensures ProcessParsed(v, fileName, parsed, now).stages
            == AllStages[..|ProcessParsed(v, fileName, parsed, now).stages|]
    ensures ProcessParsed(v, fileName, parsed, now).saved.Some?
            <==> ProcessParsed(v, fileName, parsed, now).stages == AllStages
    ensures ProcessParsed(v, fileName, parsed, now).outcome.Accepted?
            <==> ProcessParsed(v, fileName, parsed, now).saved.Some?
  {
  }

  /** Errors and records after parsing: the merged list is empty exactly
      when there are no parse errors and every record is valid. */
  lemma MergedEmptyIffClean(v: ValueValidator.Validator, parsed: CsvFileParser.ParseOutput, now: int)
    ensures MergeErrors(parsed.errors, ValueValidator.AllRecordErrors(v, parsed.values, now)) == []
            <==> parsed.errors == []
                 && forall k :: 0 <= k < |parsed.values| ==>
                      ValueValidator.RecordValid(v, parsed.values[k], now)
  {
    ValueValidator.NoErrorsIffAllValid(v, parsed.values, now);
  }

  /** Any error fails the call with exactly the merged list, before the
      row count, the statistics and the save. */
  lemma ErrorsAbortBeforeSave(v: ValueValidator.Validator, fileName: string,
                              parsed: CsvFileParser.ParseOutput, now: int)
    requires MergeErrors(parsed.errors, ValueValidator.AllRecordErrors(v, parsed.values, now)) != []
    ensures ProcessParsed(v, fileName, parsed, now).outcome
            == Rejected(MergeErrors(parsed.errors, ValueValidator.AllRecordErrors(v, parsed.values, now)))
    ensures ProcessParsed(v, fileName, parsed, now).saved.None?
    ensures ValidateRowCountStage !in ProcessParsed(v, fileName, parsed, now).stages
    ensures StatisticsStage !in ProcessParsed(v, fileName, parsed, now).stages
  {
    assert AllStages[..5] == [ValidateFileStage, LookUpParserStage, ParseStage, ValidateValuesStage,
                              MergeErrorsStage];
  }

  /** The row count is checked exactly when the merged list is empty; a
      count outside the admitted range fails the call with that single
      error and nothing is saved. */
  lemma RowCountOnlyWhenClean(v: ValueValidator.Validator, fileName: string,
                              parsed: CsvFileParser.ParseOutput, now: int)
    ensures ValidateRowCountStage in ProcessParsed(v, fileName, parsed, now).stages
            <==> MergeErrors(parsed.errors, ValueValidator.AllRecordErrors(v, parsed.values, now)) == []
    ensures MergeErrors(parsed.errors, ValueValidator.AllRecordErrors(v, parsed.values, now)) == []
            && ValueValidator.ValidateRowCount(v, |parsed.values|).Some? ==>
              ProcessParsed(v, fileName, parsed, now).outcome
                == Rejected([ValueValidator.ValidateRowCount(v, |parsed.values|).value])
              && ProcessParsed(v, fileName, parsed, now).saved.None?
  {
    assert AllStages[..5] == [ValidateFileStage, LookUpParserStage, ParseStage, ValidateValuesStage,
                              MergeErrorsStage];
    assert AllStages[5] == ValidateRowCountStage;
  }

  /** The call succeeds exactly when there are no parse errors, every
      record is valid and the number of records is in the admitted range;
      it then saves the file name, the parsed records and their statistics
      once and returns the number of records. */
  lemma AcceptedIffClean(v: ValueValidator.Validator, fileName: string,
                         parsed: CsvFileParser.ParseOutput, now: int)
    ensures ProcessParsed(v, fileName, parsed, now).outcome.Accepted?
            <==> && parsed.errors == []
                 && (forall k :: 0 <= k < |parsed.values| ==>
                       ValueValidator.RecordValid(v, parsed.values[k], now))
                 && v.settings.minRowCount <= |parsed.values| <= v.settings.maxRowCount
    ensures ProcessParsed(v, fileName, parsed, now).outcome.Accepted? ==>
              && ProcessParsed(v, fileName, parsed, now).outcome.count == |parsed.values|
              && ProcessParsed(v, fileName, parsed, now).saved
                 == Some(SaveCall(fileName, parsed.values,
                                  StatisticsCalculator.Statistics(parsed.values, fileName)))
  {
    MergedEmptyIffClean(v, parsed, now);
  }

  /** A missing or empty file fails the file check alone. */
  lemma MissingFileRejected(parsers: seq<FileParser>, v: ValueValidator.Validator,
                            file: Option<UploadedFile>, now: int)
    requires file.None? || file.value.length == 0
    ensures Process(parsers, v, file, now).outcome == Rejected([PipelineError(None, FileMissingOrEmpty)])
    ensures Process(parsers, v, file, now).stages == [ValidateFileStage]
  {
  }

  /** A file whose lower-cased extension no parser accepts fails with one
      error without a line, and nothing is parsed. */
  lemma UnsupportedExtensionRejected(parsers: seq<FileParser>, v: ValueValidator.Validator,
                                     file: UploadedFile, now: int)
    requires file.length != 0
    requires forall j :: 0 <= j < |parsers| ==>
               ToLower(Extension(file.fileName)) !in parsers[j].supportedExtensions
    ensures Process(parsers, v, Some(file), now).outcome
            == Rejected([PipelineError(None, UnsupportedFormat(ToLower(Extension(file.fileName))))])
    ensures ParseStage !in Process(parsers, v, Some(file), now).stages
  {
    FindParserFindsFirst(parsers, ToLower(Extension(file.fileName)));
    assert AllStages[..2] == [ValidateFileStage, LookUpParserStage];
  }

  /** With the CSV parser registered first, a file named `stem.ext` whose
      extension lower-cases to ".csv" is parsed by it. */
  lemma CsvFilesGoToCsvParser(parseNumber: CsvFileParser.NumberParser, others: seq<FileParser>,
                              v: ValueValidator.Validator, stem: string, ext: string,
                              file: UploadedFile, now: int)
    requires file.length != 0 && file.fileName == stem + "." + ext
    requires ext != [] && forall k :: 0 <= k < |ext| ==> ext[k] != '.' && ext[k] != '/'
    requires ToLower("." + ext) == ".csv"
    ensures Process([CsvParser(parseNumber)] + others, v, Some(file), now)
            == ProcessParsed(v, file.fileName,
                             CsvFileParser.ParseLines(file.lines, file.fileName, parseNumber), now)
  {
    ExtensionOfName(stem, ext);
    assert ([CsvParser(parseNumber)] + others)[0] == CsvParser(parseNumber);
    assert ".csv" in CsvFileParser.SupportedExtensions;
  }

  /** With only the CSV parser registered, a file named `stem.ext` whose
      extension does not lower-case to ".csv" fails with one error that
      names the lower-cased extension. */
  lemma OtherExtensionsRejected(parseNumber: CsvFileParser.NumberParser,
                                v: ValueValidator.Validator, stem: string, ext: string,
                                file: UploadedFile, now: int)
    requires file.length != 0 && file.fileName == stem + "." + ext
    requires ext != [] && forall k :: 0 <= k < |ext| ==> ext[k] != '.' && ext[k] != '/'
    requires ToLower("." + ext) != ".csv"
    ensures Process([CsvParser(parseNumber)], v, Some(file), now).outcome
            == Rejected([PipelineError(None, UnsupportedFormat(ToLower("." + ext)))])
    ensures ParseStage !in Process([CsvParser(parseNumber)], v, Some(file), now).stages
  {
    ExtensionOfName(stem, ext);
    UnsupportedExtensionRejected([CsvParser(parseNumber)], v, file, now);
  }
}
