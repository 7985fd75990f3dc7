/** The CSV line parser. A file is a header line followed by data lines
    `date;executionTime;value`; the header is skipped unread, blank lines
    are skipped, and every other line yields exactly one record or exactly
    one error, in line order. */
module CsvFileParser {
  import opened Results
  import opened Text
  import opened Calendar
  import opened DateFormats
  import opened Models

  /** The extensions this parser registers for. */
  const SupportedExtensions: seq<string> := [".csv"]

  /** `double.TryParse(s, NumberStyles.Any, CultureInfo.InvariantCulture)`,
      taken as given: the number a literal denotes, if any. */
  type NumberParser = string -> Option<real>

  /** What one line turns into. */
  datatype LineResult = Parsed(record: ValueRecord) | Failed(error: PipelineError)

  /** The result of parsing a whole file. */
  datatype ParseOutput = ParseOutput(values: seq<ValueRecord>, errors: seq<PipelineError>)

  /** How a line splits at its first two separators. */
  datatype Split = NoSeparator | NoSecondSeparator | Fields(datePart: string, execPart: string, valuePart: string)

  /** Number of occurrences of `c` in `s`. */
  function CountOf(s: string, c: char): nat {
    if s == [] then 0 else CountOf(s[..|s| - 1], c) + (if s[|s| - 1] == c then 1 else 0)
  }

  /** Locates the first `;` and the next `;` after it and cuts the line
      there, dropping the two separators. */
  function SplitLine(line: string): Split {
    var firstSemi := IndexOf(line, ';');
    if firstSemi == -1 then NoSeparator
    else
      var rest := IndexOf(line[firstSemi + 1..], ';');
      if rest == -1 then NoSecondSeparator
      else
        var secondSemi := rest + firstSemi + 1;
        Fields(line[..firstSemi], line[firstSemi + 1..secondSemi], line[secondSemi + 1..])
  }

  /** Reads the three trimmed fields in the order date, execution time,
      value; the first one that does not parse decides the error. */
  function ParseFields(datePart: string, execPart: string, valuePart: string,
                       lineNumber: int, fileName: string, parseNumber: NumberParser): (r: LineResult)
    ensures r.Parsed? <==> TryParseDate(datePart).Some? && parseNumber(execPart).Some?
                             && parseNumber(valuePart).Some?
    ensures r.Parsed? ==> r.record == ValueRecord(fileName, TryParseDate(datePart).value,
                                                  parseNumber(execPart).value,
                                                  parseNumber(valuePart).value, lineNumber)
    ensures r.Failed? ==> r.error.line == Some(lineNumber)
  {
    match TryParseDate(datePart)
    case None => Failed(PipelineError(Some(lineNumber), BadDate(datePart)))
    case Some(date) =>
      match parseNumber(execPart)
      case None => Failed(PipelineError(Some(lineNumber), BadExecutionTime(execPart)))
      case Some(execTime) =>
        match parseNumber(valuePart)
        case None => Failed(PipelineError(Some(lineNumber), BadValue(valuePart)))
        case Some(value) => Parsed(ValueRecord(fileName, date, execTime, value, lineNumber))
  }

  /** `ParseLine`: one data line to a record or an error. */
  function ParseLine(line: string, lineNumber: int, fileName: string,
                     parseNumber: NumberParser): (r: LineResult)
    ensures r.Parsed? ==> r.record.lineNumber == lineNumber && r.record.fileName == fileName
    ensures r.Failed? ==> r.error.line == Some(lineNumber)
  {
    match SplitLine(line)
    case NoSeparator => Failed(PipelineError(Some(lineNumber), MissingSeparator))
    case NoSecondSeparator => Failed(PipelineError(Some(lineNumber), MissingSecondSeparator))
    case Fields(d, e, v) => ParseFields(Trim(d), Trim(e), Trim(v), lineNumber, fileName, parseNumber)
  }

  /** A line parser: a line and its line number to a record or an
      error. */
  type LineParser = (string, int) -> LineResult

  /** `ParseLine` with the file name and the number syntax fixed. */
  function LineParserFor(fileName: string, parseNumber: NumberParser): LineParser {
    (line, lineNumber) => ParseLine(line, lineNumber, fileName, parseNumber)
  }

  /** The data lines `data` (the lines after the header, the first of
      them being line 2) parsed in order by `parseLine`: blank lines
      contribute nothing, the others their record or their error. The
      properties of the file loop below hold for any line parser that tags
      its output with the line number it is given. */
  function ParseDataLines(data: seq<string>, parseLine: LineParser): ParseOutput
  {
    if data == [] then ParseOutput([], [])
    else
      var prev := ParseDataLines(data[..|data| - 1], parseLine);
      var line := data[|data| - 1];
      if IsBlank(line) then prev
      else
        match parseLine(line, |data| + 1)
        case Parsed(r) => ParseOutput(prev.values + [r], prev.errors)
        case Failed(e) => ParseOutput(prev.values, prev.errors + [e])
  }

  /** The error reported when the header line is missing or blank. */
  const EmptyFileError := PipelineError(None, EmptyFile)

  /** What `ParseFileAsync` returns for the lines of a file. */
  function ParseLines(lines: seq<string>, fileName: string, parseNumber: NumberParser): ParseOutput {
    if |lines| == 0 || IsBlank(lines[0]) then ParseOutput([], [EmptyFileError])
    else ParseDataLines(lines[1..], LineParserFor(fileName, parseNumber))
  }

  /** `ParseFileAsync`: reads the header, then every further line,
      counting line numbers from the header's 1, and collects the records
      and the errors of the non-blank lines. */
  method ParseFile(lines: seq<string>, fileName: string, parseNumber: NumberParser)
    returns (values: seq<ValueRecord>, errors: seq<PipelineError>)
    ensures ParseOutput(values, errors) == ParseLines(lines, fileName, parseNumber)
    ensures |lines| == 0 || IsBlank(lines[0]) ==> values == [] && errors == [EmptyFileError]
  {
    values, errors := [], [];
    if |lines| == 0 || IsBlank(lines[0]) {
      errors := errors + [EmptyFileError];
      return;
    }
    var lineNumber := 1;
    while lineNumber < |lines|
      invariant 1 <= lineNumber <= |lines|
      invariant ParseOutput(values, errors)
                == ParseDataLines(lines[1..lineNumber], LineParserFor(fileName, parseNumber))
    {
      var line := lines[lineNumber];
      lineNumber := lineNumber + 1;
      assert lines[1..lineNumber][..lineNumber - 2] == lines[1..lineNumber - 1];
      if IsBlank(line) {
        continue;
      }
      var parseResult := ParseLine(line, lineNumber, fileName, parseNumber);
      if parseResult.Failed? {
        errors := errors + [parseResult.error];
        continue;
      }
      values := values + [parseResult.record];
    }
    assert lines[1..lineNumber] == lines[1..];
  }

  // ---------------------------------------------------------------------
  // Properties of a single line

  lemma {:induction false} CountOfZero(s: string, c: char)
    ensures CountOf(s, c) == 0 <==> c !in s
  {
    if s != [] {
      CountOfZero(s[..|s| - 1], c);
      assert s == s[..|s| - 1] + [s[|s| - 1]];
    }
  }

  lemma {:induction false} CountOfAppend(a: string, b: string, c: char)
    ensures CountOf(a + b, c) == CountOf(a, c) + CountOf(b, c)
    decreases |b|
  {
    if b == [] {
      assert a + b == a;
    } else {
      assert (a + b)[..|a + b| - 1] == a + b[..|b| - 1];
      assert (a + b)[|a + b| - 1] == b[|b| - 1];
      CountOfAppend(a, b[..|b| - 1], c);
    }
  }

  /** Cutting a string at a position `i`. */
  lemma CutAt(s: string, i: int)
    requires 0 <= i < |s|
    ensures s == s[..i] + [s[i]] + s[i + 1..]
  {
  }

  /** Past its first occurrence, `c` occurs one time fewer. */
  lemma CountAfterFirst(s: string, c: char)
    requires IndexOf(s, c) >= 0
    ensures CountOf(s, c) == 1 + CountOf(s[IndexOf(s, c) + 1..], c)
  {
    var i := IndexOf(s, c);
    CutAt(s, i);
    CountOfAppend(s[..i] + [c], s[i + 1..], c);
    CountOfAppend(s[..i], [c], c);
    CountOfZero(s[..i], c);
    assert [c][..0] == [];
  }

  /** The separator errors are decided by the number of `;` on the line:
      none gives "missing separator", one gives "missing second
      separator", two or more give three pieces. */
  lemma SeparatorCount(line: string)
    ensures SplitLine(line).NoSeparator? <==> CountOf(line, ';') == 0
    ensures SplitLine(line).NoSecondSeparator? <==> CountOf(line, ';') == 1
    ensures SplitLine(line).Fields? <==> CountOf(line, ';') >= 2
  {
    CountOfZero(line, ';');
    var i := IndexOf(line, ';');
    if i == -1 {
      assert SplitLine(line) == NoSeparator;
    } else {
      CountAfterFirst(line, ';');
      var rest := line[i + 1..];
      CountOfZero(rest, ';');
      if IndexOf(rest, ';') == -1 {
        assert SplitLine(line) == NoSecondSeparator;
      } else {
        CountAfterFirst(rest, ';');
        assert SplitLine(line).Fields?;
      }
    }
  }

  /** A line without `;` gets the "missing separator" error and a line
      with exactly one gets the "missing second separator" error, each
      with the line's number; any other line is judged on its fields. */
  lemma SeparatorErrors(line: string, lineNumber: int, fileName: string, parseNumber: NumberParser)
    ensures CountOf(line, ';') == 0 ==>
              ParseLine(line, lineNumber, fileName, parseNumber)
              == Failed(PipelineError(Some(lineNumber), MissingSeparator))
    ensures CountOf(line, ';') == 1 ==>
              ParseLine(line, lineNumber, fileName, parseNumber)
              == Failed(PipelineError(Some(lineNumber), MissingSecondSeparator))
    ensures CountOf(line, ';') >= 2 ==>
              && SplitLine(line).Fields?
              && ParseLine(line, lineNumber, fileName, parseNumber)
                 == ParseFields(Trim(SplitLine(line).datePart), Trim(SplitLine(line).execPart),
                                Trim(SplitLine(line).valuePart), lineNumber, fileName, parseNumber)
  {
    SeparatorCount(line);
  }

  /** A position holding `c` with no `c` before it is the first
      occurrence. */
  lemma FirstOccurrence(s: string, c: char, k: int)
    requires 0 <= k < |s| && s[k] == c && c !in s[..k]
    ensures IndexOf(s, c) == k
  {
  }

  /** Joining two strings around a character and cutting them apart
      again. */
  lemma JoinAt(a: string, c: char, b: string)
    ensures var s := a + [c] + b; s[..|a|] == a && s[|a|] == c && s[|a| + 1..] == b
  {
  }

  /** The pieces are the text before the first `;`, between the first
      and the second, and after the second; any later `;` stays in the
      value piece. */
  lemma SplitAtFirstTwo(a: string, b: string, c: string)
    requires ';' !in a && ';' !in b
    ensures SplitLine(a + ";" + b + ";" + c) == Fields(a, b, c)
  {
    var rest := b + [';'] + c;
    var line := a + [';'] + rest;
    assert line == a + ";" + b + ";" + c;
    JoinAt(a, ';', rest);
    JoinAt(b, ';', c);
    FirstOccurrence(line, ';', |a|);
    FirstOccurrence(rest, ';', |b|);
    assert line[|a| + 1..|a| + 1 + |b|] == rest[..|b|];
    assert line[|a| + 1 + |b| + 1..] == rest[|b| + 1..];
  }

  /** A prefix free of `c` does not contain `c`. */
  lemma AbsentFromPrefix(s: string, c: char, i: int)
    requires 0 <= i <= |s| && forall k :: 0 <= k < i ==> s[k] != c
    ensures c !in s[..i]
  {
  }

  /** A string with `;` at `i` and at `j` is its three pieces joined by
      `;`. */
  lemma JoinedAtTwo(s: string, i: int, j: int)
    requires 0 <= i < j < |s| && s[i] == ';' && s[j] == ';'
    ensures s == s[..i] + ";" + s[i + 1..j] + ";" + s[j + 1..]
  {
    assert s == s[..i] + [s[i]] + s[i + 1..];
    assert s[i + 1..] == s[i + 1..j] + [s[j]] + s[j + 1..];
  }

  /** A line that splits into pieces is the three pieces joined by the two
      separators that were found, the first two pieces free of `;`. */
  lemma SplitFieldsComeFromLine(line: string, a: string, b: string, c: string)
    requires SplitLine(line) == Fields(a, b, c)
    ensures ';' !in a && ';' !in b && line == a + ";" + b + ";" + c
  {
    var i := IndexOf(line, ';');
    var rest := line[i + 1..];
    var j := IndexOf(rest, ';');
    AbsentFromPrefix(line, ';', i);
    AbsentFromPrefix(rest, ';', j);
    JoinedAtTwo(line, i, i + 1 + j);
    assert rest[..j] == b;
  }

  /** How a line splits into pieces, both ways: it splits into `a`, `b`
      and `c` exactly when it is `a;b;c` with no `;` in `a` or `b`. */
  lemma SplitLineFields(line: string, a: string, b: string, c: string)
    ensures SplitLine(line) == Fields(a, b, c)
            <==> ';' !in a && ';' !in b && line == a + ";" + b + ";" + c
  {
    if SplitLine(line) == Fields(a, b, c) {
      SplitFieldsComeFromLine(line, a, b, c);
    }
    if ';' !in a && ';' !in b && line == a + ";" + b + ";" + c {
      SplitAtFirstTwo(a, b, c);
    }
  }

  /** Fields are examined in order and the first failure ends the line:
      when the date does not parse, the other two fields are never
      looked at; when the date parses and the execution time does not, the
      value is never looked at. */
  lemma LaterFieldsNotExamined(d: string, e1: string, v1: string, e2: string, v2: string,
                               n: int, fileName: string, parseNumber: NumberParser)
    ensures TryParseDate(d).None? ==>
              ParseFields(d, e1, v1, n, fileName, parseNumber)
              == ParseFields(d, e2, v2, n, fileName, parseNumber)
              == Failed(PipelineError(Some(n), BadDate(d)))
    ensures TryParseDate(d).Some? && parseNumber(e1).None? ==>
              ParseFields(d, e1, v1, n, fileName, parseNumber)
              == ParseFields(d, e1, v2, n, fileName, parseNumber)
              == Failed(PipelineError(Some(n), BadExecutionTime(e1)))
    ensures TryParseDate(d).Some? && parseNumber(e1).Some? && parseNumber(v1).None? ==>
              ParseFields(d, e1, v1, n, fileName, parseNumber)
              == Failed(PipelineError(Some(n), BadValue(v1)))
  {
  }

  // ---------------------------------------------------------------------
  // Properties of a whole file

  /** Number of lines that are not blank. */
  function CountNonBlank(data: seq<string>): nat {
    if data == [] then 0
    else CountNonBlank(data[..|data| - 1]) + (if IsBlank(data[|data| - 1]) then 0 else 1)
  }

  /** The parser tags every record and every error with the line number
      it is given. */
  ghost predicate TagsLines(parseLine: LineParser) {
    forall line, n :: match parseLine(line, n)
                      case Parsed(r) => r.lineNumber == n
                      case Failed(e) => e.line == Some(n)
  }

  /** `ParseLine` tags its output with its line number. */
  lemma ParseLineTagsLines(fileName: string, parseNumber: NumberParser)
    ensures TagsLines(LineParserFor(fileName, parseNumber))
  {
  }

  /** Every non-blank data line gives exactly one record or one error and
      a blank one gives nothing, so records and errors together number the
      non-blank data lines. */
  lemma {:induction false} OneOutputPerNonBlankLine(data: seq<string>, parseLine: LineParser)
    ensures |ParseDataLines(data, parseLine).values| + |ParseDataLines(data, parseLine).errors|
            == CountNonBlank(data)
  {
    if data != [] {
      OneOutputPerNonBlankLine(data[..|data| - 1], parseLine);
    }
  }

  /** `r` is the record of data line `r.lineNumber - 2`, a non-blank
      line (line numbers count the header as line 1). */
  predicate RecordFromLine(data: seq<string>, r: ValueRecord, parseLine: LineParser) {
    && 2 <= r.lineNumber < |data| + 2
    && !IsBlank(data[r.lineNumber - 2])
    && parseLine(data[r.lineNumber - 2], r.lineNumber) == Parsed(r)
  }

  /** `e` is the error of data line `e.line - 2`, a non-blank line. */
  predicate ErrorFromLine(data: seq<string>, e: PipelineError, parseLine: LineParser) {
    && e.line.Some?
    && 2 <= e.line.value < |data| + 2
    && !IsBlank(data[e.line.value - 2])
    && parseLine(data[e.line.value - 2], e.line.value) == Failed(e)
  }

  /** Records in strictly increasing line order. */
  predicate RecordLinesIncrease(vs: seq<ValueRecord>) {
    forall k, m :: 0 <= k < m < |vs| ==> vs[k].lineNumber < vs[m].lineNumber
  }

  /** Errors with line numbers, in strictly increasing line order. */
  predicate ErrorLinesIncrease(es: seq<PipelineError>) {
    && (forall k :: 0 <= k < |es| ==> es[k].line.Some?)
    && (forall k, m :: 0 <= k < m < |es| ==> es[k].line.value < es[m].line.value)
  }

  /** Each record is the parse of its own source line, and records are in
      strictly increasing line order. */
  lemma {:induction false} RecordsComeFromTheirLines(data: seq<string>, parseLine: LineParser)
    requires TagsLines(parseLine)
    ensures forall k :: 0 <= k < |ParseDataLines(data, parseLine).values| ==>
              RecordFromLine(data, ParseDataLines(data, parseLine).values[k], parseLine)
    ensures RecordLinesIncrease(ParseDataLines(data, parseLine).values)
  {
    if data != [] {
      var init := data[..|data| - 1];
      var line := data[|data| - 1];
      RecordsComeFromTheirLines(init, parseLine);
      var prev := ParseDataLines(init, parseLine).values;
      var vs := ParseDataLines(data, parseLine).values;
      forall k | 0 <= k < |prev| ensures RecordFromLine(data, prev[k], parseLine) {
        assert RecordFromLine(init, prev[k], parseLine);
        assert data[prev[k].lineNumber - 2] == init[prev[k].lineNumber - 2];
      }
      if !IsBlank(line) && parseLine(line, |data| + 1).Parsed? {
        assert vs == prev + [parseLine(line, |data| + 1).record];
      } else {
        assert vs == prev;
      }
    }
  }

  /** Each error is the error of its own source line, and errors are in
      strictly increasing line order. */
  lemma {:induction false} ErrorsComeFromTheirLines(data: seq<string>, parseLine: LineParser)
    requires TagsLines(parseLine)
    ensures forall k :: 0 <= k < |ParseDataLines(data, parseLine).errors| ==>
              ErrorFromLine(data, ParseDataLines(data, parseLine).errors[k], parseLine)
    ensures ErrorLinesIncrease(ParseDataLines(data, parseLine).errors)
  {
    if data != [] {
      var init := data[..|data| - 1];
      var line := data[|data| - 1];
      ErrorsComeFromTheirLines(init, parseLine);
      var prev := ParseDataLines(init, parseLine).errors;
      var es := ParseDataLines(data, parseLine).errors;
      forall k | 0 <= k < |prev| ensures ErrorFromLine(data, prev[k], parseLine) {
        assert ErrorFromLine(init, prev[k], parseLine);
        assert data[prev[k].line.value - 2] == init[prev[k].line.value - 2];
      }
      if !IsBlank(line) && parseLine(line, |data| + 1).Failed? {
        assert es == prev + [parseLine(line, |data| + 1).error];
      } else {
        assert es == prev;
      }
    }
  }

  /** No non-blank data line is lost: line `j + 2` shows up as a record or
      as an error (never both, as the line has one parse). */
  lemma {:induction false} EveryNonBlankLineReported(data: seq<string>, parseLine: LineParser, j: int)
    requires TagsLines(parseLine)
    requires 0 <= j < |data| && !IsBlank(data[j])
    ensures || (exists k :: 0 <= k < |ParseDataLines(data, parseLine).values|
                            && ParseDataLines(data, parseLine).values[k].lineNumber == j + 2)
            || (exists k :: 0 <= k < |ParseDataLines(data, parseLine).errors|
                            && ParseDataLines(data, parseLine).errors[k].line == Some(j + 2))
  {
    var init := data[..|data| - 1];
    var line := data[|data| - 1];
    var prev := ParseDataLines(init, parseLine);
    var out := ParseDataLines(data, parseLine);
    assert out.values[..|prev.values|] == prev.values;
    assert out.errors[..|prev.errors|] == prev.errors;
    if j < |data| - 1 {
      assert init[j] == data[j];
      EveryNonBlankLineReported(init, parseLine, j);
      if exists k :: 0 <= k < |prev.values| && prev.values[k].lineNumber == j + 2 {
        var k :| 0 <= k < |prev.values| && prev.values[k].lineNumber == j + 2;
        assert out.values[k] == out.values[..|prev.values|][k];
        assert 0 <= k < |ParseDataLines(data, parseLine).values|
               && ParseDataLines(data, parseLine).values[k].lineNumber == j + 2;
      } else {
        var k :| 0 <= k < |prev.errors| && prev.errors[k].line == Some(j + 2);
        assert out.errors[k] == out.errors[..|prev.errors|][k];
        assert 0 <= k < |ParseDataLines(data, parseLine).errors|
               && ParseDataLines(data, parseLine).errors[k].line == Some(j + 2);
      }
    } else if parseLine(line, j + 2).Parsed? {
      var k := |out.values| - 1;
      assert 0 <= k < |ParseDataLines(data, parseLine).values|
             && ParseDataLines(data, parseLine).values[k].lineNumber == j + 2;
    } else {
      var k := |out.errors| - 1;
      assert 0 <= k < |ParseDataLines(data, parseLine).errors|
             && ParseDataLines(data, parseLine).errors[k].line == Some(j + 2);
    }
  }

  /** A line that is a date literal in one of the formats, a `;`, the
      execution time, a `;` and the value, with no white space to trim,
      parses to the record of those three. */
  lemma WellFormedLine(date: string, execTime: string, value: string, lineNumber: int,
                       fileName: string, parseNumber: NumberParser)
    requires TryParseDate(date).Some? && parseNumber(execTime).Some? && parseNumber(value).Some?
    requires ';' !in date && ';' !in execTime
    requires Trim(date) == date && Trim(execTime) == execTime && Trim(value) == value
    ensures ParseLine(date + ";" + execTime + ";" + value, lineNumber, fileName, parseNumber)
            == Parsed(ValueRecord(fileName, TryParseDate(date).value, parseNumber(execTime).value,
                                  parseNumber(value).value, lineNumber))
  {
    SplitAtFirstTwo(date, execTime, value);
  }

  /** Nothing shorter than twenty characters is a date, so a line whose
      date field is, say, `bad_date` gets the date error. */
  lemma ShortLiteralRejected(date: string)
    requires |date| < 20
    ensures TryParseDate(date) == None
  {
    if TryParseDate(date).Some? {
      AcceptedLiteralLayout(date);
    }
  }

  /** A file whose data lines are all non-blank and all parse gives no
      error and, in order, the record of every line. */
  lemma {:induction false} AllLinesParsed(data: seq<string>, parseLine: LineParser)
    requires forall j :: 0 <= j < |data| ==> !IsBlank(data[j]) && parseLine(data[j], j + 2).Parsed?
    ensures ParseDataLines(data, parseLine).errors == []
    ensures |ParseDataLines(data, parseLine).values| == |data|
    ensures forall j :: 0 <= j < |data| ==>
              ParseDataLines(data, parseLine).values[j] == parseLine(data[j], j + 2).record
  {
    if data != [] {
      var init := data[..|data| - 1];
      AllLinesParsed(init, parseLine);
    }
  }

  /** The header's content is never inspected: any two non-blank headers
      give the same result. */
  lemma HeaderIgnored(h1: string, h2: string, data: seq<string>, fileName: string,
                      parseNumber: NumberParser)
    requires !IsBlank(h1) && !IsBlank(h2)
    ensures ParseLines([h1] + data, fileName, parseNumber)
            == ParseLines([h2] + data, fileName, parseNumber)
  {
    assert ([h1] + data)[1..] == data == ([h2] + data)[1..];
  }
}
