/** Recognition of the timestamp literals of a measurement file: the
    sixteen exact formats `yyyy-MM-ddTHH?mm?ss[.f…]Z`, tried in a fixed
    order, where `?` is `-` in the first eight and `:` in the last eight
    and the fraction has 7, 6, …, 1 or no digits. A literal that matches is
    read as UTC. The colon formats are the `date-time` production of
    section 5.6 of RFC 3339 restricted to the `Z` offset and at most seven
    fraction digits; the hyphen formats are a local variant. */
module DateFormats {
  import opened Results
  import opened Calendar

  datatype TimeSeparator = Hyphen | Colon

  /** One exact format: the separator between hour, minute and second and
      the number of fraction digits (0 means no fraction and no '.'). */
  datatype DateFormat = DateFormat(separator: TimeSeparator, fractionDigits: nat)

  /** The formats in the order the parser tries them. */
  const DateFormatList: seq<DateFormat> := [
    DateFormat(Hyphen, 7), DateFormat(Hyphen, 6), DateFormat(Hyphen, 5), DateFormat(Hyphen, 4),
    DateFormat(Hyphen, 3), DateFormat(Hyphen, 2), DateFormat(Hyphen, 1), DateFormat(Hyphen, 0),
    DateFormat(Colon, 7), DateFormat(Colon, 6), DateFormat(Colon, 5), DateFormat(Colon, 4),
    DateFormat(Colon, 3), DateFormat(Colon, 2), DateFormat(Colon, 1), DateFormat(Colon, 0)
  ]

  function SeparatorChar(sep: TimeSeparator): char {
    match sep
    case Hyphen => '-'
    case Colon => ':'
  }

  function Repeat(c: char, n: nat): (s: string)
    ensures |s| == n
  {
    seq(n, _ => c)
  }

  /** The .NET custom format string of a format. */
  function Pattern(f: DateFormat): string {
    var sep := [SeparatorChar(f.separator)];
    "yyyy-MM-ddTHH" + sep + "mm" + sep + "ss"
    + (if f.fractionDigits == 0 then "" else "." + Repeat('f', f.fractionDigits)) + "Z"
  }

  /** The sixteen format strings of the parser, in its order. */
  const SourcePatterns: seq<string> := [
    "yyyy-MM-ddTHH-mm-ss.fffffffZ", "yyyy-MM-ddTHH-mm-ss.ffffffZ",
    "yyyy-MM-ddTHH-mm-ss.fffffZ", "yyyy-MM-ddTHH-mm-ss.ffffZ",
    "yyyy-MM-ddTHH-mm-ss.fffZ", "yyyy-MM-ddTHH-mm-ss.ffZ",
    "yyyy-MM-ddTHH-mm-ss.fZ", "yyyy-MM-ddTHH-mm-ssZ",
    "yyyy-MM-ddTHH:mm:ss.fffffffZ", "yyyy-MM-ddTHH:mm:ss.ffffffZ",
    "yyyy-MM-ddTHH:mm:ss.fffffZ", "yyyy-MM-ddTHH:mm:ss.ffffZ",
    "yyyy-MM-ddTHH:mm:ss.fffZ", "yyyy-MM-ddTHH:mm:ss.ffZ",
    "yyyy-MM-ddTHH:mm:ss.fZ", "yyyy-MM-ddTHH:mm:ssZ"]

  /** The fraction letters of the patterns. */
  lemma FractionLetters()
    ensures Repeat('f', 1) == "f" && Repeat('f', 2) == "ff" && Repeat('f', 3) == "fff"
    ensures Repeat('f', 4) == "ffff" && Repeat('f', 5) == "fffff"
    ensures Repeat('f', 6) == "ffffff" && Repeat('f', 7) == "fffffff"
  {
    assert Repeat('f', 1) == "f";
    assert Repeat('f', 2) == "ff";
    assert Repeat('f', 3) == "fff";
    assert Repeat('f', 4) == "ffff";
    assert Repeat('f', 5) == "fffff";
    assert Repeat('f', 6) == "ffffff";
    assert Repeat('f', 7) == "fffffff";
  }

  /** The first eight formats above are the parser's first eight format
      strings, in the same order. */
  lemma HyphenPatternsAsDeclared()
    ensures |DateFormatList| == |SourcePatterns|
    ensures forall i :: 0 <= i < 8 ==> Pattern(DateFormatList[i]) == SourcePatterns[i]
  {
    FractionLetters();
  }

  /** The last eight formats above are the parser's last eight format
      strings, in the same order. */
  lemma ColonPatternsAsDeclared()
    ensures |DateFormatList| == |SourcePatterns|
    ensures forall i :: 8 <= i < 16 ==> Pattern(DateFormatList[i]) == SourcePatterns[i]
  {
    FractionLetters();
  }

  // ---------------------------------------------------------------------
  // Decimal digits

  predicate IsDigit(c: char) {
    '0' <= c <= '9'
  }

  predicate AllDigits(s: string) {
    forall i :: 0 <= i < |s| ==> IsDigit(s[i])
  }

  function Pow10(n: nat): (p: nat)
    ensures p >= 1
  {
    if n == 0 then 1 else 10 * Pow10(n - 1)
  }

  /** The number a run of decimal digits denotes. */
  function DigitsValue(s: string): (n: nat)
    requires AllDigits(s)
    ensures n < Pow10(|s|)
  {
    if s == [] then 0
    else DigitsValue(s[..|s| - 1]) * 10 + (s[|s| - 1] as int - '0' as int)
  }

  /** `n` written with exactly `width` decimal digits, leading zeros
      included. */
  function Digits(n: nat, width: nat): (s: string)
    ensures |s| == width && AllDigits(s)
  {
    if width == 0 then []
    else Digits(n / 10, width - 1) + [('0' as int + n % 10) as char]
  }

  /** Writing a number that fits in `width` digits and reading it back
      gives the number. */
  lemma {:induction false} DigitsRoundTrip(n: nat, width: nat)
    requires n < Pow10(width)
    ensures DigitsValue(Digits(n, width)) == n
  {
    if width > 0 {
      var s := Digits(n, width);
      DigitsRoundTrip(n / 10, width - 1);
      assert s[..|s| - 1] == Digits(n / 10, width - 1);
    }
  }

  /** Reading a run of digits and writing the number back with the same
      width gives the run: the other half of `DigitsRoundTrip`. */
  lemma {:induction false} DigitsOfValue(s: string)
    requires AllDigits(s)
    ensures Digits(DigitsValue(s), |s|) == s
  {
    if s != [] {
      var init := s[..|s| - 1];
      DigitsOfValue(init);
      var n := DigitsValue(s);
      assert n / 10 == DigitsValue(init) && n % 10 == s[|s| - 1] as int - '0' as int;
      assert s == init + [s[|s| - 1]];
    }
  }

  lemma {:induction false} Pow10Add(a: nat, b: nat)
    ensures Pow10(a + b) == Pow10(a) * Pow10(b)
  {
    if a > 0 {
      Pow10Add(a - 1, b);
    }
  }

  // ---------------------------------------------------------------------
  // Matching one exact format

  /** Length of a literal in format `f`. */
  function LiteralLength(f: DateFormat): nat {
    if f.fractionDigits == 0 then 20 else 21 + f.fractionDigits
  }

  /** The literal has the character layout of `f`: digits where the
      pattern has a digit letter, the literal characters `-`, `T`, the
      time separator, `.` and `Z` elsewhere, and nothing more. */
  predicate HasShape(s: string, f: DateFormat) {
    var sep := SeparatorChar(f.separator);
    var d := f.fractionDigits;
    && d <= 7
    && |s| == LiteralLength(f)
    && AllDigits(s[0..4]) && s[4] == '-' && AllDigits(s[5..7]) && s[7] == '-'
    && AllDigits(s[8..10]) && s[10] == 'T'
    && AllDigits(s[11..13]) && s[13] == sep && AllDigits(s[14..16]) && s[16] == sep
    && AllDigits(s[17..19])
    && (d > 0 ==> s[19] == '.' && AllDigits(s[20..20 + d]))
    && s[|s| - 1] == 'Z'
  }

  /** The calendar fields a literal of shape `f` spells; the fraction is
      scaled to ticks (seven digits). */
  function Fields(s: string, f: DateFormat): CivilTime
    requires HasShape(s, f)
  {
    var d := f.fractionDigits;
    CivilTime(DigitsValue(s[0..4]), DigitsValue(s[5..7]), DigitsValue(s[8..10]),
              DigitsValue(s[11..13]), DigitsValue(s[14..16]), DigitsValue(s[17..19]),
              if d == 0 then 0 else DigitsValue(s[20..20 + d]) * Pow10(7 - d))
  }

  /** `DateTime.TryParseExact` with one format: the literal has the
      format's shape and spells a date-time that exists. */
  function MatchFormat(s: string, f: DateFormat): (r: Option<CivilTime>)
    ensures r.Some? ==> HasShape(s, f) && ValidTime(r.value)
  {
    if HasShape(s, f) && ValidTime(Fields(s, f)) then Some(Fields(s, f)) else None
  }

  /** `DateTime.TryParseExact` with a list of formats: the result of the
      first format that matches. */
  function TryParseExact(s: string, formats: seq<DateFormat>): (r: Option<CivilTime>)
    ensures r.None? <==> forall i :: 0 <= i < |formats| ==> MatchFormat(s, formats[i]).None?
    ensures r.Some? ==> exists i :: 0 <= i < |formats| && MatchFormat(s, formats[i]) == r
                          && forall j :: 0 <= j < i ==> MatchFormat(s, formats[j]).None?
  {
    if formats == [] then None
    else match MatchFormat(s, formats[0])
      case Some(t) => Some(t)
      case None =>
        TryParseExact(s, formats[1..])
  }

  /** `TryParseDate`: the timestamp of a literal in one of the sixteen
      formats, read as UTC, as a tick count. */
  function TryParseDate(s: string): Option<int> {
    match TryParseExact(s, DateFormatList)
    case Some(t) => Some(Ticks(t))
    case None => None
  }

  // ---------------------------------------------------------------------
  // Properties

  /** No literal has two shapes: its length fixes the fraction digits and
      its fourteenth character fixes the separator. So the order in which
      the formats are tried never changes the result. */
  lemma ShapeDeterminesFormat(s: string, f: DateFormat, g: DateFormat)
    requires HasShape(s, f) && HasShape(s, g)
    ensures f == g
  {
    assert f.fractionDigits == g.fractionDigits;
    assert SeparatorChar(f.separator) == SeparatorChar(g.separator);
  }

  /** A literal is accepted exactly when one of the sixteen formats
      matches it, and then it has that format's layout and its value is
      that format's reading. */
  lemma AcceptedIffSomeFormatMatches(s: string)
    ensures TryParseDate(s).Some? <==> exists f :: f in DateFormatList && MatchFormat(s, f).Some?
    ensures forall f :: f in DateFormatList && MatchFormat(s, f).Some? ==>
              HasShape(s, f) && TryParseDate(s) == Some(Ticks(MatchFormat(s, f).value))
  {
    var r := TryParseExact(s, DateFormatList);
    if r.Some? {
      var i :| 0 <= i < |DateFormatList| && MatchFormat(s, DateFormatList[i]) == r;
      forall f | f in DateFormatList && MatchFormat(s, f).Some?
        ensures TryParseDate(s) == Some(Ticks(MatchFormat(s, f).value))
      {
        ShapeDeterminesFormat(s, f, DateFormatList[i]);
      }
    } else {
      forall f | f in DateFormatList ensures MatchFormat(s, f).None? {
        var k :| 0 <= k < |DateFormatList| && DateFormatList[k] == f;
      }
    }
  }

  /** An accepted literal ends in `Z`, has `T` between date and time and
      the same separator, `-` or `:`, twice within the time. */
  lemma AcceptedLiteralLayout(s: string)
    requires TryParseDate(s).Some?
    ensures 20 <= |s| <= 28 && |s| != 21
    ensures s[4] == '-' && s[7] == '-' && s[10] == 'T' && s[|s| - 1] == 'Z'
    ensures s[13] == s[16] && (s[13] == '-' || s[13] == ':')
  {
    AcceptedIffSomeFormatMatches(s);
    var f :| f in DateFormatList && MatchFormat(s, f).Some?;
  }

  /** A date-time written out in format `f`: four-digit year, two-digit
      fields, the fraction truncated to `f`'s digits. */
  function Render(t: CivilTime, f: DateFormat): string
    requires ValidTime(t) && f.fractionDigits <= 7
  {
    DatePart(t) + TimePart(t, SeparatorChar(f.separator)) + FractionPart(t, f.fractionDigits) + "Z"
  }

  function DatePart(t: CivilTime): string
    requires ValidTime(t)
  {
    Digits(t.year, 4) + "-" + Digits(t.month, 2) + "-" + Digits(t.day, 2) + "T"
  }

  function TimePart(t: CivilTime, sep: char): string
    requires ValidTime(t)
  {
    Digits(t.hour, 2) + [sep] + Digits(t.minute, 2) + [sep] + Digits(t.second, 2)
  }

  function FractionPart(t: CivilTime, d: nat): string
    requires ValidTime(t) && d <= 7
  {
    if d == 0 then "" else "." + FractionDigits(t.fraction, d)
  }

  /** The first `d` of the seven digits of a fraction of a second. */
  function FractionDigits(fraction: nat, d: nat): (s: string)
    requires d <= 7
    ensures |s| == d && AllDigits(s)
  {
    var scale := Pow10(7 - d);
    QuotientNonNegative(fraction, scale);
    Digits(fraction / scale, d)
  }

  /** Dividing a natural number by a positive one leaves a natural number. */
  lemma QuotientNonNegative(a: nat, b: nat)
    requires b > 0
    ensures a / b >= 0
  {
  }

  /** Where each piece of a literal assembled from pieces of the right
      lengths ends up. */
  lemma AssembledLayout(y: string, mo: string, d: string, h: string, mi: string, se: string,
                        sep: char, frac: string)
    requires |y| == 4 && |mo| == 2 && |d| == 2 && |h| == 2 && |mi| == 2 && |se| == 2
    ensures var s := (y + "-" + mo + "-" + d + "T") + (h + [sep] + mi + [sep] + se) + frac + "Z";
      && |s| == 20 + |frac|
      && s[0..4] == y && s[4] == '-' && s[5..7] == mo && s[7] == '-' && s[8..10] == d
      && s[10] == 'T' && s[11..13] == h && s[13] == sep && s[14..16] == mi && s[16] == sep
      && s[17..19] == se && s[19..19 + |frac|] == frac && s[|s| - 1] == 'Z'
  {
    var a := y + "-" + mo + "-" + d + "T";
    var b := h + [sep] + mi + [sep] + se;
    var s := a + b + frac + "Z";
    assert s[..11] == a;
    assert s[11..19] == b;
    assert s[19..19 + |frac|] == frac;
    assert a[0..4] == y && a[5..7] == mo && a[8..10] == d;
    assert b[0..2] == h && b[3..5] == mi && b[6..8] == se;
  }

  /** `s` holds the fields of `t` at the positions format `f` gives
      them. */
  predicate LaidOut(s: string, t: CivilTime, f: DateFormat)
    requires ValidTime(t) && f.fractionDigits <= 7
  {
    var sep := SeparatorChar(f.separator);
    var d := f.fractionDigits;
    && |s| == LiteralLength(f)
    && s[0..4] == Digits(t.year, 4) && s[4] == '-' && s[5..7] == Digits(t.month, 2)
    && s[7] == '-' && s[8..10] == Digits(t.day, 2) && s[10] == 'T'
    && s[11..13] == Digits(t.hour, 2) && s[13] == sep
    && s[14..16] == Digits(t.minute, 2) && s[16] == sep
    && s[17..19] == Digits(t.second, 2) && s[|s| - 1] == 'Z'
    && (d > 0 ==> s[19] == '.' && s[20..20 + d] == FractionDigits(t.fraction, d))
  }

  /** The pieces of a rendered literal sit where its format expects
      them. */
  lemma RenderLayout(t: CivilTime, f: DateFormat)
    requires ValidTime(t) && f.fractionDigits <= 7
    ensures LaidOut(Render(t, f), t, f)
  {
    var frac := FractionPart(t, f.fractionDigits);
    AssembledLayout(Digits(t.year, 4), Digits(t.month, 2), Digits(t.day, 2), Digits(t.hour, 2),
                    Digits(t.minute, 2), Digits(t.second, 2), SeparatorChar(f.separator), frac);
    var s := Render(t, f);
    if f.fractionDigits > 0 {
      assert s[20..20 + f.fractionDigits] == s[19..19 + |frac|][1..];
    }
  }

  /** A fraction of a second that fits in `d` digits survives being
      written with `d` digits and scaled back to ticks. */
  lemma FractionRoundTrip(fraction: nat, d: nat)
    requires 0 < d <= 7 && fraction < TicksPerSecond && fraction % Pow10(7 - d) == 0
    ensures DigitsValue(FractionDigits(fraction, d)) * Pow10(7 - d) == fraction
  {
    var p := Pow10(7 - d);
    var q := fraction / p;
    Pow10Add(d, 7 - d);
    assert Pow10(7) == TicksPerSecond;
    assert q * p == fraction;
    assert q < Pow10(d);
    DigitsRoundTrip(q, d);
  }

  /** A literal laid out from a date-time has its format's shape. */
  lemma LaidOutShape(s: string, t: CivilTime, f: DateFormat)
    requires ValidTime(t) && f.fractionDigits <= 7 && LaidOut(s, t, f)
    ensures HasShape(s, f)
  {
  }

  /** The date digits of a laid-out literal read back as the date. */
  lemma LaidOutDateFields(s: string, t: CivilTime, f: DateFormat)
    requires ValidTime(t) && f.fractionDigits <= 7 && LaidOut(s, t, f)
    ensures DigitsValue(s[0..4]) == t.year && DigitsValue(s[5..7]) == t.month
    ensures DigitsValue(s[8..10]) == t.day
  {
    DigitsRoundTrip(t.year, 4);
    DigitsRoundTrip(t.month, 2);
    DigitsRoundTrip(t.day, 2);
  }

  /** The time digits of a laid-out literal read back as the time of
      day. */
  lemma LaidOutTimeFields(s: string, t: CivilTime, f: DateFormat)
    requires ValidTime(t) && f.fractionDigits <= 7 && LaidOut(s, t, f)
    ensures DigitsValue(s[11..13]) == t.hour && DigitsValue(s[14..16]) == t.minute
    ensures DigitsValue(s[17..19]) == t.second
  {
    DigitsRoundTrip(t.hour, 2);
    DigitsRoundTrip(t.minute, 2);
    DigitsRoundTrip(t.second, 2);
  }

  /** The fraction digits of a laid-out literal, scaled to ticks, read
      back as the fraction when the format's digits hold all of it. */
  lemma LaidOutFraction(s: string, t: CivilTime, f: DateFormat)
    requires ValidTime(t) && f.fractionDigits <= 7 && LaidOut(s, t, f)
    requires t.fraction % Pow10(7 - f.fractionDigits) == 0
    ensures var d := f.fractionDigits;
      (if d == 0 then 0 else DigitsValue(s[20..20 + d]) * Pow10(7 - d)) == t.fraction
  {
    var d := f.fractionDigits;
    if d == 0 {
      assert Pow10(7) == TicksPerSecond;
    } else {
      FractionRoundTrip(t.fraction, d);
    }
  }

  /** A literal laid out from a date-time spells that date-time, when the
      format's fraction digits hold the whole fraction. */
  lemma LaidOutFields(s: string, t: CivilTime, f: DateFormat)
    requires ValidTime(t) && f.fractionDigits <= 7 && LaidOut(s, t, f)
    requires t.fraction % Pow10(7 - f.fractionDigits) == 0
    ensures HasShape(s, f) && Fields(s, f) == t
  {
    LaidOutShape(s, t, f);
    LaidOutDateFields(s, t, f);
    LaidOutTimeFields(s, t, f);
    LaidOutFraction(s, t, f);
  }

  /** Rendering a valid date-time in any of the sixteen formats and
      parsing the literal gives back its instant, provided the format has
      enough fraction digits to hold its fraction. */
  lemma RenderThenParse(t: CivilTime, f: DateFormat)
    requires ValidTime(t) && f in DateFormatList
    requires t.fraction % Pow10(7 - f.fractionDigits) == 0
    ensures TryParseDate(Render(t, f)) == Some(Ticks(t))
  {
    RenderLayout(t, f);
    LaidOutFields(Render(t, f), t, f);
    assert MatchFormat(Render(t, f), f) == Some(t);
    AcceptedIffSomeFormatMatches(Render(t, f));
  }

  /** The date digits of a literal of shape `f` are the date it spells,
      written back. */
  lemma ShapedDateDigits(s: string, f: DateFormat)
    requires HasShape(s, f)
    ensures s[0..4] == Digits(Fields(s, f).year, 4) && s[5..7] == Digits(Fields(s, f).month, 2)
    ensures s[8..10] == Digits(Fields(s, f).day, 2)
  {
    DigitsOfValue(s[0..4]);
    DigitsOfValue(s[5..7]);
    DigitsOfValue(s[8..10]);
  }

  /** The time digits of a literal of shape `f` are the time it spells,
      written back. */
  lemma ShapedTimeDigits(s: string, f: DateFormat)
    requires HasShape(s, f)
    ensures s[11..13] == Digits(Fields(s, f).hour, 2) && s[14..16] == Digits(Fields(s, f).minute, 2)
    ensures s[17..19] == Digits(Fields(s, f).second, 2)
  {
    DigitsOfValue(s[11..13]);
    DigitsOfValue(s[14..16]);
    DigitsOfValue(s[17..19]);
  }

  /** The fraction digits of a literal of shape `f` are the fraction it
      spells, written back. */
  lemma ShapedFractionDigits(s: string, f: DateFormat)
    requires HasShape(s, f) && f.fractionDigits > 0
    ensures s[20..20 + f.fractionDigits] == FractionDigits(Fields(s, f).fraction, f.fractionDigits)
  {
    var d := f.fractionDigits;
    var q := DigitsValue(s[20..20 + d]);
    var p := Pow10(7 - d);
    assert Fields(s, f).fraction == q * p;
    ScaleBack(q, p);
    DigitsOfValue(s[20..20 + d]);
  }

  lemma ScaleBack(q: nat, p: nat)
    requires p > 0
    ensures q * p / p == q
  {
    var r := q * p / p;
    var m := q * p % p;
    assert q * p == r * p + m && 0 <= m < p;
    assert (q - r) * p == m;
    if q - r >= 1 {
      assert false;
    } else if q - r <= -1 {
      assert false;
    }
  }

  /** The fields a matched literal spells sit where its format expects
      them. */
  lemma MatchedLiteralLaidOut(s: string, f: DateFormat)
    requires MatchFormat(s, f).Some?
    ensures LaidOut(s, MatchFormat(s, f).value, f)
  {
    assert MatchFormat(s, f).value == Fields(s, f);
    ShapedDateDigits(s, f);
    ShapedTimeDigits(s, f);
    if f.fractionDigits > 0 {
      ShapedFractionDigits(s, f);
    }
  }

  /** Two literals that hold the same fields at the same positions are
      the same literal. */
  lemma LaidOutUnique(s1: string, s2: string, t: CivilTime, f: DateFormat)
    requires ValidTime(t) && f.fractionDigits <= 7
    requires LaidOut(s1, t, f) && LaidOut(s2, t, f)
    ensures s1 == s2
  {
    var d := f.fractionDigits;
    forall i | 0 <= i < |s1| ensures s1[i] == s2[i] {
      if i < 4 { assert s1[0..4][i] == s2[0..4][i]; }
      else if 5 <= i < 7 { assert s1[5..7][i - 5] == s2[5..7][i - 5]; }
      else if 8 <= i < 10 { assert s1[8..10][i - 8] == s2[8..10][i - 8]; }
      else if 11 <= i < 13 { assert s1[11..13][i - 11] == s2[11..13][i - 11]; }
      else if 14 <= i < 16 { assert s1[14..16][i - 14] == s2[14..16][i - 14]; }
      else if 17 <= i < 19 { assert s1[17..19][i - 17] == s2[17..19][i - 17]; }
      else if 20 <= i < 20 + d { assert s1[20..20 + d][i - 20] == s2[20..20 + d][i - 20]; }
    }
  }

  /** A literal a format accepts is exactly the rendering, in that
      format, of the date-time it denotes: parsing is exact, nothing is
      skipped or normalised. */
  lemma ParseThenRender(s: string, f: DateFormat)
    requires MatchFormat(s, f).Some?
    ensures Render(MatchFormat(s, f).value, f) == s
  {
    var t := MatchFormat(s, f).value;
    MatchedLiteralLaidOut(s, f);
    RenderLayout(t, f);
    LaidOutUnique(Render(t, f), s, t, f);
  }
}
