/**
 * The scrapers' text normalisers: file-name sanitising, the date in a file name, the two
 * lines of a score cell, start-number cleaning and the pair of output file names of one
 * Slow/Fast round. `wrrc_openmarkings.py` and `scrape_ff.py` carry identical copies of the
 * first three; one model serves both.
 */
module Filenames {
  import opened Optional
  import opened Text
  import Numbers
  import Sorting
  import Rounds

  // ---------------------------------------------------------------------------------------
  // runs of one character

  /** No two `c` in a row. */
  predicate NoRepeat(s: string, c: char) {
    forall k :: 0 <= k < |s| - 1 ==> !(s[k] == c && s[k + 1] == c)
  }

  /** `re.sub('[c]+', c, s)`: every run of `c` becomes a single `c`. */
  function Squeeze(s: string, c: char): (r: string)
    ensures |r| <= |s|
    ensures s != [] ==> r != [] && r[0] == s[0]
    ensures forall x :: x in r ==> x in s
    ensures NoRepeat(r, c)
    decreases |s|
  {
    if s == [] then []
    else if |s| >= 2 && s[0] == c && s[1] == c then Squeeze(s[1..], c)
    else
      assert forall x :: x in s[1..] ==> x in s;
      [s[0]] + Squeeze(s[1..], c)
  }

  /** Squeezing removes only copies of `c`. */
  lemma {:induction false} SqueezeKeeps(s: string, c: char, x: char)
    requires x in s && x != c
    ensures x in Squeeze(s, c)
    decreases |s|
  {
    if s[0] != x {
      assert x in s[1..];
      SqueezeKeeps(s[1..], c, x);
    }
  }

  /** Squeezing one character cannot put two copies of another side by side. */
  lemma {:induction false} SqueezeNoRepeat(s: string, c: char, d: char)
    requires d != c && NoRepeat(s, d)
    ensures NoRepeat(Squeeze(s, c), d)
    decreases |s|
  {
    if s != [] {
      assert NoRepeat(s[1..], d);
      SqueezeNoRepeat(s[1..], c, d);
    }
  }

  /** A string without a repeated `c` is left as it is. */
  lemma {:induction false} SqueezeNoop(s: string, c: char)
    requires NoRepeat(s, c)
    ensures Squeeze(s, c) == s
    decreases |s|
  {
    if s != [] {
      assert NoRepeat(s[1..], c);
      SqueezeNoop(s[1..], c);
    }
  }

  lemma NoRepeatSlice(s: string, c: char, i: nat, j: nat)
    requires NoRepeat(s, c) && i <= j <= |s|
    ensures NoRepeat(s[i..j], c)
  {
    assert forall k :: 0 <= k < j - i ==> s[i..j][k] == s[i + k];
  }

  lemma StripBySlice(s: string, drop: char -> bool) returns (i: nat, j: nat)
    ensures i <= j <= |s| && StripBy(s, drop) == s[i..j]
  {
    var a := LeadCount(s, drop);
    var t := s[a..];
    i, j := a, a + (|t| - TrailCount(t, drop));
  }

  /** Filtering keeps every character that satisfies the filter. */
  lemma {:induction false} FilterKeeps(s: string, keep: char -> bool, x: char)
    requires x in s && keep(x)
    ensures x in Filter(s, keep)
    decreases |s|
  {
    if s[0] != x {
      assert x in s[1..];
      FilterKeeps(s[1..], keep, x);
    }
  }

  // ---------------------------------------------------------------------------------------
  // sanitize_filename

  /** The characters dropped as invalid on Windows or Unix file systems. */
  predicate Invalid(c: char) {
    c in "<>:\"|?*\\/"
  }

  predicate Valid(c: char) {
    !Invalid(c)
  }

  predicate WordOrHyphen(c: char) {
    IsWordChar(c) || c == '-'
  }

  /** The two joiners stripped from both ends. */
  predicate Joiner(c: char) {
    c == '-' || c == '_'
  }

  /** A word character other than the underscore: a letter or a digit. */
  predicate IsAlnum(c: char) {
    IsWordChar(c) && c != '_'
  }

  /** Only word characters and hyphens: what a sanitised field may contain. */
  predicate FileSafe(s: string) {
    forall k :: 0 <= k < |s| ==> WordOrHyphen(s[k])
  }

  const MaxField: nat := 100
  const UnknownField: string := "Unknown"

  /** ASCII letters and underscores, which every literal piece of a file name is made of. */
  predicate Plain(c: char) {
    IsAsciiLetter(c) || c == '_'
  }

  lemma LiteralsSafe()
    ensures FileSafe(UnknownField) && FileSafe("results_") && FileSafe("_")
  {
    assert forall k :: 0 <= k < |UnknownField| ==> Plain(UnknownField[k]);
    assert forall k :: 0 <= k < 8 ==> Plain("results_"[k]);
  }

  /** What the space becomes: a hyphen inside a field, an underscore between fields. */
  function SpaceFor(useHyphens: bool): char {
    if useHyphens then '-' else '_'
  }

  /** The separators replaced, the invalid and non-word characters dropped. */
  function Separated(text: string, useHyphens: bool): string {
    ReplaceChar(ReplaceChar(ReplaceChar(text, ' ', SpaceFor(useHyphens)), '/', '-'), '\\', '-')
  }

  function WordsOnly(text: string, useHyphens: bool): string {
    Filter(Filter(Separated(text, useHyphens), Valid), WordOrHyphen)
  }

  /** The sanitiser before the length cut: runs of joiners collapsed, joiners stripped off the ends. */
  function Cleaned(text: string, useHyphens: bool): string {
    StripBy(Squeeze(Squeeze(WordsOnly(text, useHyphens), '-'), '_'), Joiner)
  }

  lemma CleanedShape(text: string, useHyphens: bool)
    ensures FileSafe(Cleaned(text, useHyphens))
    ensures NoRepeat(Cleaned(text, useHyphens), '-') && NoRepeat(Cleaned(text, useHyphens), '_')
    ensures Cleaned(text, useHyphens) == [] || !Joiner(Cleaned(text, useHyphens)[0])
  {
    var words := WordsOnly(text, useHyphens);
    var single := Squeeze(Squeeze(words, '-'), '_');
    SqueezeNoRepeat(Squeeze(words, '-'), '_', '-');
    StripByChars(single, Joiner);
    var i, j := StripBySlice(single, Joiner);
    NoRepeatSlice(single, '-', i, j);
    NoRepeatSlice(single, '_', i, j);
    var r := Cleaned(text, useHyphens);
    forall k | 0 <= k < |r| ensures WordOrHyphen(r[k]) {
      assert r[k] in single;
      assert r[k] in words;
    }
  }

  /** `sanitize_filename`: never empty and at most 100 characters. */
  function SanitizeFilename(text: string, useHyphens: bool): (r: string)
    ensures r != [] && |r| <= MaxField
  {
    if text == [] then UnknownField
    else
      var cleaned := Cleaned(text, useHyphens);
      var cut := if |cleaned| > MaxField then cleaned[..MaxField] else cleaned;
      if cut == [] then UnknownField else cut
  }

  /**
   * A sanitised field has only word characters and hyphens, no doubled hyphen or underscore,
   * and does not start with either.
   */
  lemma SanitizedShape(text: string, useHyphens: bool)
    ensures var r := SanitizeFilename(text, useHyphens);
      FileSafe(r) && NoRepeat(r, '-') && NoRepeat(r, '_') && !Joiner(r[0])
  {
    LiteralsSafe();
    if text != [] {
      var cleaned := Cleaned(text, useHyphens);
      CleanedShape(text, useHyphens);
      var cut := if |cleaned| > MaxField then cleaned[..MaxField] else cleaned;
      NoRepeatSlice(cleaned, '-', 0, |cut|);
      NoRepeatSlice(cleaned, '_', 0, |cut|);
    }
  }

  /** Every character of the separated text is one of the text's own or a joiner put in. */
  lemma SeparatedChars(text: string, useHyphens: bool, x: char)
    requires x in Separated(text, useHyphens)
    ensures x in text || Joiner(x)
  {
  }

  /** A letter or digit of the text survives into the cleaned text. */
  lemma AlnumSurvives(text: string, useHyphens: bool, k: nat)
    requires k < |text| && IsAlnum(text[k])
    ensures Cleaned(text, useHyphens) != []
  {
    var x := text[k];
    var separated := Separated(text, useHyphens);
    assert separated[k] == x;
    FilterKeeps(separated, Valid, x);
    FilterKeeps(Filter(separated, Valid), WordOrHyphen, x);
    var words := WordsOnly(text, useHyphens);
    SqueezeKeeps(words, '-', x);
    SqueezeKeeps(Squeeze(words, '-'), '_', x);
    var single := Squeeze(Squeeze(words, '-'), '_');
    var m :| 0 <= m < |single| && single[m] == x;
    StripByEmpty(single, Joiner);
  }

  /** The cleaned text is empty exactly when the text has no letter and no digit. */
  lemma CleanedEmpty(text: string, useHyphens: bool)
    ensures Cleaned(text, useHyphens) == [] <==> forall k :: 0 <= k < |text| ==> !IsAlnum(text[k])
  {
    if exists k :: 0 <= k < |text| && IsAlnum(text[k]) {
      var k :| 0 <= k < |text| && IsAlnum(text[k]);
      AlnumSurvives(text, useHyphens, k);
    } else {
      var words := WordsOnly(text, useHyphens);
      var single := Squeeze(Squeeze(words, '-'), '_');
      forall m | 0 <= m < |single| ensures Joiner(single[m]) {
        var x := single[m];
        assert x in words;
        assert x in Filter(Separated(text, useHyphens), Valid);
        SeparatedChars(text, useHyphens, x);
      }
      StripByEmpty(single, Joiner);
    }
  }

  /** A text without a letter or a digit (empty, blank, punctuation only) becomes "Unknown". */
  lemma SanitizeUnknown(text: string, useHyphens: bool)
    requires forall k :: 0 <= k < |text| ==> !IsAlnum(text[k])
    ensures SanitizeFilename(text, useHyphens) == UnknownField
  {
    CleanedEmpty(text, useHyphens);
  }

  /** Words of letters and digits separated by single spaces, short enough for one field. */
  ghost predicate PlainWords(text: string) {
    && 0 < |text| <= MaxField
    && (forall k :: 0 <= k < |text| ==> IsAlnum(text[k]) || text[k] == ' ')
    && IsAlnum(text[0]) && IsAlnum(text[|text| - 1])
    && (forall k :: 0 <= k < |text| - 1 ==> !(text[k] == ' ' && text[k + 1] == ' '))
  }

  /** Replacing the single spaces of plain words makes no run of joiners. */
  lemma PlainSpaced(text: string, useHyphens: bool, c: char)
    requires PlainWords(text) && Joiner(c)
    ensures NoRepeat(ReplaceChar(text, ' ', SpaceFor(useHyphens)), c)
  {
    var spaced := ReplaceChar(text, ' ', SpaceFor(useHyphens));
    forall k | 0 <= k < |spaced| - 1 ensures !(spaced[k] == c && spaced[k + 1] == c) {
      assert IsAlnum(text[k]) || text[k] == ' ';
      assert IsAlnum(text[k + 1]) || text[k + 1] == ' ';
    }
  }

  /** Plain words lose no character to the two filters. */
  lemma PlainWordsKept(text: string, useHyphens: bool)
    requires PlainWords(text)
    ensures WordsOnly(text, useHyphens) == ReplaceChar(text, ' ', SpaceFor(useHyphens))
  {
    var spaced := ReplaceChar(text, ' ', SpaceFor(useHyphens));
    assert Separated(text, useHyphens) == spaced;
    forall k | 0 <= k < |spaced| ensures Valid(spaced[k]) && WordOrHyphen(spaced[k]) {
      assert IsAlnum(text[k]) || text[k] == ' ';
    }
    Numbers.FilterKeepsAll(spaced, Valid);
    Numbers.FilterKeepsAll(spaced, WordOrHyphen);
  }

  /** Plain words have no run of joiners to collapse and none at either end. */
  lemma PlainWordsClean(text: string, useHyphens: bool)
    requires PlainWords(text)
    ensures Cleaned(text, useHyphens) == ReplaceChar(text, ' ', SpaceFor(useHyphens))
  {
    var spaced := ReplaceChar(text, ' ', SpaceFor(useHyphens));
    PlainWordsKept(text, useHyphens);
    PlainSpaced(text, useHyphens, '-');
    PlainSpaced(text, useHyphens, '_');
    SqueezeNoop(spaced, '-');
    SqueezeNoop(spaced, '_');
    assert !Joiner(spaced[0]) && !Joiner(spaced[|spaced| - 1]);
    StripByNoop(spaced, Joiner);
  }

  /** Plain words only have their spaces replaced, by '-' or by '_'. */
  lemma SanitizePlainWords(text: string, useHyphens: bool)
    requires PlainWords(text)
    ensures SanitizeFilename(text, useHyphens) == ReplaceChar(text, ' ', SpaceFor(useHyphens))
  {
    PlainWordsClean(text, useHyphens);
  }

  // ---------------------------------------------------------------------------------------
  // format_date_for_filename

  predicate IsDateSep(c: char) {
    c == '.' || c == '-' || c == '/'
  }

  /**
   * Where a one- or two-digit field starting at `i` and the separator after it end
   * (`\d{1,2}[.\-/]`): two digits are tried first, then one, as the regex engine backtracks.
   * The result is the separator's position.
   */
  function FieldEnd(s: string, i: nat): (r: Option<nat>)
    ensures r.Some? ==> i < r.value <= i + 2 && r.value < |s|
  {
    if i + 2 < |s| && IsDigit(s[i]) && IsDigit(s[i + 1]) && IsDateSep(s[i + 2]) then Some(i + 2)
    else if i + 1 < |s| && IsDigit(s[i]) && IsDateSep(s[i + 1]) then Some(i + 1)
    else None
  }

  datatype DateParts = DateParts(day: string, month: string, year: string)

  /** `re.match(r'(\d{1,2})[.\-/](\d{1,2})[.\-/](\d{n})', s)`: day, month and year at the start of `s`. */
  function MatchDate(s: string, n: nat): (r: Option<DateParts>)
    ensures r.Some? ==> 1 <= |r.value.day| <= 2 && 1 <= |r.value.month| <= 2 && |r.value.year| == n
  {
    match FieldEnd(s, 0)
    case None => None
    case Some(d) =>
      match FieldEnd(s, d + 1)
      case None => None
      case Some(m) =>
        if m + 1 + n <= |s| && (forall k :: m + 1 <= k < m + 1 + n ==> IsDigit(s[k])) then
          Some(DateParts(s[..d], s[d + 1..m], s[m + 1..m + 1 + n]))
        else None
  }

  /** `s.zfill(2)` for a one- or two-digit field. */
  function Pad2(s: string): (r: string)
    requires 1 <= |s| <= 2
    ensures |r| == 2 && r[2 - |s|..] == s
  {
    if |s| == 1 then "0" + s else s
  }

  /** Day, month and year as "DD-MM-YY". */
  ghost predicate ShortDate(r: string) {
    && |r| == 8 && r[2] == '-' && r[5] == '-'
    && IsDigit(r[0]) && IsDigit(r[1]) && IsDigit(r[3]) && IsDigit(r[4]) && IsDigit(r[6]) && IsDigit(r[7])
  }

  /**
   * `format_date_for_filename`: a date at the start of the text as "DD-MM-YY" (the four-digit
   * year tried before the two-digit one), any other text sanitised, never an empty field.
   */
  function FormatDateForFilename(dateStr: string): (r: string)
    ensures r != []
  {
    if dateStr == [] then UnknownField
    else
      match MatchDate(dateStr, 4)
      case Some(p) => Pad2(p.day) + "-" + Pad2(p.month) + "-" + p.year[2..]
      case None =>
        match MatchDate(dateStr, 2)
        case Some(p) => Pad2(p.day) + "-" + Pad2(p.month) + "-" + p.year
        case None => SanitizeFilename(dateStr, true)
  }

  /** A matched date's fields are made of digits. */
  lemma MatchDateDigits(s: string, n: nat)
    requires MatchDate(s, n).Some?
    ensures var p := MatchDate(s, n).value;
      AllDigits(p.day) && AllDigits(p.month) && AllDigits(p.year)
  {
  }

  lemma Pad2Digits(s: string)
    requires 1 <= |s| <= 2 && AllDigits(s)
    ensures AllDigits(Pad2(s))
  {
  }

  /** A matched date comes out as "DD-MM-YY". */
  lemma DateShape(day: string, month: string, year: string)
    requires |day| == 2 && |month| == 2 && |year| == 2
    requires AllDigits(day) && AllDigits(month) && AllDigits(year)
    ensures ShortDate(day + "-" + month + "-" + year)
  {
  }

  lemma ShortDateSafe(r: string)
    requires ShortDate(r)
    ensures FileSafe(r)
  {
  }

  /** Padded digit fields with a two-digit year come out as "DD-MM-YY". */
  lemma PartsShape(day: string, month: string, year: string)
    requires 1 <= |day| <= 2 && 1 <= |month| <= 2 && |year| == 2
    requires AllDigits(day) && AllDigits(month) && AllDigits(year)
    ensures ShortDate(Pad2(day) + "-" + Pad2(month) + "-" + year)
  {
    Pad2Digits(day);
    Pad2Digits(month);
    DateShape(Pad2(day), Pad2(month), year);
  }

  lemma LastTwoDigits(year: string)
    requires |year| == 4 && AllDigits(year)
    ensures AllDigits(year[2..])
  {
    assert forall k :: 0 <= k < 2 ==> year[2..][k] == year[k + 2];
  }

  lemma LongDateShape(s: string)
    requires MatchDate(s, 4).Some?
    ensures ShortDate(FormatDateForFilename(s))
  {
    var p := MatchDate(s, 4).value;
    MatchDateDigits(s, 4);
    LastTwoDigits(p.year);
    PartsShape(p.day, p.month, p.year[2..]);
    LongCase(s);
  }

  lemma ShortDateShape(s: string)
    requires MatchDate(s, 4).None? && MatchDate(s, 2).Some?
    ensures ShortDate(FormatDateForFilename(s))
  {
    var p := MatchDate(s, 2).value;
    MatchDateDigits(s, 2);
    PartsShape(p.day, p.month, p.year);
    ShortCase(s);
  }

  /** Text that does not start with a date is sanitised as a hyphenated field. */
  lemma UndatedText(s: string)
    requires s != [] && MatchDate(s, 4).None? && MatchDate(s, 2).None?
    ensures FormatDateForFilename(s) == SanitizeFilename(s, true)
  {
  }

  /** The date field of a file name is file-safe too; a matched date has the "DD-MM-YY" shape. */
  lemma FormattedDateSafe(dateStr: string)
    ensures FileSafe(FormatDateForFilename(dateStr))
    ensures MatchDate(dateStr, 4).Some? || MatchDate(dateStr, 2).Some? ==> ShortDate(FormatDateForFilename(dateStr))
  {
    if MatchDate(dateStr, 4).Some? {
      LongDateShape(dateStr);
      ShortDateSafe(FormatDateForFilename(dateStr));
    } else if MatchDate(dateStr, 2).Some? {
      ShortDateShape(dateStr);
      ShortDateSafe(FormatDateForFilename(dateStr));
    } else if dateStr == [] {
      LiteralsSafe();
    } else {
      UndatedText(dateStr);
      SanitizedShape(dateStr, true);
    }
  }

  /** The pieces of a written date. */
  ghost predicate DateFields(d: string, s1: char, m: string, s2: char) {
    1 <= |d| <= 2 && AllDigits(d) && 1 <= |m| <= 2 && AllDigits(m) && IsDateSep(s1) && IsDateSep(s2)
  }

  lemma FieldEndOf(d: string, sep: char, rest: string, off: string)
    requires 1 <= |d| <= 2 && AllDigits(d) && IsDateSep(sep)
    ensures FieldEnd(off + d + [sep] + rest, |off|) == Some(|off| + |d|)
  {
    var s := off + d + [sep] + rest;
    assert s[|off|] == d[0];
    assert s[|off| + |d|] == sep;
    if |d| == 2 {
      assert s[|off| + 1] == d[1];
    }
  }

  /** Both fields with their separators are found. */
  lemma DateFieldEnds(d: string, s1: char, m: string, s2: char, tail: string)
    requires DateFields(d, s1, m, s2)
    ensures FieldEnd(d + [s1] + m + [s2] + tail, 0) == Some(|d|)
    ensures FieldEnd(d + [s1] + m + [s2] + tail, |d| + 1) == Some(|d| + 1 + |m|)
  {
    var s := d + [s1] + m + [s2] + tail;
    FieldEndOf(d, s1, m + [s2] + tail, []);
    assert [] + d + [s1] + (m + [s2] + tail) == s;
    FieldEndOf(m, s2, tail, d + [s1]);
  }

  /** The date's fields are found whatever follows the year. */
  lemma MatchDateOf(d: string, s1: char, m: string, s2: char, y: string, rest: string)
    requires DateFields(d, s1, m, s2) && AllDigits(y)
    ensures MatchDate(d + [s1] + m + [s2] + y + rest, |y|) == Some(DateParts(d, m, y))
  {
    var s := d + [s1] + m + [s2] + y + rest;
    DateFieldEnds(d, s1, m, s2, y + rest);
    assert d + [s1] + m + [s2] + (y + rest) == s;
    var e := |d| + 1 + |m|;
    assert s[..|d|] == d;
    assert s[|d| + 1..e] == m;
    assert s[e + 1..e + 1 + |y|] == y;
  }

  /** A date with a four-digit year: day and month padded, the last two digits of the year. */
  lemma FormatLongDate(d: string, s1: char, m: string, s2: char, y: string, rest: string)
    requires 1 <= |d| <= 2 && 1 <= |m| <= 2 && |y| == 4
    requires DateFields(d, s1, m, s2) && AllDigits(y)
    ensures FormatDateForFilename(d + [s1] + m + [s2] + y + rest) == Pad2(d) + "-" + Pad2(m) + "-" + y[2..]
  {
    MatchDateOf(d, s1, m, s2, y, rest);
    LongCase(d + [s1] + m + [s2] + y + rest);
  }

  lemma LongCase(s: string)
    requires MatchDate(s, 4).Some?
    ensures var p := MatchDate(s, 4).value;
      FormatDateForFilename(s) == Pad2(p.day) + "-" + Pad2(p.month) + "-" + p.year[2..]
  {
    assert FieldEnd(s, 0).Some?;
    assert s != [];
  }

  lemma ShortCase(s: string)
    requires MatchDate(s, 4).None? && MatchDate(s, 2).Some?
    ensures var p := MatchDate(s, 2).value;
      FormatDateForFilename(s) == Pad2(p.day) + "-" + Pad2(p.month) + "-" + p.year
  {
    assert FieldEnd(s, 0).Some?;
    assert s != [];
  }

  /** A date with a two-digit year that no further digits follow keeps its year. */
  lemma FormatShortDate(d: string, s1: char, m: string, s2: char, y: string, rest: string)
    requires 1 <= |d| <= 2 && 1 <= |m| <= 2 && |y| == 2
    requires DateFields(d, s1, m, s2) && AllDigits(y)
    requires !(|rest| >= 2 && IsDigit(rest[0]) && IsDigit(rest[1]))
    ensures FormatDateForFilename(d + [s1] + m + [s2] + y + rest) == Pad2(d) + "-" + Pad2(m) + "-" + y
  {
    var s := d + [s1] + m + [s2] + y + rest;
    MatchDateOf(d, s1, m, s2, y, rest);
    NoLongYear(d, s1, m, s2, y, rest);
    ShortCase(s);
  }

  lemma NoLongYear(d: string, s1: char, m: string, s2: char, y: string, rest: string)
    requires DateFields(d, s1, m, s2) && |y| == 2
    requires !(|rest| >= 2 && IsDigit(rest[0]) && IsDigit(rest[1]))
    ensures MatchDate(d + [s1] + m + [s2] + y + rest, 4).None?
  {
    var s := d + [s1] + m + [s2] + y + rest;
    DateFieldEnds(d, s1, m, s2, y + rest);
    assert s == d + [s1] + m + [s2] + (y + rest);
    var e := |d| + 1 + |m|;
    if |rest| >= 2 {
      assert s[e + 3] == rest[0] && s[e + 4] == rest[1];
    }
  }

  // ---------------------------------------------------------------------------------------
  // parse_score_cell, over the cell's text

  datatype ScoreCell = ScoreCell(aggregated: Option<string>, judgeScores: seq<string>)

  /** `[p.strip() for p in parts if p.strip()]`. */
  function KeptStripped(parts: seq<string>): (r: seq<string>)
    ensures |r| <= |parts|
    ensures forall k :: 0 <= k < |r| ==> r[k] != [] && Strip(r[k]) == r[k]
    decreases |parts|
  {
    if parts == [] then []
    else
      var t := Strip(parts[0]);
      StripByNoop(t, IsSpace);
      (if t != [] then [t] else []) + KeptStripped(parts[1..])
  }

  /** The parsed cell: its first non-blank line and the non-empty '|' pieces of its second. */
  function ScoreCellOf(cellText: string): ScoreCell {
    if Strip(cellText) == [] then ScoreCell(None, [])
    else
      var lines := KeptStripped(SplitOn(cellText, "\n"));
      var aggregated := if lines != [] then Some(Strip(lines[0])) else None;
      var judgeScores := if |lines| > 1 then KeptStripped(SplitOn(lines[1], "|")) else [];
      ScoreCell(aggregated, judgeScores)
  }

  method ParseScoreCell(cellText: string) returns (cell: ScoreCell)
    ensures cell == ScoreCellOf(cellText)
  {
    if Strip(cellText) == [] {
      return ScoreCell(None, []);
    }
    var lines := KeptStripped(SplitOn(cellText, "\n"));
    var aggregated := if lines != [] then Some(Strip(lines[0])) else None;
    var judgeScores := [];
    if |lines| > 1 {
      var judgeScoreParts := SplitOn(lines[1], "|");
      for i := 0 to |judgeScoreParts|
        invariant judgeScores == KeptStripped(judgeScoreParts[..i])
      {
        var score := Strip(judgeScoreParts[i]);
        KeptStrippedSnoc(judgeScoreParts[..i], judgeScoreParts[i]);
        Sorting.TakeSnoc(judgeScoreParts, i);
        if score != [] {
          judgeScores := judgeScores + [score];
        }
      }
      assert judgeScoreParts[..|judgeScoreParts|] == judgeScoreParts;
    }
    cell := ScoreCell(aggregated, judgeScores);
  }

  lemma {:induction false} KeptStrippedSnoc(parts: seq<string>, p: string)
    ensures KeptStripped(parts + [p]) == KeptStripped(parts) + (if Strip(p) != [] then [Strip(p)] else [])
    decreases |parts|
  {
    if parts != [] {
      assert (parts + [p])[1..] == parts[1..] + [p];
      KeptStrippedSnoc(parts[1..], p);
    } else {
      assert [p][1..] == [];
    }
  }

  /** A text with a non-blank character has one non-blank line. */
  lemma {:induction false} JoinBlank(parts: seq<string>)
    requires forall k :: 0 <= k < |parts| ==> Strip(parts[k]) == []
    ensures Strip(Join(parts, "\n")) == []
    decreases |parts|
  {
    if |parts| > 1 {
      JoinBlank(parts[1..]);
      StripByEmpty(parts[0], IsSpace);
      StripByEmpty(Join(parts[1..], "\n"), IsSpace);
      var s := parts[0] + "\n" + Join(parts[1..], "\n");
      forall k | 0 <= k < |s| ensures IsSpace(s[k]) {
        if k < |parts[0]| {
          assert s[k] == parts[0][k];
        } else if k > |parts[0]| {
          assert s[k] == Join(parts[1..], "\n")[k - |parts[0]| - 1];
        }
      }
      StripByEmpty(s, IsSpace);
    } else if |parts| == 1 {
      assert Join(parts, "\n") == parts[0];
    }
  }

  lemma {:induction false} KeptStrippedEmpty(parts: seq<string>, k: nat)
    requires KeptStripped(parts) == [] && k < |parts|
    ensures Strip(parts[k]) == []
    decreases |parts|
  {
    if k > 0 {
      assert parts[1..][k - 1] == parts[k];
      KeptStrippedEmpty(parts[1..], k - 1);
    }
  }

  /** A cell has an aggregated score exactly when its text is not blank. */
  lemma AggregatedWhenNotBlank(cellText: string)
    ensures ScoreCellOf(cellText).aggregated.Some? <==> Strip(cellText) != []
  {
    if Strip(cellText) != [] && KeptStripped(SplitOn(cellText, "\n")) == [] {
      forall k | 0 <= k < |SplitOn(cellText, "\n")| ensures Strip(SplitOn(cellText, "\n")[k]) == [] {
        KeptStrippedEmpty(SplitOn(cellText, "\n"), k);
      }
      JoinBlank(SplitOn(cellText, "\n"));
      JoinSplit(cellText, "\n");
      assert false;
    }
  }

  /** Every judge score is a trimmed, non-empty piece without a '|'. */
  lemma JudgeScoresClean(cellText: string)
    ensures forall k :: 0 <= k < |ScoreCellOf(cellText).judgeScores| ==>
      var score := ScoreCellOf(cellText).judgeScores[k];
      score != [] && Strip(score) == score && '|' !in score
  {
    var cell := ScoreCellOf(cellText);
    if Strip(cellText) != [] {
      var lines := KeptStripped(SplitOn(cellText, "\n"));
      if |lines| > 1 {
        var parts := SplitOn(lines[1], "|");
        SplitPartsFree(lines[1], "|");
        forall k | 0 <= k < |cell.judgeScores| ensures '|' !in cell.judgeScores[k] {
          KeptStrippedFrom(parts, k, '|');
        }
      }
    }
  }

  /** A character absent from every part is absent from every kept piece. */
  lemma {:induction false} KeptStrippedFrom(parts: seq<string>, k: nat, c: char)
    requires forall p :: p in parts ==> !Contains(p, [c])
    requires k < |KeptStripped(parts)|
    ensures c !in KeptStripped(parts)[k]
    decreases |parts|
  {
    var t := Strip(parts[0]);
    var rest := KeptStripped(parts[1..]);
    assert KeptStripped(parts) == (if t != [] then [t] else []) + rest;
    if t != [] && k == 0 {
      assert parts[0] in parts;
      ContainsChar(parts[0], c);
      StripByChars(parts[0], IsSpace);
    } else {
      var k' := if t != [] then k - 1 else k;
      assert KeptStripped(parts)[k] == rest[k'];
      assert forall p :: p in parts[1..] ==> p in parts;
      KeptStrippedFrom(parts[1..], k', c);
    }
  }

  // ---------------------------------------------------------------------------------------
  // writing a cell and parsing it back

  /** Text fit to be one piece of a cell: not empty, no blank at either end, no line break and no '|'. */
  ghost predicate CellPiece(s: string) {
    s != [] && !IsSpace(s[0]) && !IsSpace(s[|s| - 1]) && '\n' !in s && '|' !in s
  }

  lemma JoinFree(parts: seq<string>, sep: string, c: char)
    requires forall k :: 0 <= k < |parts| ==> c !in parts[k]
    requires c !in sep
    ensures c !in Join(parts, sep)
    decreases |parts|
  {
    if |parts| > 1 {
      JoinFree(parts[1..], sep, c);
    }
  }

  lemma {:induction false} JoinEnds(parts: seq<string>, sep: string)
    requires parts != [] && forall k :: 0 <= k < |parts| ==> parts[k] != []
    ensures Join(parts, sep) != []
    ensures Join(parts, sep)[0] == parts[0][0]
    ensures Join(parts, sep)[|Join(parts, sep)| - 1] == parts[|parts| - 1][|parts[|parts| - 1]| - 1]
    decreases |parts|
  {
    if |parts| > 1 {
      JoinEnds(parts[1..], sep);
    }
  }

  lemma {:induction false} KeptStrippedClean(parts: seq<string>)
    requires forall k :: 0 <= k < |parts| ==> CellPiece(parts[k])
    ensures KeptStripped(parts) == parts
    decreases |parts|
  {
    if parts != [] {
      StripByNoop(parts[0], IsSpace);
      KeptStrippedClean(parts[1..]);
    }
  }

  /** The judges' line: kept whole, and split back into the scores. */
  lemma JudgeLine(scores: seq<string>)
    requires scores != [] && forall k :: 0 <= k < |scores| ==> CellPiece(scores[k])
    ensures KeptStripped([Join(scores, "|")]) == [Join(scores, "|")]
    ensures KeptStripped(SplitOn(Join(scores, "|"), "|")) == scores
  {
    var line := Join(scores, "|");
    JoinEnds(scores, "|");
    StripByNoop(line, IsSpace);
    assert KeptStripped([line]) == [line] + KeptStripped([]);
    SplitJoin(scores, '|');
    KeptStrippedClean(scores);
  }

  /** The two lines of the cell text. */
  lemma CellLines(aggregated: string, line: string)
    requires CellPiece(aggregated) && '\n' !in line
    ensures SplitOn(aggregated + "\n" + line, "\n") == [aggregated, line]
    ensures Strip(aggregated + "\n" + line) != []
    ensures KeptStripped([aggregated, line]) == [aggregated] + KeptStripped([line])
  {
    var text := aggregated + "\n" + line;
    assert Join([aggregated, line], "\n") == text;
    SplitJoin([aggregated, line], '\n');
    assert text[0] == aggregated[0];
    StripByEmpty(text, IsSpace);
    StripByNoop(aggregated, IsSpace);
  }

  /**
   * The cell the scraper reads back: an aggregated score on the first line and the judges'
   * scores joined by '|' on the second parse to that score and those scores.
   */
  lemma ScoreCellRoundTrip(aggregated: string, scores: seq<string>)
    requires CellPiece(aggregated)
    requires forall k :: 0 <= k < |scores| ==> CellPiece(scores[k])
    ensures ScoreCellOf(aggregated + "\n" + Join(scores, "|")) == ScoreCell(Some(aggregated), scores)
  {
    var line := Join(scores, "|");
    JoinFree(scores, "|", '\n');
    CellLines(aggregated, line);
    StripByNoop(aggregated, IsSpace);
    if scores == [] {
      StripByEmpty(line, IsSpace);
      assert KeptStripped([line]) == [];
    } else {
      JudgeLine(scores);
    }
  }

  // ---------------------------------------------------------------------------------------
  // start numbers

  /** The digits of a scraped start number; `None` (the row is dropped) when there are none. */
  function CleanStartNumber(raw: string): (r: Option<string>)
    ensures r.Some? ==> r.value != [] && AllDigits(r.value)
  {
    var digits := Filter(raw, IsDigit);
    if digits == [] then None else Some(digits)
  }

  /** The digits are kept in their order: cleaning splits over concatenation. */
  lemma CleanStartNumberConcat(x: string, y: string)
    ensures CleanStartNumber(x + y).GetOr([]) == CleanStartNumber(x).GetOr([]) + CleanStartNumber(y).GetOr([])
  {
    FilterConcat(x, y, IsDigit);
  }

  /** A row is kept exactly when its start number has a digit, and a cleaned number is stable. */
  lemma CleanStartNumberKept(raw: string)
    ensures CleanStartNumber(raw).Some? <==> exists k :: 0 <= k < |raw| && IsDigit(raw[k])
    ensures CleanStartNumber(raw).Some? ==> CleanStartNumber(CleanStartNumber(raw).value) == CleanStartNumber(raw)
  {
    if exists k :: 0 <= k < |raw| && IsDigit(raw[k]) {
      var k :| 0 <= k < |raw| && IsDigit(raw[k]);
      FilterKeeps(raw, IsDigit, raw[k]);
    }
    FilterIdempotent(raw, IsDigit);
  }

  // ---------------------------------------------------------------------------------------
  // the pair of output files of one round

  /** A competition-info field as the scraper reads it; a missing one sanitises like an empty one. */
  function FieldText(field: Option<string>): string {
    field.GetOr([])
  }

  /** "results_{location}_{date}_{class}_{round}", the part the two files share. */
  function OutputStem(location: Option<string>, date: Option<string>, className: Option<string>, roundName: Option<string>): (r: string)
    ensures FileSafe(r)
  {
    var loc := SanitizeFilename(FieldText(location), true);
    var day := FormatDateForFilename(FieldText(date));
    var cls := SanitizeFilename(FieldText(className), true);
    var rnd := SanitizeFilename(FieldText(roundName), true);
    SanitizedShape(FieldText(location), true);
    FormattedDateSafe(FieldText(date));
    SanitizedShape(FieldText(className), true);
    SanitizedShape(FieldText(roundName), true);
    var r := "results_" + loc + "_" + day + "_" + cls + "_" + rnd;
    LiteralsSafe();
    FileSafeConcat("results_", loc);
    FileSafeConcat("results_" + loc, "_");
    FileSafeConcat("results_" + loc + "_", day);
    FileSafeConcat("results_" + loc + "_" + day, "_");
    FileSafeConcat("results_" + loc + "_" + day + "_", cls);
    FileSafeConcat("results_" + loc + "_" + day + "_" + cls, "_");
    FileSafeConcat("results_" + loc + "_" + day + "_" + cls + "_", rnd);
    r
  }

  lemma FileSafeConcat(a: string, b: string)
    requires FileSafe(a) && FileSafe(b)
    ensures FileSafe(a + b)
  {
  }

  /** The Slow and the Fast file names of one scraped round. */
  function OutputFilenames(location: Option<string>, date: Option<string>, className: Option<string>, roundName: Option<string>): (names: (string, string))
    ensures names.0 == OutputStem(location, date, className, roundName) + Rounds.SlowSuffix
    ensures names.1 == OutputStem(location, date, className, roundName) + Rounds.FastSuffix
  {
    var stem := OutputStem(location, date, className, roundName);
    (stem + "_Slow.json", stem + "_Fast.json")
  }

  /** A file-safe string has no '.', so neither round suffix occurs in it. */
  lemma FileSafeHasNoSuffix(s: string)
    requires FileSafe(s)
    ensures Rounds.Absent(s, Rounds.SlowSuffix) && Rounds.Absent(s, Rounds.FastSuffix)
  {
    forall j | 0 <= j <= |s| ensures !OccursAt(s, Rounds.SlowSuffix, j) && !OccursAt(s, Rounds.FastSuffix, j) {
      if j + 10 <= |s| {
        assert s[j..j + 10][5] == s[j + 5];
        assert WordOrHyphen(s[j + 5]);
      }
    }
  }

  /**
   * The dashboard pairs the two files the scraper writes for a round: each one's partner
   * name is the other.
   */
  lemma OutputFilesArePartners(location: Option<string>, date: Option<string>, className: Option<string>, roundName: Option<string>)
    ensures var names := OutputFilenames(location, date, className, roundName);
      Rounds.PartnerName(names.0) == Some(names.1) && Rounds.PartnerName(names.1) == Some(names.0)
  {
    var stem := OutputStem(location, date, className, roundName);
    FileSafeHasNoSuffix(stem);
    Rounds.PartnerSwap(stem);
  }
}
