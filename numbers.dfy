/**
 * Number parsing for scraped score text: Python's `float()` over plain decimal numerals,
 * the dashboard's `parse_european_number` and the scoring module's `_parse_score`, both
 * of which accept a comma as the decimal separator and never raise.
 */
module Numbers {
  import opened Optional
  import opened Text

  function DigitValue(c: char): nat
    requires IsDigit(c)
  {
    c as int - '0' as int
  }

  /** The value of a string of decimal digits (0 for the empty string). */
  function DigitsValue(d: string): nat
    requires AllDigits(d)
    decreases |d|
  {
    if d == [] then 0 else 10 * DigitsValue(d[..|d| - 1]) + DigitValue(d[|d| - 1])
  }

  function Pow10(k: nat): (r: nat)
    ensures r >= 1
  {
    if k == 0 then 1 else 10 * Pow10(k - 1)
  }

  predicate IsSign(c: char) {
    c == '+' || c == '-'
  }

  /** The value of a numeral with an integer part and a fraction part, e.g. "12" and "75". */
  function DecimalValue(ip: string, fp: string): real
    requires AllDigits(ip) && AllDigits(fp)
  {
    DigitsValue(ip) as real + DigitsValue(fp) as real / Pow10(|fp|) as real
  }

  /**
   * An unsigned numeral: digits, optionally one '.' followed by digits, with at least one
   * digit in all ("5", "5.", ".5", "5.25").
   */
  function ParseUnsigned(b: string): (r: Option<real>)
    ensures r.Some? ==> r.value >= 0.0
    ensures r.Some? ==> b != [] && forall k :: 0 <= k < |b| ==> IsDigit(b[k]) || b[k] == '.'
  {
    match Find(b, ".")
    case None => if b != [] && AllDigits(b) then Some(DigitsValue(b) as real) else None
    case Some(i) =>
      var ip, fp := b[..i], b[i + 1..];
      if AllDigits(ip) && AllDigits(fp) && |ip| + |fp| > 0 then
        assert forall k :: 0 <= k < |b| ==> k == i || (k < i && b[k] == ip[k]) || (k > i && b[k] == fp[k - i - 1]);
        assert b[i..i + 1] == ".";
        Some(DecimalValue(ip, fp))
      else None
  }

  /**
   * Python's `float(s)` restricted to decimal numerals: surrounding whitespace is ignored
   * and one leading sign is accepted. Anything else is a `ValueError`, modelled as `None`.
   */
  function ParseFloat(s: string): (r: Option<real>)
    ensures r.Some? ==> Strip(s) != []
  {
    var t := Strip(s);
    if t != [] && IsSign(t[0]) then
      match ParseUnsigned(t[1..])
      case None => None
      case Some(v) => Some(if t[0] == '-' then -v else v)
    else ParseUnsigned(t)
  }

  // ---------------------------------------------------------------------------------------
  // properties of float()

  /** A string of digits without a '.' is found to have no '.'. */
  lemma NoDot(d: string)
    requires AllDigits(d)
    ensures Find(d, ".").None?
  {
    forall j | 0 <= j <= |d| ensures !OccursAt(d, ".", j) {
      if j < |d| {
        assert d[j..j + 1] == [d[j]];
      }
    }
  }

  lemma FindDotAfterDigits(a: string, b: string)
    requires AllDigits(a)
    ensures Find(a + "." + b, ".") == Some(|a|)
  {
    var s := a + "." + b;
    assert OccursAt(s, ".", |a|) by {
      assert s[|a|..|a| + 1] == ".";
    }
    forall j | 0 <= j < |a| ensures !OccursAt(s, ".", j) {
      assert s[j..j + 1] == [a[j]];
    }
  }

  /** An unsigned numeral "ip.fp" reads back as its exact decimal value. */
  lemma ParseFloatDecimal(ip: string, fp: string)
    requires AllDigits(ip) && AllDigits(fp) && |ip| + |fp| > 0
    ensures ParseFloat(ip + "." + fp) == Some(DecimalValue(ip, fp))
  {
    var s := ip + "." + fp;
    assert s[0] == if ip == [] then '.' else ip[0];
    assert s[|s| - 1] == if fp == [] then '.' else fp[|fp| - 1];
    StripByNoop(s, IsSpace);
    assert !IsSign(s[0]);
    UnsignedDecimal(ip, fp);
  }

  lemma UnsignedDecimal(ip: string, fp: string)
    requires AllDigits(ip) && AllDigits(fp) && |ip| + |fp| > 0
    ensures ParseUnsigned(ip + "." + fp) == Some(DecimalValue(ip, fp))
  {
    var s := ip + "." + fp;
    FindDotAfterDigits(ip, fp);
    assert s[..|ip|] == ip && s[|ip| + 1..] == fp;
  }

  /** A string of digits reads back as its integer value. */
  lemma ParseFloatInteger(d: string)
    requires AllDigits(d) && d != []
    ensures ParseFloat(d) == Some(DigitsValue(d) as real)
  {
    StripByNoop(d, IsSpace);
    NoDot(d);
  }

  /** Leading and trailing whitespace never changes what `float()` reads. */
  lemma ParseFloatPadded(x: string, s: string, y: string)
    requires AllDrop(x, IsSpace) && AllDrop(y, IsSpace)
    ensures ParseFloat(x + s + y) == ParseFloat(s)
  {
    StripByPadding(x, s, y, IsSpace);
  }

  /** Two '.' anywhere in the text: `float()` rejects it. */
  lemma {:induction false} ParseFloatTwoDots(s: string)
    requires multiset(s)['.'] >= 2
    ensures ParseFloat(s) == None
  {
    var t := Strip(s);
    StripByCount(s, IsSpace, '.');
    var b := if t != [] && IsSign(t[0]) then t[1..] else t;
    assert multiset(b)['.'] >= 2 by {
      if t != [] && IsSign(t[0]) {
        assert t == [t[0]] + b;
        assert multiset(t) == multiset{t[0]} + multiset(b);
      }
    }
    UnsignedTwoDots(b);
  }

  lemma UnsignedTwoDots(b: string)
    requires multiset(b)['.'] >= 2
    ensures ParseUnsigned(b) == None
  {
    FindsDot(b);
    var i := Find(b, ".").value;
    DotFreeBefore(b, i);
    CountAround(b, i, '.');
    var fp := b[i + 1..];
    assert '.' in fp;
    var k :| 0 <= k < |fp| && fp[k] == '.';
    assert !IsDigit(fp[k]);
  }

  /** Text holding a '.' has a leftmost one. */
  lemma FindsDot(b: string)
    requires '.' in b
    ensures Find(b, ".").Some?
  {
    var k :| 0 <= k < |b| && b[k] == '.';
    assert b[k..k + 1] == ".";
    assert OccursAt(b, ".", k);
  }

  /** No '.' before the leftmost one. */
  lemma DotFreeBefore(b: string, i: nat)
    requires Find(b, ".") == Some(i)
    ensures b[i] == '.' && '.' !in b[..i]
  {
    assert b[i..i + 1] == ".";
    forall j | 0 <= j < i ensures b[..i][j] != '.' {
      assert b[j..j + 1] == [b[j]];
      assert !OccursAt(b, ".", j);
    }
  }

  /** Occurrences of `c` on either side of position `i`. */
  lemma CountAround(b: string, i: nat, c: char)
    requires i < |b|
    ensures multiset(b)[c] == multiset(b[..i])[c] + multiset([b[i]])[c] + multiset(b[i + 1..])[c]
  {
    assert b == b[..i] + [b[i]] + b[i + 1..];
  }

  // ---------------------------------------------------------------------------------------
  // parse_european_number

  /** `parse_european_number`: absent or empty text is `None`; ',' is read as '.'. */
  function ParseEuropeanNumber(text: Option<string>): (r: Option<real>)
    ensures (text.None? || text == Some("")) ==> r.None?
    ensures text.Some? && r.Some? ==> Strip(text.value) != []
  {
    if text.None? || text.value == "" then None
    else
      var t := ReplaceChar(text.value, ',', '.');
      assert r: ParseFloat(t).Some? ==> Strip(text.value) != [] by {
        StripByReplaceChar(text.value, ',', '.', IsSpace);
      }
      ParseFloat(t)
  }

  /** Replacing ',' by '.' sends "x,y" and "x.y" to the same text. */
  lemma CommaDotSameText(x: string, y: string)
    ensures ReplaceChar(x + "," + y, ',', '.') == ReplaceChar(x + "." + y, ',', '.')
  {
    var u, v := x + "," + y, x + "." + y;
    assert forall k :: 0 <= k < |u| ==> u[k] == v[k] || (u[k] == ',' && v[k] == '.');
  }

  /** "x,y" and "x.y" parse to the same number, whatever x and y are. */
  lemma EuropeanCommaIsDot(x: string, y: string)
    ensures ParseEuropeanNumber(Some(x + "," + y)) == ParseEuropeanNumber(Some(x + "." + y))
  {
    CommaDotSameText(x, y);
  }

  /** A numeral written with a decimal comma reads as its exact value. */
  lemma EuropeanDecimal(ip: string, fp: string)
    requires AllDigits(ip) && AllDigits(fp) && |ip| + |fp| > 0
    ensures ParseEuropeanNumber(Some(ip + "," + fp)) == Some(DecimalValue(ip, fp))
  {
    EuropeanCommaIsDot(ip, fp);
    NoCommaAround(ip, '.', fp);
    ParseFloatDecimal(ip, fp);
  }

  /** Digits around a character other than ',': replacing ',' changes nothing. */
  lemma NoCommaAround(a: string, c: char, b: string)
    requires AllDigits(a) && AllDigits(b) && c != ','
    ensures ReplaceChar(a + [c] + b, ',', '.') == a + [c] + b
  {
    DigitsAround(a, c, b);
  }

  lemma EuropeanInteger(d: string)
    requires AllDigits(d) && d != []
    ensures ParseEuropeanNumber(Some(d)) == Some(DigitsValue(d) as real)
  {
    assert ReplaceChar(d, ',', '.') == d;
    ParseFloatInteger(d);
  }

  lemma ReplaceCommaCount(s: string)
    ensures multiset(ReplaceChar(s, ',', '.'))['.'] == multiset(s)[','] + multiset(s)['.']
    decreases |s|
  {
    if s != [] {
      var r := ReplaceChar(s, ',', '.');
      var rest := ReplaceChar(s[1..], ',', '.');
      assert s == [s[0]] + s[1..];
      assert r == [r[0]] + rest;
      ReplaceCommaCount(s[1..]);
      CountCons(r[0], rest, '.');
      CountCons(s[0], s[1..], ',');
      CountCons(s[0], s[1..], '.');
    }
  }

  lemma CountCons(c: char, rest: string, x: char)
    ensures multiset([c] + rest)[x] == (if c == x then 1 else 0) + multiset(rest)[x]
  {
  }

  /** Text with two decimal separators in it is not a number: `None`, never an exception. */
  lemma EuropeanTwoSeparators(s: string)
    requires multiset(s)[','] + multiset(s)['.'] >= 2
    ensures ParseEuropeanNumber(Some(s)) == None
  {
    ReplaceCommaCount(s);
    ParseFloatTwoDots(ReplaceChar(s, ',', '.'));
  }

  // ---------------------------------------------------------------------------------------
  // _parse_score

  /** A judge score as it arrives: absent, already numeric, or text. */
  datatype ScoreValue = NoValue | Number(x: real) | Text(s: string)

  /** The two characters `_parse_score` deletes anywhere in the text: ' ' and NBSP. */
  predicate KeptInScore(c: char) {
    c != ' ' && c != '\U{A0}'
  }

  /**
   * `_parse_score`: `None` stays `None`, a number is returned as it is, and text is stripped,
   * cleared of spaces and NBSP, read with ',' as '.', and `None` when blank or unreadable.
   */
  function ParseScore(v: ScoreValue): (r: Option<real>)
    ensures v.NoValue? ==> r.None?
    ensures v.Number? ==> r == Some(v.x)
    ensures v.Text? && Strip(v.s) == [] ==> r.None?
  {
    match v
    case NoValue => None
    case Number(x) => Some(x)
    case Text(s) =>
      var t := Strip(s);
      if t == [] then None
      else ParseFloat(ReplaceChar(Filter(t, KeptInScore), ',', '.'))
  }

  /** Text that differs only in ',' versus '.' gives the same score. */
  lemma ScoreCommaIsDot(s: string, t: string)
    requires ReplaceChar(s, ',', '.') == ReplaceChar(t, ',', '.')
    ensures ParseScore(Text(s)) == ParseScore(Text(t))
  {
    StripByReplaceChar(s, ',', '.', IsSpace);
    StripByReplaceChar(t, ',', '.', IsSpace);
    var ss, st := Strip(s), Strip(t);
    assert |ss| == |ReplaceChar(ss, ',', '.')|;
    assert |st| == |ReplaceChar(st, ',', '.')|;
    FilterReplaceChar(ss, ',', '.', KeptInScore);
    FilterReplaceChar(st, ',', '.', KeptInScore);
  }

  lemma ScoreDecimalComma(x: string, y: string)
    ensures ParseScore(Text(x + "," + y)) == ParseScore(Text(x + "." + y))
  {
    CommaDotSameText(x, y);
    ScoreCommaIsDot(x + "," + y, x + "." + y);
  }

  /** Spaces and NBSP anywhere in the text are ignored. */
  lemma ScoreIgnoresBlanks(s: string)
    ensures ParseScore(Text(s)) == ParseScore(Text(Filter(s, KeptInScore)))
  {
    StripByFilter(s, IsSpace, KeptInScore);
    FilterIdempotent(Strip(s), KeptInScore);
    var t := Strip(s);
    if t != [] {
      assert KeptInScore(t[0]);
      assert Filter(t, KeptInScore) != [];
    }
  }

  /** A numeral with a decimal comma reads as its exact value. */
  lemma ScoreDecimal(ip: string, fp: string)
    requires AllDigits(ip) && AllDigits(fp) && |ip| + |fp| > 0
    ensures ParseScore(Text(ip + "," + fp)) == Some(DecimalValue(ip, fp))
  {
    var s := ip + "," + fp;
    DecimalCommaClean(ip, fp);
    CommaDotSameText(ip, fp);
    NoCommaAround(ip, '.', fp);
    ParseFloatDecimal(ip, fp);
  }

  /** A numeral with a decimal comma has nothing to strip and nothing to delete. */
  lemma DecimalCommaClean(ip: string, fp: string)
    requires AllDigits(ip) && AllDigits(fp) && |ip| + |fp| > 0
    ensures Strip(ip + "," + fp) == ip + "," + fp
    ensures Filter(ip + "," + fp, KeptInScore) == ip + "," + fp
  {
    var s := ip + "," + fp;
    DigitsAround(ip, ',', fp);
    assert !IsSpace(s[0]) && !IsSpace(s[|s| - 1]);
    StripByNoop(s, IsSpace);
    FilterKeepsAll(s, KeptInScore);
  }

  /** Two digit runs around one character. */
  lemma DigitsAround(a: string, c: char, b: string)
    requires AllDigits(a) && AllDigits(b)
    ensures forall k :: 0 <= k < |a + [c] + b| ==> IsDigit((a + [c] + b)[k]) || (a + [c] + b)[k] == c
  {
    var t := a + [c];
    forall k | 0 <= k < |t + b| ensures IsDigit((t + b)[k]) || (t + b)[k] == c {
      if k < |t| {
        assert (t + b)[k] == t[k];
      } else {
        assert (t + b)[k] == b[k - |t|];
      }
    }
  }

  lemma {:induction false} FilterKeepsAll(s: string, keep: char -> bool)
    requires forall k :: 0 <= k < |s| ==> keep(s[k])
    ensures Filter(s, keep) == s
    decreases |s|
  {
    if s != [] {
      FilterKeepsAll(s[1..], keep);
    }
  }
}
