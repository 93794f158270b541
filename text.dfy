/**
 * Python string primitives used by the scrapers and the dashboard: character classes,
 * `strip`, `split`, `join`, `replace`, `startswith`/`endswith` and `in`, all over
 * `string` (a sequence of Unicode scalar values).
 */
module Text {
  import opened Optional

  /** The characters for which Python's `str.isspace()` holds; `strip()` and `split()` use them. */
  predicate IsSpace(c: char) {
    c == ' ' || ('\t' <= c <= '\r') || ('\U{1C}' <= c <= '\U{1F}') || c == '\U{85}' || c == '\U{A0}'
    || c == '\U{1680}' || ('\U{2000}' <= c <= '\U{200A}') || c == '\U{2028}' || c == '\U{2029}'
    || c == '\U{202F}' || c == '\U{205F}' || c == '\U{3000}'
  }

  /** ASCII decimal digits (the ones `\d` and `str.isdigit()` accept in scraped WRRC pages). */
  predicate IsDigit(c: char) {
    '0' <= c <= '9'
  }

  predicate IsAsciiLetter(c: char) {
    ('a' <= c <= 'z') || ('A' <= c <= 'Z')
  }

  /** The Latin-1 characters below U+00C0 that `\w` accepts: ª, ², ³, µ, ¹, º, ¼, ½ and ¾. */
  predicate IsLatin1Word(c: char) {
    c == '\U{AA}' || c == '\U{B2}' || c == '\U{B3}' || c == '\U{B5}' || c == '\U{B9}' || c == '\U{BA}'
    || ('\U{BC}' <= c <= '\U{BE}')
  }

  /** Blocks above U+00BF that hold no letter and no digit at all. */
  predicate InSymbolBlock(c: char) {
    ('\U{300}' <= c <= '\U{36F}')          // combining diacritical marks
    || ('\U{2000}' <= c <= '\U{206F}')     // general punctuation: dashes, quotes, ellipsis
    || ('\U{20A0}' <= c <= '\U{20FF}')     // currency signs, combining marks for symbols
    || ('\U{2190}' <= c <= '\U{23FF}')     // arrows, mathematical operators, technical signs
    || ('\U{2500}' <= c <= '\U{26FF}')     // box drawing, blocks, geometric shapes, symbols
    || ('\U{E000}' <= c <= '\U{F8FF}')     // private use
    || ('\U{FE00}' <= c <= '\U{FE0F}')     // variation selectors
    || c == '\U{FEFF}'                      // byte order mark
    || ('\U{FFF0}' <= c <= '\U{FFFF}')     // specials
    || ('\U{1F300}' <= c <= '\U{1FAFF}')   // pictographs and emoji
  }

  /**
   * The regular-expression class `\w`. Exact up to U+00FF: ASCII letters and digits, the
   * underscore, the Latin-1 letters and numerals. From U+0100 on it accepts every code point
   * that is not a blank and not in one of the symbol blocks above; the symbols, punctuation and
   * unassigned code points of the other blocks are accepted too, unlike in `\w`.
   */
  predicate IsWordChar(c: char) {
    IsAsciiLetter(c) || IsDigit(c) || c == '_' || IsLatin1Word(c)
    || ('\U{C0}' <= c && c != '\U{D7}' && c != '\U{F7}' && !IsSpace(c) && !InSymbolBlock(c))
  }

  predicate AllDigits(s: string) {
    forall k :: 0 <= k < |s| ==> IsDigit(s[k])
  }

  predicate NoSpace(s: string) {
    forall k :: 0 <= k < |s| ==> !IsSpace(s[k])
  }

  // ---------------------------------------------------------------------------------------
  // strip

  /** Number of leading characters satisfying `drop`. */
  function LeadCount(s: string, drop: char -> bool): (n: nat)
    ensures n <= |s|
    ensures forall k :: 0 <= k < n ==> drop(s[k])
    ensures n < |s| ==> !drop(s[n])
  {
    if s == [] || !drop(s[0]) then 0 else 1 + LeadCount(s[1..], drop)
  }

  /** Number of trailing characters satisfying `drop`. */
  function TrailCount(s: string, drop: char -> bool): (n: nat)
    ensures n <= |s|
    ensures forall k :: |s| - n <= k < |s| ==> drop(s[k])
    ensures n < |s| ==> !drop(s[|s| - 1 - n])
  {
    if s == [] || !drop(s[|s| - 1]) then 0 else 1 + TrailCount(s[..|s| - 1], drop)
  }

  /** `s.strip(chars)`: drop the leading and the trailing run of characters satisfying `drop`. */
  function StripBy(s: string, drop: char -> bool): (r: string)
    ensures |r| <= |s|
    ensures r == [] || (!drop(r[0]) && !drop(r[|r| - 1]))
  {
    var t := s[LeadCount(s, drop)..];
    t[..|t| - TrailCount(t, drop)]
  }

  /** Python's `s.strip()`. */
  function Strip(s: string): string {
    StripBy(s, IsSpace)
  }

  lemma {:induction false} StripByEmpty(s: string, drop: char -> bool)
    ensures StripBy(s, drop) == [] <==> forall k :: 0 <= k < |s| ==> drop(s[k])
  {
    var a := LeadCount(s, drop);
    var t := s[a..];
    var b := TrailCount(t, drop);
    if a < |s| {
      assert !drop(s[a]);
      assert t[0] == s[a];
      assert StripBy(s, drop) != [];
    }
  }

  /** Stripping changes nothing when the ends are already free of `drop` characters. */
  lemma StripByNoop(s: string, drop: char -> bool)
    requires s == [] || (!drop(s[0]) && !drop(s[|s| - 1]))
    ensures StripBy(s, drop) == s
  {
  }

  /** Every character of a stripped string comes from the original. */
  lemma StripByChars(s: string, drop: char -> bool)
    ensures forall c :: c in StripBy(s, drop) ==> c in s
  {
    var t := s[LeadCount(s, drop)..];
    var r := t[..|t| - TrailCount(t, drop)];
    forall c | c in r ensures c in s {
      var k :| 0 <= k < |r| && r[k] == c;
      assert s[LeadCount(s, drop) + k] == c;
    }
  }

  predicate AllDrop(s: string, drop: char -> bool) {
    forall k :: 0 <= k < |s| ==> drop(s[k])
  }

  predicate CleanEnds(s: string, drop: char -> bool) {
    s == [] || (!drop(s[0]) && !drop(s[|s| - 1]))
  }

  lemma {:induction false} LeadCountAt(x: string, r: string, drop: char -> bool)
    requires AllDrop(x, drop)
    requires r == [] || !drop(r[0])
    ensures LeadCount(x + r, drop) == |x|
    decreases |x|
  {
    if x != [] {
      assert (x + r)[1..] == x[1..] + r;
      LeadCountAt(x[1..], r, drop);
    } else {
      assert x + r == r;
    }
  }

  lemma {:induction false} TrailCountAt(r: string, y: string, drop: char -> bool)
    requires AllDrop(y, drop)
    requires r == [] || !drop(r[|r| - 1])
    ensures TrailCount(r + y, drop) == |y|
    decreases |y|
  {
    if y != [] {
      assert (r + y)[..|r + y| - 1] == r + y[..|y| - 1];
      TrailCountAt(r, y[..|y| - 1], drop);
    } else {
      assert r + y == r;
    }
  }

  /** Every string is its stripped core framed by two runs of dropped characters. */
  lemma StripBySplit(s: string, drop: char -> bool) returns (x: string, y: string)
    ensures s == x + StripBy(s, drop) + y
    ensures AllDrop(x, drop) && AllDrop(y, drop)
  {
    var a := LeadCount(s, drop);
    var t := s[a..];
    var b := TrailCount(t, drop);
    x, y := s[..a], t[|t| - b..];
    assert AllDrop(x, drop) && AllDrop(y, drop) by {
      LeadRun(s, drop);
      TrailRun(t, drop);
    }
    assert s == x + StripBy(s, drop) + y by {
      StripByFramed(s, drop);
    }
  }

  lemma StripByFramed(s: string, drop: char -> bool)
    ensures var a := LeadCount(s, drop); var t := s[a..];
      s == s[..a] + StripBy(s, drop) + t[|t| - TrailCount(t, drop)..]
  {
    var a := LeadCount(s, drop);
    var t := s[a..];
    SplitThree(s, StripBy(s, drop), a, |t| - TrailCount(t, drop));
  }

  lemma LeadRun(s: string, drop: char -> bool)
    ensures AllDrop(s[..LeadCount(s, drop)], drop)
  {
    var x := s[..LeadCount(s, drop)];
    forall k | 0 <= k < |x| ensures drop(x[k]) {
      assert x[k] == s[k];
    }
  }

  lemma TrailRun(t: string, drop: char -> bool)
    ensures AllDrop(t[|t| - TrailCount(t, drop)..], drop)
  {
    var b := TrailCount(t, drop);
    var y := t[|t| - b..];
    forall k | 0 <= k < |y| ensures drop(y[k]) {
      assert y[k] == t[|t| - b + k];
    }
  }

  /** Cutting a string at `a` and its rest at `c`. */
  lemma SplitThree<T>(s: seq<T>, core: seq<T>, a: nat, c: nat)
    requires a <= |s| && c <= |s| - a && core == s[a..][..c]
    ensures s == s[..a] + core + s[a..][c..]
  {
    assert s[a..] == s[a..][..c] + s[a..][c..];
    assert s == s[..a] + s[a..];
  }

  lemma ConcatAssoc(a: string, b: string, c: string)
    ensures a + (b + c) == a + b + c
  {
  }

  /** Stripping a core with clean ends out of a frame of dropped characters gives the core. */
  lemma StripByFrame(x: string, m: string, y: string, drop: char -> bool)
    requires AllDrop(x, drop) && AllDrop(y, drop) && CleanEnds(m, drop)
    ensures StripBy(x + m + y, drop) == m
  {
    var s := x + m + y;
    if m == [] {
      assert s == x + y;
      StripByEmpty(s, drop);
    } else {
      assert s == x + (m + y);
      LeadCountAt(x, m + y, drop);
      assert s[|x|..] == m + y;
      TrailCountAt(m, y, drop);
    }
  }

  /** Surrounding blanks never change a strip. */
  lemma StripByPadding(x: string, s: string, y: string, drop: char -> bool)
    requires AllDrop(x, drop) && AllDrop(y, drop)
    ensures StripBy(x + s + y, drop) == StripBy(s, drop)
  {
    var x', y' := StripBySplit(s, drop);
    var m := StripBy(s, drop);
    Reframe(x, x', m, y', y);
    AllDropConcat(x, x', drop);
    AllDropConcat(y', y, drop);
    StripByFrame(x + x', m, y' + y, drop);
  }

  lemma Reframe(x: string, x': string, m: string, y': string, y: string)
    ensures x + (x' + m + y') + y == (x + x') + m + (y' + y)
  {
  }

  lemma AllDropConcat(a: string, b: string, drop: char -> bool)
    requires AllDrop(a, drop) && AllDrop(b, drop)
    ensures AllDrop(a + b, drop)
  {
    forall k | 0 <= k < |a + b| ensures drop((a + b)[k]) {
      if k < |a| {
        assert (a + b)[k] == a[k];
      } else {
        assert (a + b)[k] == b[k - |a|];
      }
    }
  }

  /** A kept character occurs as often in the stripped string as in the original. */
  lemma StripByCount(s: string, drop: char -> bool, c: char)
    requires !drop(c)
    ensures multiset(StripBy(s, drop))[c] == multiset(s)[c]
  {
    var x, y := StripBySplit(s, drop);
    assert c !in x && c !in y;
    assert multiset(s) == multiset(x) + multiset(StripBy(s, drop)) + multiset(y);
  }

  /** Replacing a kept character by a kept character commutes with stripping. */
  lemma StripByReplaceChar(s: string, a: char, b: char, drop: char -> bool)
    requires !drop(a) && !drop(b)
    ensures StripBy(ReplaceChar(s, a, b), drop) == ReplaceChar(StripBy(s, drop), a, b)
  {
    var x, y := StripBySplit(s, drop);
    var m := StripBy(s, drop);
    ReplaceCharConcat(x, m, a, b);
    ReplaceCharConcat(x + m, y, a, b);
    assert ReplaceChar(x, a, b) == x;
    assert ReplaceChar(y, a, b) == y;
    StripByFrame(x, ReplaceChar(m, a, b), y, drop);
  }

  lemma FilterAllDrop(x: string, drop: char -> bool, keep: char -> bool)
    requires AllDrop(x, drop)
    ensures AllDrop(Filter(x, keep), drop)
  {
    var fx := Filter(x, keep);
    forall k | 0 <= k < |fx| ensures drop(fx[k]) {
      assert fx[k] in fx;
      assert fx[k] in x;
    }
  }

  lemma FilterCleanEnds(m: string, drop: char -> bool, keep: char -> bool)
    requires CleanEnds(m, drop)
    requires m != [] ==> keep(m[0]) && keep(m[|m| - 1])
    ensures CleanEnds(Filter(m, keep), drop)
  {
    if m != [] {
      FilterFirst(m, keep);
      FilterLast(m, keep);
    }
  }

  lemma FilterFirst(m: string, keep: char -> bool)
    requires m != [] && keep(m[0])
    ensures Filter(m, keep) != [] && Filter(m, keep)[0] == m[0]
  {
  }

  lemma FilterLast(m: string, keep: char -> bool)
    requires m != [] && keep(m[|m| - 1])
    ensures Filter(m, keep) != [] && Filter(m, keep)[|Filter(m, keep)| - 1] == m[|m| - 1]
  {
    var last := m[|m| - 1];
    assert m == m[..|m| - 1] + [last];
    FilterConcat(m[..|m| - 1], [last], keep);
    assert Filter([last], keep) == [last];
  }

  /** Removing only droppable characters commutes with stripping. */
  lemma StripByFilter(s: string, drop: char -> bool, keep: char -> bool)
    requires forall c :: !keep(c) ==> drop(c)
    ensures StripBy(Filter(s, keep), drop) == Filter(StripBy(s, drop), keep)
  {
    var x, y := StripBySplit(s, drop);
    var m := StripBy(s, drop);
    var fx, fm, fy := Filter(x, keep), Filter(m, keep), Filter(y, keep);
    FilterConcat(x, m, keep);
    FilterConcat(x + m, y, keep);
    assert Filter(s, keep) == fx + fm + fy;
    FilterAllDrop(x, drop, keep);
    FilterAllDrop(y, drop, keep);
    if m != [] {
      assert !drop(m[0]) && !drop(m[|m| - 1]);
    }
    FilterCleanEnds(m, drop, keep);
    StripByFrame(fx, fm, fy, drop);
  }

  /** The leading run of dropped characters is determined by which positions drop. */
  lemma StripByEmptyLength(s: string, t: string, drop: char -> bool)
    requires |s| == |t|
    requires forall k :: 0 <= k < |s| ==> (drop(s[k]) <==> drop(t[k]))
    ensures StripBy(s, drop) == [] <==> StripBy(t, drop) == []
  {
    StripByEmpty(s, drop);
    StripByEmpty(t, drop);
  }

  // ---------------------------------------------------------------------------------------
  // substring search: `in`, `startswith`, `endswith`

  predicate StartsWith(s: string, prefix: string) {
    |prefix| <= |s| && s[..|prefix|] == prefix
  }

  predicate EndsWith(s: string, suffix: string) {
    |suffix| <= |s| && s[|s| - |suffix|..] == suffix
  }

  predicate OccursAt(s: string, pat: string, i: int) {
    0 <= i && i + |pat| <= |s| && s[i..i + |pat|] == pat
  }

  /** Leftmost occurrence of `pat` in `s` (Python's `s.find(pat)`, with `None` for -1). */
  function Find(s: string, pat: string): (r: Option<nat>)
    requires pat != []
    ensures r.Some? ==> OccursAt(s, pat, r.value)
    ensures r.Some? ==> forall j :: 0 <= j < r.value ==> !OccursAt(s, pat, j)
    ensures r.None? ==> forall j :: 0 <= j <= |s| ==> !OccursAt(s, pat, j)
    decreases |s|
  {
    if |s| < |pat| then None
    else if s[..|pat|] == pat then Some(0)
    else
      var rest := Find(s[1..], pat);
      forall j | 1 <= j <= |s| ensures OccursAt(s, pat, j) <==> OccursAt(s[1..], pat, j - 1) {
        OccursShift(s, pat, j);
      }
      match rest
      case None => None
      case Some(i) => Some(i + 1)
  }

  /** An occurrence past the first character is an occurrence in the tail. */
  lemma OccursShift(s: string, pat: string, j: int)
    requires 1 <= j <= |s|
    ensures OccursAt(s, pat, j) <==> OccursAt(s[1..], pat, j - 1)
  {
    var t := s[1..];
    assert |t| == |s| - 1;
    if j + |pat| <= |s| {
      var a, b := s[j..j + |pat|], t[j - 1..j - 1 + |pat|];
      forall k | 0 <= k < |pat| ensures a[k] == b[k] {
        assert b[k] == t[j - 1 + k] == s[j + k];
      }
      assert a == b;
    } else {
      assert !OccursAt(s, pat, j) && !OccursAt(t, pat, j - 1);
    }
  }

  /** Python's `pat in s` for a non-empty `pat`. */
  predicate Contains(s: string, pat: string)
    requires pat != []
  {
    Find(s, pat).Some?
  }

  lemma ContainsChar(s: string, c: char)
    ensures Contains(s, [c]) <==> c in s
  {
    if c in s {
      var k :| 0 <= k < |s| && s[k] == c;
      assert OccursAt(s, [c], k);
    }
    if Contains(s, [c]) {
      var i := Find(s, [c]).value;
      assert s[i..i + 1] == [c];
      assert s[i] == c;
    }
  }

  // ---------------------------------------------------------------------------------------
  // split and join

  /** Python's `s.split(sep)` for a non-empty separator: the pieces between the occurrences. */
  function SplitOn(s: string, sep: string): (parts: seq<string>)
    requires sep != []
    ensures |parts| >= 1
    decreases |s|
  {
    match Find(s, sep)
    case None => [s]
    case Some(i) => [s[..i]] + SplitOn(s[i + |sep|..], sep)
  }

  /** Python's `sep.join(parts)`. */
  function Join(parts: seq<string>, sep: string): string {
    if parts == [] then ""
    else if |parts| == 1 then parts[0]
    else parts[0] + sep + Join(parts[1..], sep)
  }

  lemma {:induction false} JoinSplit(s: string, sep: string)
    requires sep != []
    ensures Join(SplitOn(s, sep), sep) == s
    decreases |s|
  {
    match Find(s, sep)
    case None =>
    case Some(i) =>
      var rest := s[i + |sep|..];
      JoinSplit(rest, sep);
      SplitAtLeftmost(s, sep, i);
      PiecesAround(s, sep, i);
      JoinCons(s[..i], SplitOn(rest, sep), sep);
  }

  /** Splitting at the leftmost separator: the piece before it, then the split of the rest. */
  lemma SplitAtLeftmost(s: string, sep: string, i: nat)
    requires sep != [] && Find(s, sep) == Some(i)
    ensures SplitOn(s, sep) == [s[..i]] + SplitOn(s[i + |sep|..], sep)
  {
  }

  lemma JoinCons(p: string, parts: seq<string>, sep: string)
    requires parts != []
    ensures Join([p] + parts, sep) == p + sep + Join(parts, sep)
  {
    assert ([p] + parts)[1..] == parts;
  }

  /** No piece of a split contains the separator. */
  lemma {:induction false} SplitPartsFree(s: string, sep: string)
    requires sep != []
    ensures forall p :: p in SplitOn(s, sep) ==> !Contains(p, sep)
    decreases |s|
  {
    match Find(s, sep)
    case None =>
      assert SplitOn(s, sep) == [s];
    case Some(i) =>
      SplitPartsFree(s[i + |sep|..], sep);
      var head := s[..i];
      if Contains(head, sep) {
        var j := Find(head, sep).value;
        assert head[j..j + |sep|] == s[j..j + |sep|];
        assert OccursAt(s, sep, j);
        assert false;
      }
  }

  /** With a one-character separator, splitting undoes joining. */
  lemma {:induction false} SplitJoin(parts: seq<string>, sep: char)
    requires |parts| >= 1
    requires forall p :: p in parts ==> sep !in p
    ensures SplitOn(Join(parts, [sep]), [sep]) == parts
    decreases |parts|
  {
    var p := parts[0];
    ContainsChar(p, sep);
    if |parts| == 1 {
      assert Join(parts, [sep]) == p;
    } else {
      var rest := Join(parts[1..], [sep]);
      var s := p + [sep] + rest;
      assert Join(parts, [sep]) == s;
      assert OccursAt(s, [sep], |p|);
      forall j | 0 <= j < |p| ensures !OccursAt(s, [sep], j) {
        assert s[j] == p[j];
        assert s[j..j + 1] == [s[j]];
      }
      assert Find(s, [sep]) == Some(|p|);
      assert s[..|p|] == p;
      assert s[|p| + 1..] == rest;
      SplitJoin(parts[1..], sep);
    }
  }

  /** Splitting at the first occurrence: a separator-free head stays one piece. */
  lemma SplitOnFirst(head: string, sep: string, tail: string)
    requires |sep| == 1
    requires sep[0] !in head
    ensures SplitOn(head + sep + tail, sep) == [head] + SplitOn(tail, sep)
  {
    var s := head + sep + tail;
    assert OccursAt(s, sep, |head|);
    forall j | 0 <= j < |head| ensures !OccursAt(s, sep, j) {
      assert s[j] == head[j];
      assert s[j..j + 1] == [s[j]];
    }
    assert Find(s, sep) == Some(|head|);
    assert s[..|head|] == head;
    assert s[|head| + |sep|..] == tail;
  }

  /** Python's `s.split(sep, 1)`. */
  function SplitOnce(s: string, sep: string): (parts: seq<string>)
    requires sep != []
    ensures 1 <= |parts| <= 2
  {
    match Find(s, sep)
    case None => [s]
    case Some(i) => [s[..i], s[i + |sep|..]]
  }

  /** Last element of a non-empty sequence (Python's `xs[-1]`). */
  function Last<T>(xs: seq<T>): T
    requires xs != []
  {
    xs[|xs| - 1]
  }

  lemma EndsWithConcat(a: string, b: string, suffix: string)
    requires EndsWith(b, suffix)
    ensures EndsWith(a + b, suffix)
  {
    assert (a + b)[|a + b| - |suffix|..] == b[|b| - |suffix|..];
  }

  /** The last piece of a split is what follows the last occurrence of the separator. */
  lemma {:induction false} SplitLastIsSuffix(s: string, sep: string)
    requires sep != []
    ensures Find(s, sep).Some? ==> EndsWith(s, sep + Last(SplitOn(s, sep)))
    decreases |s|
  {
    match Find(s, sep)
    case None =>
    case Some(i) =>
      var rest := s[i + |sep|..];
      SplitLastIsSuffix(rest, sep);
      SplitAtFirst(s, sep, i);
      var l := Last(SplitOn(rest, sep));
      if Find(rest, sep).Some? {
        EndsWithConcat(s[..i] + sep, rest, sep + l);
      } else {
        assert l == rest;
        EndsWithItself(s[..i], sep + rest);
      }
  }

  /** Around the leftmost separator: the pieces before and after it, and the same last piece. */
  lemma SplitAtFirst(s: string, sep: string, i: nat)
    requires sep != [] && Find(s, sep) == Some(i)
    ensures s == s[..i] + sep + s[i + |sep|..]
    ensures Last(SplitOn(s, sep)) == Last(SplitOn(s[i + |sep|..], sep))
  {
    PiecesAround(s, sep, i);
    SplitAtLeftmost(s, sep, i);
    LastCons(s[..i], SplitOn(s[i + |sep|..], sep));
  }

  lemma LastCons<T>(x: T, xs: seq<T>)
    requires xs != []
    ensures Last([x] + xs) == Last(xs)
  {
  }

  lemma PiecesAround(s: string, sep: string, i: nat)
    requires OccursAt(s, sep, i)
    ensures s == s[..i] + sep + s[i + |sep|..]
  {
    assert s == s[..i] + s[i..i + |sep|] + s[i + |sep|..];
  }

  lemma EndsWithItself(a: string, b: string)
    ensures EndsWith(a + b, b)
  {
    assert (a + b)[|a + b| - |b|..] == b;
  }

  // ---------------------------------------------------------------------------------------
  // whitespace tokens: `s.split()`

  /** Length of the leading run of non-blank characters. */
  function TokenLength(s: string): (n: nat)
    ensures n <= |s|
    ensures forall k :: 0 <= k < n ==> !IsSpace(s[k])
    ensures n < |s| ==> IsSpace(s[n])
  {
    if s == [] || IsSpace(s[0]) then 0 else 1 + TokenLength(s[1..])
  }

  /** Python's `s.split()`: the maximal runs of non-blank characters. */
  function Words(s: string): (ws: seq<string>)
    ensures forall w :: w in ws ==> w != [] && NoSpace(w)
    decreases |s|
  {
    if s == [] then []
    else if IsSpace(s[0]) then Words(s[1..])
    else
      var n := TokenLength(s);
      [s[..n]] + Words(s[n..])
  }

  lemma WordsOfOneWord(w: string, rest: string)
    requires w != [] && NoSpace(w)
    requires rest == [] || IsSpace(rest[0])
    ensures Words(w + rest) == [w] + Words(rest)
  {
    var s := w + rest;
    assert s[0] == w[0];
    assert TokenLength(s) == |w| by {
      TokenLengthOfWord(w, rest);
    }
    assert s[..|w|] == w;
    assert s[|w|..] == rest;
  }

  lemma {:induction false} TokenLengthOfWord(w: string, rest: string)
    requires NoSpace(w)
    requires rest == [] || IsSpace(rest[0])
    ensures TokenLength(w + rest) == |w|
    decreases |w|
  {
    if w != [] {
      assert (w + rest)[1..] == w[1..] + rest;
      TokenLengthOfWord(w[1..], rest);
    }
  }

  /** Joining blank-free words with single spaces and splitting again gives the words back. */
  lemma {:induction false} WordsOfJoin(ws: seq<string>)
    requires forall w :: w in ws ==> w != [] && NoSpace(w)
    ensures Words(Join(ws, " ")) == ws
    decreases |ws|
  {
    if ws == [] {
    } else if |ws| == 1 {
      assert ws[0] in ws;
      WordsOfOneWord(ws[0], "");
      assert ws[0] + "" == ws[0];
    } else {
      var rest := Join(ws[1..], " ");
      assert ws[0] in ws;
      assert forall w :: w in ws[1..] ==> w in ws;
      WordsOfOneWord(ws[0], " " + rest);
      assert ws[0] + " " + rest == ws[0] + (" " + rest);
      assert (" " + rest)[1..] == rest;
      WordsOfJoin(ws[1..]);
    }
  }

  lemma JoinSnoc(ws: seq<string>, w: string, sep: string)
    requires ws != []
    ensures Join(ws + [w], sep) == Join(ws, sep) + sep + w
    decreases |ws|
  {
    if |ws| == 1 {
      assert ws + [w] == [ws[0], w];
    } else {
      assert (ws + [w])[1..] == ws[1..] + [w];
      JoinSnoc(ws[1..], w, sep);
    }
  }

  // ---------------------------------------------------------------------------------------
  // character-level rewriting: `replace`, `re.sub` with a character class

  /** Python's `s.replace(a, b)` for one-character `a` and `b`. */
  function ReplaceChar(s: string, a: char, b: char): (r: string)
    ensures |r| == |s|
    ensures forall k :: 0 <= k < |s| ==> r[k] == if s[k] == a then b else s[k]
  {
    seq(|s|, k requires 0 <= k < |s| => if s[k] == a then b else s[k])
  }

  lemma ReplaceCharConcat(x: string, y: string, a: char, b: char)
    ensures ReplaceChar(x + y, a, b) == ReplaceChar(x, a, b) + ReplaceChar(y, a, b)
  {
  }

  /** Keep the characters satisfying `keep` (`re.sub(r'[^...]', '', s)`). */
  function Filter(s: string, keep: char -> bool): (r: string)
    ensures |r| <= |s|
    ensures forall c :: c in r ==> keep(c) && c in s
  {
    if s == [] then [] else (if keep(s[0]) then [s[0]] else []) + Filter(s[1..], keep)
  }

  lemma FilterCons(c: char, s: string, keep: char -> bool)
    ensures Filter([c] + s, keep) == (if keep(c) then [c] else []) + Filter(s, keep)
  {
    assert ([c] + s)[1..] == s;
  }

  lemma {:induction false} FilterConcat(x: string, y: string, keep: char -> bool)
    ensures Filter(x + y, keep) == Filter(x, keep) + Filter(y, keep)
    decreases |x|
  {
    if x != [] {
      var head := if keep(x[0]) then [x[0]] else [];
      assert x + y == [x[0]] + (x[1..] + y);
      assert x == [x[0]] + x[1..];
      FilterConcat(x[1..], y, keep);
      FilterCons(x[0], x[1..] + y, keep);
      FilterCons(x[0], x[1..], keep);
      ConcatAssoc(head, Filter(x[1..], keep), Filter(y, keep));
    } else {
      assert x + y == y;
    }
  }

  lemma {:induction false} FilterIdempotent(s: string, keep: char -> bool)
    ensures Filter(Filter(s, keep), keep) == Filter(s, keep)
    decreases |s|
  {
    if s != [] {
      var head := if keep(s[0]) then [s[0]] else [];
      FilterConcat(head, Filter(s[1..], keep), keep);
      FilterIdempotent(s[1..], keep);
      assert Filter(head, keep) == head;
    }
  }

  /** Renaming one kept character into another commutes with filtering. */
  lemma {:induction false} FilterReplaceChar(s: string, a: char, b: char, keep: char -> bool)
    requires keep(a) && keep(b)
    ensures Filter(ReplaceChar(s, a, b), keep) == ReplaceChar(Filter(s, keep), a, b)
    decreases |s|
  {
    if s != [] {
      var r := ReplaceChar(s, a, b);
      assert r[1..] == ReplaceChar(s[1..], a, b);
      FilterReplaceChar(s[1..], a, b, keep);
      var head := if keep(s[0]) then [s[0]] else [];
      ReplaceCharConcat(head, Filter(s[1..], keep), a, b);
    }
  }

  /** Python's `s.replace(pat, repl)`: left to right, non-overlapping. */
  function ReplaceAll(s: string, pat: string, repl: string): string
    requires pat != []
    decreases |s|
  {
    if |s| < |pat| then s
    else if s[..|pat|] == pat then repl + ReplaceAll(s[|pat|..], pat, repl)
    else [s[0]] + ReplaceAll(s[1..], pat, repl)
  }

  /** Replacing in a string where `pat` does not occur is the identity. */
  lemma {:induction false} ReplaceAllAbsent(s: string, pat: string, repl: string)
    requires pat != []
    requires forall j :: 0 <= j <= |s| ==> !OccursAt(s, pat, j)
    ensures ReplaceAll(s, pat, repl) == s
    decreases |s|
  {
    if |s| >= |pat| {
      assert !OccursAt(s, pat, 0);
      assert s[0..|pat|] == s[..|pat|];
      forall j | 0 <= j <= |s[1..]| ensures !OccursAt(s[1..], pat, j) {
        if OccursAt(s[1..], pat, j) {
          assert s[1..][j..j + |pat|] == s[j + 1..j + 1 + |pat|];
          assert OccursAt(s, pat, j + 1);
        }
      }
      ReplaceAllAbsent(s[1..], pat, repl);
    }
  }

  /** Replacing where `pat` occurs only as the suffix swaps that suffix. */
  lemma {:induction false} ReplaceAllSuffix(p: string, pat: string, repl: string)
    requires pat != []
    requires forall j :: 0 <= j < |p| ==> !OccursAt(p + pat, pat, j)
    ensures ReplaceAll(p + pat, pat, repl) == p + repl
    decreases |p|
  {
    var s := p + pat;
    if p == [] {
      assert s[..|pat|] == pat;
      assert s[|pat|..] == [];
    } else {
      assert !OccursAt(s, pat, 0);
      assert s[0..|pat|] == s[..|pat|];
      assert s[1..] == p[1..] + pat;
      forall j | 0 <= j < |p[1..]| ensures !OccursAt(p[1..] + pat, pat, j) {
        if OccursAt(p[1..] + pat, pat, j) {
          assert (p[1..] + pat)[j..j + |pat|] == s[j + 1..j + 1 + |pat|];
          assert OccursAt(s, pat, j + 1);
        }
      }
      ReplaceAllSuffix(p[1..], pat, repl);
      assert [p[0]] + (p[1..] + repl) == p + repl;
    }
  }
}
