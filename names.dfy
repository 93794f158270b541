/**
 * Display names: the per-category name shown in the dashboard, the "LASTNAME First" to
 * "First LASTNAME" reordering the scrapers apply to couples and judges, the judge roster
 * cell "Name / Country", and the location taken from a competition's title line.
 */
module Names {
  import opened Optional
  import opened Text

  // ---------------------------------------------------------------------------------------
  // "LASTNAME First names" -> "First names LASTNAME"

  /** The first blank-separated token moves to the end; a name of fewer than two tokens is kept. */
  function ReorderName(name: string): string {
    var ws := Words(name);
    if |ws| >= 2 then Join(ws[1..], " ") + " " + ws[0] else name
  }

  /** Reordering rotates the tokens: the family name (first token) becomes the last one. */
  lemma ReorderNameWords(name: string)
    requires |Words(name)| >= 2
    ensures Words(ReorderName(name)) == Words(name)[1..] + [Words(name)[0]]
  {
    var ws := Words(name);
    var rotated := ws[1..] + [ws[0]];
    JoinSnoc(ws[1..], ws[0], " ");
    assert forall w :: w in rotated ==> w in ws;
    WordsOfJoin(rotated);
  }

  /** Reordering keeps every token, so a token count is unchanged. */
  lemma ReorderNameKeepsTokens(name: string)
    ensures multiset(Words(ReorderName(name))) == multiset(Words(name))
  {
    var ws := Words(name);
    if |ws| >= 2 {
      ReorderNameWords(name);
      assert ws == [ws[0]] + ws[1..];
    }
  }

  // ---------------------------------------------------------------------------------------
  // couple names: "LASTNAME First - LASTNAME First" -> "First LASTNAME & First LASTNAME"

  /** Each " - " piece, stripped and reordered. */
  function ReorderParts(parts: seq<string>): (r: seq<string>)
    ensures |r| == |parts|
    ensures forall k :: 0 <= k < |parts| ==> r[k] == ReorderName(Strip(parts[k]))
  {
    seq(|parts|, k requires 0 <= k < |parts| => ReorderName(Strip(parts[k])))
  }

  /** The competitor name as the result scrapers store it. */
  function CoupleDisplayName(name: string): string {
    if Contains(name, " - ") then Join(ReorderParts(SplitOn(name, " - ")), " & ") else name
  }

  /** One stripped piece: family name (first token) to the end when there are two tokens or more. */
  method FormatPart(part: string) returns (formattedName: string)
    ensures formattedName == ReorderName(part)
  {
    var components := Words(part);
    if |components| >= 2 {
      var lastname := components[0];
      var firstname := Join(components[1..], " ");
      formattedName := firstname + " " + lastname;
    } else {
      formattedName := part;
    }
  }

  /** The scrapers' loop over the " - " pieces of a competitor cell. */
  method FormatCoupleName(name: string) returns (r: string)
    ensures r == CoupleDisplayName(name)
  {
    r := name;
    if Contains(name, " - ") {
      var parts := SplitOn(name, " - ");
      ghost var reordered := ReorderParts(parts);
      var formatted: seq<string> := [];
      var i := 0;
      while i < |parts|
        invariant 0 <= i <= |parts|
        invariant formatted == reordered[..i]
      {
        var formattedName := FormatPart(Strip(parts[i]));
        assert reordered[..i + 1] == reordered[..i] + [formattedName];
        formatted := formatted + [formattedName];
        i := i + 1;
      }
      assert formatted == reordered;
      r := Join(formatted, " & ");
    }
  }

  /** A separator that occurs splits the name in at least two pieces. */
  lemma SplitOfPresent(s: string, sep: string)
    requires sep != [] && Contains(s, sep)
    ensures |SplitOn(s, sep)| >= 2
  {
  }

  /**
   * A competitor cell with " - " yields one " & "-joined piece per " - " piece; each piece
   * of two or more tokens has its family name moved to the end, the others are only stripped.
   */
  lemma CoupleDisplayNameParts(name: string)
    requires Contains(name, " - ")
    ensures var parts := SplitOn(name, " - ");
      && |parts| >= 2
      && CoupleDisplayName(name) == Join(ReorderParts(parts), " & ")
      && (forall k :: 0 <= k < |parts| && |Words(Strip(parts[k]))| >= 2 ==>
            Words(ReorderParts(parts)[k]) == Words(Strip(parts[k]))[1..] + [Words(Strip(parts[k]))[0]])
      && (forall k :: 0 <= k < |parts| && |Words(Strip(parts[k]))| < 2 ==>
            ReorderParts(parts)[k] == Strip(parts[k]))
  {
    var parts := SplitOn(name, " - ");
    SplitOfPresent(name, " - ");
    forall k | 0 <= k < |parts| && |Words(Strip(parts[k]))| >= 2
      ensures Words(ReorderParts(parts)[k]) == Words(Strip(parts[k]))[1..] + [Words(Strip(parts[k]))[0]]
    {
      ReorderNameWords(Strip(parts[k]));
    }
  }

  // ---------------------------------------------------------------------------------------
  // judge roster cell: "LASTNAME First / Country"

  datatype RosterEntry = RosterEntry(name: Option<string>, country: Option<string>)

  /** The judge name and country read from a roster cell (its text already stripped). */
  function JudgeRosterEntry(raw: string): RosterEntry {
    if raw == [] then RosterEntry(None, None)
    else
      var parts := SplitOnce(raw, "/");
      var name := Strip(parts[0]);
      RosterEntry(Some(ReorderName(name)), if |parts| > 1 then Some(Strip(parts[1])) else None)
  }

  /** The first occurrence of a character is where `Find` stops. */
  lemma FindFirstChar(s: string, c: char, i: nat)
    requires i < |s| && s[i] == c && c !in s[..i]
    ensures Find(s, [c]) == Some(i)
  {
    assert OccursAt(s, [c], i) by {
      assert s[i..i + 1] == [c];
    }
    var f := Find(s, [c]).value;
    assert s[f..f + 1][0] == s[f];
    assert forall j :: 0 <= j < i ==> s[..i][j] == s[j];
  }

  /**
   * A non-empty cell always gives a name; a country exactly when the cell holds a '/', and
   * then the name comes from before the first '/' and the country from after it.
   */
  lemma JudgeRosterSplit(raw: string)
    requires raw != []
    ensures JudgeRosterEntry(raw).name.Some?
    ensures JudgeRosterEntry(raw).country.Some? <==> '/' in raw
    ensures '/' !in raw ==> JudgeRosterEntry(raw).name == Some(ReorderName(Strip(raw)))
  {
    ContainsChar(raw, '/');
  }

  lemma JudgeRosterAtSlash(raw: string, i: nat)
    requires i < |raw| && raw[i] == '/' && '/' !in raw[..i]
    ensures JudgeRosterEntry(raw).name == Some(ReorderName(Strip(raw[..i])))
    ensures JudgeRosterEntry(raw).country == Some(Strip(raw[i + 1..]))
  {
    FindFirstChar(raw, '/', i);
  }

  // ---------------------------------------------------------------------------------------
  // location from the title line: "World cup Boogie Woogie Main Class - Stuttgart"

  /** The stripped text after the last " - ", else after the last " -", else after the last '-'. */
  function LocationOf(line: string): Option<string> {
    if Contains(line, " - ") then Some(Strip(Last(SplitOn(line, " - "))))
    else if Contains(line, " -") then Some(Strip(Last(SplitOn(line, " -"))))
    else if Contains(line, "-") then Some(Strip(Last(SplitOn(line, "-"))))
    else None
  }

  lemma ContainsDash(line: string, pat: string)
    requires pat != [] && '-' in pat && Contains(line, pat)
    ensures '-' in line
  {
    var i := Find(line, pat).value;
    var j :| 0 <= j < |pat| && pat[j] == '-';
    assert line[i..i + |pat|][j] == '-';
    assert line[i + j] == '-';
  }

  /** A title line has a location exactly when it holds a dash. */
  lemma LocationExists(line: string)
    ensures LocationOf(line).Some? <==> '-' in line
  {
    ContainsChar(line, '-');
    if Contains(line, " - ") {
      ContainsDash(line, " - ");
    } else if Contains(line, " -") {
      ContainsDash(line, " -");
    }
  }

  /** With " - " present, the location is the stripped text after its last occurrence. */
  lemma LocationAfterLastSeparator(line: string)
    requires Contains(line, " - ")
    ensures exists tail ::
      (EndsWith(line, " - " + tail) && !Contains(tail, " - ") && LocationOf(line) == Some(Strip(tail)))
  {
    var tail := Last(SplitOn(line, " - "));
    SplitLastIsSuffix(line, " - ");
    SplitPartsFree(line, " - ");
    assert tail in SplitOn(line, " - ");
  }

  // ---------------------------------------------------------------------------------------
  // per-category display name in the dashboard

  /** Python's `s.split()[-1] if s.split() else ""`. */
  function LastWord(s: string): (r: string)
    ensures r == [] <==> Words(s) == []
  {
    var ws := Words(s);
    if ws == [] then [] else
      assert Last(ws) in ws;
      Last(ws)
  }

  /**
   * "Follower & Leader": BBW shows the follower, BBM the leader, the other categories the two
   * last names; a name with no '&' or several is shown stripped.
   */
  function FormatNameForCategory(fullName: Option<string>, category: string): (r: string)
    ensures fullName.None? || fullName == Some("") || fullName == Some("Unknown") ==> r == "Unknown"
    ensures fullName.Some? && fullName.value != [] && '&' !in fullName.value ==> r == Strip(fullName.value)
  {
    if fullName.None? || fullName.value == [] || fullName.value == "Unknown" then "Unknown"
    else
      var s := fullName.value;
      if '&' !in s then Strip(s)
      else
        var parts := SplitOn(s, "&");
        if |parts| != 2 then Strip(s)
        else
          var first := Strip(parts[0]);
          var second := Strip(parts[1]);
          if category == "BBW" then first
          else if category == "BBM" then second
          else LastWord(first) + " & " + LastWord(second)
  }

  /** Splitting on one character gives one piece more than there are occurrences of it. */
  lemma {:induction false} SplitCharCount(s: string, c: char)
    ensures |SplitOn(s, [c])| == multiset(s)[c] + 1
    decreases |s|
  {
    ContainsChar(s, c);
    match Find(s, [c])
    case None =>
    case Some(i) =>
      assert s[i..i + 1] == [c];
      assert c !in s[..i] by {
        if c in s[..i] {
          var j :| 0 <= j < i && s[..i][j] == c;
          assert s[j..j + 1] == [c];
          assert OccursAt(s, [c], j);
        }
      }
      assert s == s[..i] + [c] + s[i + 1..];
      assert multiset(s) == multiset(s[..i]) + multiset{c} + multiset(s[i + 1..]);
      SplitCharCount(s[i + 1..], c);
  }

  /** A name holding no '&', or more than one, is only stripped. */
  lemma FormatNameStripped(s: string, category: string)
    requires s != [] && s != "Unknown"
    requires multiset(s)['&'] != 1
    ensures FormatNameForCategory(Some(s), category) == Strip(s)
  {
    SplitCharCount(s, '&');
  }

  /** With exactly one '&' at position i, the pieces are what lies before and after it. */
  lemma FormatNameCouple(s: string, category: string, i: nat)
    requires s != "Unknown"
    requires i < |s| && s[i] == '&' && '&' !in s[..i] && '&' !in s[i + 1..]
    ensures category == "BBW" ==> FormatNameForCategory(Some(s), category) == Strip(s[..i])
    ensures category == "BBM" ==> FormatNameForCategory(Some(s), category) == Strip(s[i + 1..])
    ensures category != "BBW" && category != "BBM" ==>
      FormatNameForCategory(Some(s), category)
        == LastWord(Strip(s[..i])) + " & " + LastWord(Strip(s[i + 1..]))
  {
    assert s == s[..i] + "&" + s[i + 1..];
    SplitOnFirst(s[..i], "&", s[i + 1..]);
    ContainsChar(s[i + 1..], '&');
    assert SplitOn(s, "&") == [s[..i], s[i + 1..]];
  }
}
