/**
 * Per-judge rankings of a set of couples (`build_judge_rankings_for_subset`): how many judges
 * there are, what each is called, each judge's total over the five categories, and the
 * competition ranking ("1224") of those totals, best total first.
 */
module Rankings {
  import opened Optional
  import opened Text
  import opened Lex
  import opened Sorting
  import opened Numbers
  import opened Couples
  import Aggregation

  // ---------------------------------------------------------------------------------------
  // number of judges

  /** How many judges scored this row in the category (a row without a list counts 0). */
  function RowJudgeCount(row: Couple, cat: string): nat {
    if cat in row.scores then |Aggregation.Present(row.scores[cat])| else 0
  }

  /** The largest per-row judge count of the category. */
  function CategoryJudgeCount(rows: seq<Couple>, cat: string): (n: nat)
    ensures forall k :: 0 <= k < |rows| ==> RowJudgeCount(rows[k], cat) <= n
    ensures n == 0 || exists k :: 0 <= k < |rows| && RowJudgeCount(rows[k], cat) == n
    decreases |rows|
  {
    if rows == [] then 0
    else
      var m := CategoryJudgeCount(rows[..|rows| - 1], cat);
      var c := RowJudgeCount(rows[|rows| - 1], cat);
      assert forall k :: 0 <= k < |rows| - 1 ==> rows[k] == rows[..|rows| - 1][k];
      if c > m then c else m
  }

  /** The count of the first of `cats` in which some row has a score. */
  function JudgeCountFrom(rows: seq<Couple>, cats: seq<string>): nat
    decreases |cats|
  {
    if cats == [] then 0
    else
      var n := CategoryJudgeCount(rows, cats[0]);
      if n != 0 then n else JudgeCountFrom(rows, cats[1..])
  }

  function JudgeCount(rows: seq<Couple>): nat {
    JudgeCountFrom(rows, Aggregation.CategoryCodes)
  }

  lemma {:induction false} JudgeCountFromZero(rows: seq<Couple>, cats: seq<string>)
    ensures JudgeCountFrom(rows, cats) == 0 <==>
      forall i, k :: 0 <= i < |cats| && 0 <= k < |rows| ==> RowJudgeCount(rows[k], cats[i]) == 0
    decreases |cats|
  {
    if cats != [] {
      JudgeCountFromZero(rows, cats[1..]);
      assert forall i :: 1 <= i < |cats| ==> cats[i] == cats[1..][i - 1];
    }
  }

  /** There are no judges exactly when no row holds a score in any category. */
  lemma JudgeCountZero(rows: seq<Couple>)
    ensures JudgeCount(rows) == 0 <==>
      forall c, k :: c in Aggregation.CategoryCodes && 0 <= k < |rows| ==> RowJudgeCount(rows[k], c) == 0
  {
    var cats := Aggregation.CategoryCodes;
    JudgeCountFromZero(rows, cats);
    if forall i, k :: 0 <= i < |cats| && 0 <= k < |rows| ==> RowJudgeCount(rows[k], cats[i]) == 0 {
      forall c, k | c in cats && 0 <= k < |rows| ensures RowJudgeCount(rows[k], c) == 0 {
        var i :| 0 <= i < |cats| && cats[i] == c;
      }
    }
    if forall c, k :: c in cats && 0 <= k < |rows| ==> RowJudgeCount(rows[k], c) == 0 {
      forall i, k | 0 <= i < |cats| && 0 <= k < |rows| ensures RowJudgeCount(rows[k], cats[i]) == 0 {
        assert cats[i] in cats;
      }
    }
  }

  lemma {:induction false} JudgeCountFromFirst(rows: seq<Couple>, cats: seq<string>, i: nat)
    requires i < |cats|
    requires forall h :: 0 <= h < i ==> CategoryJudgeCount(rows, cats[h]) == 0
    requires CategoryJudgeCount(rows, cats[i]) != 0
    ensures JudgeCountFrom(rows, cats) == CategoryJudgeCount(rows, cats[i])
    decreases i
  {
    if i > 0 {
      assert forall h :: 0 <= h < i - 1 ==> cats[1..][h] == cats[h + 1];
      JudgeCountFromFirst(rows, cats[1..], i - 1);
    }
  }

  /**
   * The number of judges is the largest number of scores any row holds in the first category
   * (in the order BBW, BBM, LF, DF, MI) in which some row holds one.
   */
  lemma JudgeCountFirstScored(rows: seq<Couple>, i: nat)
    requires i < |Aggregation.CategoryCodes|
    requires forall h :: 0 <= h < i ==> CategoryJudgeCount(rows, Aggregation.CategoryCodes[h]) == 0
    requires CategoryJudgeCount(rows, Aggregation.CategoryCodes[i]) != 0
    ensures forall k :: 0 <= k < |rows| ==> RowJudgeCount(rows[k], Aggregation.CategoryCodes[i]) <= JudgeCount(rows)
    ensures exists k :: 0 <= k < |rows| && RowJudgeCount(rows[k], Aggregation.CategoryCodes[i]) == JudgeCount(rows)
  {
    JudgeCountFromFirst(rows, Aggregation.CategoryCodes, i);
  }

  /** The scan over categories and rows that finds the number of judges. */
  method CountJudges(rows: seq<Couple>) returns (numJudges: nat)
    ensures numJudges == JudgeCount(rows)
  {
    var cats := Aggregation.CategoryCodes;
    numJudges := 0;
    var i := 0;
    while i < |cats|
      invariant 0 <= i <= |cats|
      invariant numJudges == 0
      invariant JudgeCount(rows) == JudgeCountFrom(rows, cats[i..])
    {
      var cat := cats[i];
      var r := 0;
      while r < |rows|
        invariant 0 <= r <= |rows|
        invariant numJudges == CategoryJudgeCount(rows[..r], cat)
      {
        assert rows[..r + 1][..r] == rows[..r];
        if cat in rows[r].scores {
          var count := |Aggregation.Present(rows[r].scores[cat])|;
          if count > numJudges {
            numJudges := count;
          }
        }
        r := r + 1;
      }
      assert rows[..|rows|] == rows;
      if numJudges != 0 {
        assert cats[i..][0] == cat;
        break;
      }
      assert cats[i..][1..] == cats[i + 1..];
      i := i + 1;
    }
  }

  // ---------------------------------------------------------------------------------------
  // judge names

  /** A roster entry of the round file: the judge's letter ("" when absent) and name. */
  datatype Judge = Judge(letter: string, name: Option<string>)

  predicate ByLetter(a: Judge, b: Judge) {
    Less(a.letter, b.letter)
  }

  lemma ByLetterOrder()
    ensures StrictWeakOrder(ByLetter)
  {
    forall a: Judge ensures !ByLetter(a, a) {
      LessIrreflexive(a.letter);
    }
    forall a: Judge, b: Judge, c: Judge | ByLetter(a, b) && ByLetter(b, c) ensures ByLetter(a, c) {
      LessTransitive(a.letter, b.letter, c.letter);
    }
    forall a: Judge, b: Judge, c: Judge | ByLetter(a, c) ensures ByLetter(a, b) || ByLetter(b, c) {
      LessTotal(a.letter, b.letter);
      if Less(b.letter, a.letter) {
        LessTransitive(b.letter, a.letter, c.letter);
      }
    }
  }

  /** The roster ordered by letter, entries with equal letters in roster order. */
  function SortedJudges(judges: seq<Judge>): seq<Judge> {
    Sort(judges, ByLetter)
  }

  lemma SortedJudgesByLetter(judges: seq<Judge>)
    ensures multiset(SortedJudges(judges)) == multiset(judges)
    ensures forall i, j :: 0 <= i < j < |SortedJudges(judges)| ==>
      !Less(SortedJudges(judges)[j].letter, SortedJudges(judges)[i].letter)
  {
    ByLetterOrder();
    SortSorted(judges, ByLetter);
  }

  /** Python's `str(n)` for a natural number. */
  function DecimalString(n: nat): (s: string)
    ensures s != [] && AllDigits(s)
  {
    if n < 10 then [('0' as int + n) as char]
    else DecimalString(n / 10) + [('0' as int + n % 10) as char]
  }

  lemma {:induction false} DecimalStringValue(n: nat)
    ensures DigitsValue(DecimalString(n)) == n
  {
    if n >= 10 {
      var s := DecimalString(n);
      DecimalStringValue(n / 10);
      assert s[..|s| - 1] == DecimalString(n / 10);
    }
  }

  /** "Judge 1", "Judge 2", ... */
  function DefaultLabel(idx: nat): string {
    "Judge " + DecimalString(idx + 1)
  }

  /** The label of the judge at position `idx`: first word of the name, else letter, else number. */
  function JudgeLabel(judge: Judge, idx: nat): string {
    var fullName := judge.name.GetOr([]);
    var words := Words(Strip(fullName));
    if words != [] then words[0]
    else if judge.letter != [] then judge.letter
    else DefaultLabel(idx)
  }

  /** The label as the dashboard computes it, with `None` where it raises an IndexError. */
  function JudgeLabelAsWritten(judge: Judge, idx: nat): Option<string> {
    var fullName := judge.name.GetOr([]);
    var words := Words(Strip(fullName));
    if fullName != [] then (if words != [] then Some(words[0]) else None)
    else if judge.letter != [] then Some(judge.letter)
    else Some(DefaultLabel(idx))
  }

  /** A name made only of blanks passes the `if full_name` test and has no first word. */
  lemma BlankNameRaises()
    ensures JudgeLabelAsWritten(Judge("A", Some(" ")), 0) == None
  {
    StripByEmpty(" ", IsSpace);
    assert Strip(" ") == [];
  }

  /** The label is never empty, and it agrees with the dashboard wherever that does not raise. */
  lemma JudgeLabelCorrected(judge: Judge, idx: nat)
    ensures JudgeLabel(judge, idx) != []
    ensures JudgeLabelAsWritten(judge, idx).Some? ==> JudgeLabelAsWritten(judge, idx).value == JudgeLabel(judge, idx)
    ensures JudgeLabelAsWritten(judge, idx).None? <==>
      judge.name.GetOr([]) != [] && Words(Strip(judge.name.GetOr([]))) == []
  {
    var words := Words(Strip(judge.name.GetOr([])));
    if words != [] {
      assert words[0] in words;
    }
    if judge.name.GetOr([]) == [] {
      StripByEmpty([], IsSpace);
    }
  }

  /** The name shown for judge `idx` of `numJudges`. */
  function JudgeNameAt(judges: seq<Judge>, idx: nat): string {
    if idx < |judges| then JudgeLabel(SortedJudges(judges)[idx], idx) else DefaultLabel(idx)
  }

  /** One judge's label, from the full name, the letter or the position. */
  method FirstName(judge: Judge, idx: nat) returns (firstName: string)
    ensures firstName == JudgeLabel(judge, idx)
  {
    var fullName := judge.name.GetOr([]);
    var letter := judge.letter;
    if Words(Strip(fullName)) != [] {
      firstName := Words(Strip(fullName))[0];
    } else if letter != [] {
      firstName := letter;
    } else {
      firstName := DefaultLabel(idx);
    }
  }

  method JudgeNames(judges: seq<Judge>, numJudges: nat) returns (names: seq<string>)
    ensures |names| == numJudges
    ensures forall idx :: 0 <= idx < numJudges ==> names[idx] == JudgeNameAt(judges, idx)
  {
    if judges != [] {
      var sortedJudges := SortedJudges(judges);
      ghost var wanted := seq(numJudges, h requires 0 <= h < numJudges => JudgeNameAt(judges, h));
      names := [];
      for idx := 0 to numJudges
        invariant names == wanted[..idx]
      {
        var firstName;
        if idx < |sortedJudges| {
          firstName := FirstName(sortedJudges[idx], idx);
        } else {
          firstName := DefaultLabel(idx);
        }
        TakeSnoc(wanted, idx);
        names := names + [firstName];
      }
      assert wanted[..numJudges] == wanted;
    } else {
      names := seq(numJudges, i requires 0 <= i < numJudges => DefaultLabel(i));
    }
  }

  // ---------------------------------------------------------------------------------------
  // totals

  /** Judge `j`'s score in the category, 0 where the list is missing, too short or `None`. */
  function Slot(row: Couple, cat: string, j: nat): real {
    var scores := ScoresOf(row, cat);
    if j < |scores| && scores[j].Some? then scores[j].value else 0.0
  }

  function TotalOver(row: Couple, cats: seq<string>, j: nat): real
    decreases |cats|
  {
    if cats == [] then 0.0 else TotalOver(row, cats[..|cats| - 1], j) + Slot(row, cats[|cats| - 1], j)
  }

  /** Judge `j`'s total for the row over the five categories. */
  function JudgeTotal(row: Couple, j: nat): real {
    TotalOver(row, Aggregation.CategoryCodes, j)
  }

  method RowTotal(row: Couple, j: nat) returns (total: real)
    ensures total == JudgeTotal(row, j)
  {
    var cats := Aggregation.CategoryCodes;
    total := 0.0;
    for i := 0 to |cats|
      invariant total == TotalOver(row, cats[..i], j)
    {
      assert cats[..i + 1][..i] == cats[..i];
      var scores := ScoresOf(row, cats[i]);
      if j < |scores| {
        var score := scores[j];
        if score.Some? {
          total := total + score.value;
        }
      }
    }
    assert cats[..|cats|] == cats;
  }

  /** A couple's start number with one judge's total. */
  datatype Entry = Entry(id: string, total: real)

  function JudgeTotals(rows: seq<Couple>, j: nat): (totals: seq<Entry>)
    ensures |totals| == |rows|
  {
    seq(|rows|, k requires 0 <= k < |rows| => Entry(rows[k].startNumber, JudgeTotal(rows[k], j)))
  }

  method TotalsFor(rows: seq<Couple>, j: nat) returns (totals: seq<Entry>)
    ensures totals == JudgeTotals(rows, j)
  {
    totals := [];
    for r := 0 to |rows|
      invariant totals == JudgeTotals(rows, j)[..r]
    {
      var total := RowTotal(rows[r], j);
      assert JudgeTotals(rows, j)[..r + 1] == totals + [Entry(rows[r].startNumber, total)];
      totals := totals + [Entry(rows[r].startNumber, total)];
    }
  }

  // ---------------------------------------------------------------------------------------
  // competition ranking

  /** Sort key `(-total, start_number)`: higher total first, then start number as text. */
  predicate GoesBefore(a: Entry, b: Entry) {
    a.total > b.total || (a.total == b.total && Less(a.id, b.id))
  }

  lemma GoesBeforeOrder()
    ensures StrictWeakOrder(GoesBefore) && Connected(GoesBefore)
  {
    forall a: Entry ensures !GoesBefore(a, a) {
      LessIrreflexive(a.id);
    }
    forall a: Entry, b: Entry, c: Entry | GoesBefore(a, b) && GoesBefore(b, c) ensures GoesBefore(a, c) {
      if a.total == b.total == c.total {
        LessTransitive(a.id, b.id, c.id);
      }
    }
    forall a: Entry, b: Entry, c: Entry | GoesBefore(a, c) ensures GoesBefore(a, b) || GoesBefore(b, c) {
      LessTotal(a.id, b.id);
      if a.total == b.total == c.total && Less(b.id, a.id) {
        LessTransitive(b.id, a.id, c.id);
      }
    }
    forall a: Entry, b: Entry | a != b ensures GoesBefore(a, b) || GoesBefore(b, a) {
      LessTotal(a.id, b.id);
    }
  }

  /** How many entries have a total strictly above `x`. */
  function CountAbove(s: seq<Entry>, x: real): (n: nat)
    ensures n <= |s|
  {
    if s == [] then 0 else (if s[0].total > x then 1 else 0) + CountAbove(s[1..], x)
  }

  lemma {:induction false} CountAboveConcat(a: seq<Entry>, b: seq<Entry>, x: real)
    ensures CountAbove(a + b, x) == CountAbove(a, x) + CountAbove(b, x)
    decreases |a|
  {
    if a == [] {
      assert a + b == b;
    } else {
      assert (a + b)[0] == a[0];
      assert (a + b)[1..] == a[1..] + b;
      CountAboveConcat(a[1..], b, x);
    }
  }

  /** Taking out the element at `k` leaves the rest, counted the same way. */
  lemma CountAboveRemove(b: seq<Entry>, k: nat, x: real)
    requires k < |b|
    ensures CountAbove(b, x) == CountAbove([b[k]], x) + CountAbove(b[..k] + b[k + 1..], x)
  {
    assert b == b[..k] + [b[k]] + b[k + 1..];
    CountAboveConcat(b[..k], b[k + 1..], x);
    CountAboveConcat(b[..k], [b[k]], x);
    CountAboveConcat(b[..k] + [b[k]], b[k + 1..], x);
  }

  lemma {:induction false} CountAbovePermutation(a: seq<Entry>, b: seq<Entry>, x: real)
    requires multiset(a) == multiset(b)
    ensures CountAbove(a, x) == CountAbove(b, x)
    decreases |a|
  {
    if a == [] {
      assert |b| == |multiset(b)| == 0;
    } else {
      assert a[0] in multiset(b);
      var k :| 0 <= k < |b| && b[k] == a[0];
      MultisetRemove(a, b, k);
      CountAbovePermutation(a[1..], b[..k] + b[k + 1..], x);
      CountAboveRemove(b, k, x);
    }
  }

  lemma {:induction false} CountAboveAll(s: seq<Entry>, x: real)
    requires forall k :: 0 <= k < |s| ==> s[k].total > x
    ensures CountAbove(s, x) == |s|
    decreases |s|
  {
    if s != [] {
      assert forall k :: 0 <= k < |s| - 1 ==> s[1..][k] == s[k + 1];
      CountAboveAll(s[1..], x);
    }
  }

  lemma {:induction false} CountAboveNone(s: seq<Entry>, x: real)
    requires forall k :: 0 <= k < |s| ==> s[k].total <= x
    ensures CountAbove(s, x) == 0
    decreases |s|
  {
    if s != [] {
      assert forall k :: 0 <= k < |s| - 1 ==> s[1..][k] == s[k + 1];
      CountAboveNone(s[1..], x);
    }
  }

  predicate Descending(s: seq<Entry>) {
    forall i, j :: 0 <= i < j < |s| ==> s[i].total >= s[j].total
  }

  lemma DescendingSplit(s: seq<Entry>, q: nat)
    requires Descending(s) && q < |s|
    ensures forall k :: 0 <= k < |s[q..]| ==> s[q..][k].total <= s[q].total
    ensures q > 0 ==> forall k :: 0 <= k < |s[..q]| ==> s[..q][k].total >= s[q - 1].total
  {
    forall k | 0 <= k < |s[q..]| ensures s[q..][k].total <= s[q].total {
      assert s[q..][k] == s[q + k];
    }
    if q > 0 {
      forall k | 0 <= k < |s[..q]| ensures s[..q][k].total >= s[q - 1].total {
        assert s[..q][k] == s[k];
      }
    }
  }

  /**
   * In a descending sequence at most `q` entries lie above position `q`, and exactly `q`
   * when position `q` starts a new total.
   */
  lemma CountAboveAt(s: seq<Entry>, q: nat)
    requires Descending(s) && q < |s|
    ensures CountAbove(s, s[q].total) <= q
    ensures q == 0 || s[q - 1].total != s[q].total ==> CountAbove(s, s[q].total) == q
  {
    var x := s[q].total;
    assert s == s[..q] + s[q..];
    CountAboveConcat(s[..q], s[q..], x);
    DescendingSplit(s, q);
    CountAboveNone(s[q..], x);
    if q > 0 && s[q - 1].total != x {
      assert s[q - 1].total > x;
      CountAboveAll(s[..q], x);
    }
  }

  predicate DistinctIds(s: seq<Entry>) {
    forall i, j :: 0 <= i < j < |s| ==> s[i].id != s[j].id
  }

  function IdOf(e: Entry): string {
    e.id
  }

  function Ids(s: seq<Entry>): set<string> {
    set e | e in s :: e.id
  }

  /**
   * A competition ranking of the totals: every start number gets a rank in 1..n, and when
   * start numbers are distinct, a couple's rank is one more than the number of couples with a
   * strictly higher total (equal totals share a rank, the next rank skips).
   */
  predicate IsCompetitionRanking(ranking: map<string, int>, totals: seq<Entry>) {
    && ranking.Keys == Ids(totals)
    && (forall id :: id in ranking ==> 1 <= ranking[id] <= |totals|)
    && (DistinctIds(totals) ==>
          forall k :: 0 <= k < |totals| ==> ranking[totals[k].id] == 1 + CountAbove(totals, totals[k].total))
  }

  /** Sorting by `GoesBefore` puts higher totals first and keeps the entries. */
  lemma SortedBestFirst(totals: seq<Entry>)
    ensures multiset(Sort(totals, GoesBefore)) == multiset(totals)
    ensures Descending(Sort(totals, GoesBefore))
    ensures DistinctIds(totals) ==> DistinctIds(Sort(totals, GoesBefore))
  {
    var sorted := Sort(totals, GoesBefore);
    GoesBeforeOrder();
    SortSorted(totals, GoesBefore);
    forall i, j | 0 <= i < j < |sorted| ensures sorted[i].total >= sorted[j].total {
      assert !GoesBefore(sorted[j], sorted[i]);
    }
    if DistinctIds(totals) {
      PermutationKeepsDistinct(totals, sorted, IdOf);
    }
  }

  lemma IdsPermutation(a: seq<Entry>, b: seq<Entry>)
    requires multiset(a) == multiset(b)
    ensures Ids(a) == Ids(b)
  {
    forall e | e in a ensures e in b {
      assert e in multiset(b);
    }
    forall e | e in b ensures e in a {
      assert e in multiset(a);
    }
  }

  /** A rank stated for each position of the sorted order holds for each input position. */
  lemma RankCarriesOver(sorted: seq<Entry>, totals: seq<Entry>, ranking: map<string, int>, k: nat)
    requires multiset(sorted) == multiset(totals) && k < |totals|
    requires forall m :: 0 <= m < |sorted| ==>
      sorted[m].id in ranking && ranking[sorted[m].id] == 1 + CountAbove(sorted, sorted[m].total)
    ensures totals[k].id in ranking && ranking[totals[k].id] == 1 + CountAbove(totals, totals[k].total)
  {
    assert totals[k] in multiset(sorted);
    var m :| 0 <= m < |sorted| && sorted[m] == totals[k];
    CountAbovePermutation(sorted, totals, totals[k].total);
  }

  lemma RanksCarryOver(sorted: seq<Entry>, totals: seq<Entry>, ranking: map<string, int>)
    requires multiset(sorted) == multiset(totals) && DistinctIds(sorted)
    requires RankedPrefix(sorted, ranking, |sorted|)
    ensures forall k :: 0 <= k < |totals| ==>
      totals[k].id in ranking && ranking[totals[k].id] == 1 + CountAbove(totals, totals[k].total)
  {
    assert sorted[..|sorted|] == sorted;
    forall m | 0 <= m < |sorted| ensures sorted[m].id in ranking {
      assert sorted[m] in sorted;
    }
    forall k | 0 <= k < |totals|
      ensures totals[k].id in ranking && ranking[totals[k].id] == 1 + CountAbove(totals, totals[k].total)
    {
      RankCarriesOver(sorted, totals, ranking, k);
    }
  }

  /** What the ranking loop has built after the first `p` sorted entries. */
  predicate RankedPrefix(sorted: seq<Entry>, ranking: map<string, int>, p: nat)
    requires p <= |sorted|
  {
    && ranking.Keys == Ids(sorted[..p])
    && (forall id :: id in ranking ==> 1 <= ranking[id] <= p)
    && (DistinctIds(sorted) ==>
          forall k :: 0 <= k < p ==> ranking[sorted[k].id] == 1 + CountAbove(sorted, sorted[k].total))
  }

  lemma RankStepKeys(sorted: seq<Entry>, ranking: map<string, int>, p: nat, rank: int)
    requires p < |sorted| && ranking.Keys == Ids(sorted[..p])
    ensures ranking[sorted[p].id := rank].Keys == Ids(sorted[..p + 1])
  {
    TakeSnoc(sorted, p);
    assert Ids(sorted[..p + 1]) == Ids(sorted[..p]) + {sorted[p].id};
  }

  lemma RankStepFormula(sorted: seq<Entry>, ranking: map<string, int>, p: nat, rank: int)
    requires p < |sorted| && DistinctIds(sorted)
    requires forall k :: 0 <= k < p ==> sorted[k].id in ranking
    requires forall k :: 0 <= k < p ==> ranking[sorted[k].id] == 1 + CountAbove(sorted, sorted[k].total)
    requires rank == 1 + CountAbove(sorted, sorted[p].total)
    ensures forall k :: 0 <= k < p + 1 ==>
      ranking[sorted[p].id := rank][sorted[k].id] == 1 + CountAbove(sorted, sorted[k].total)
  {
    forall k | 0 <= k < p + 1
      ensures ranking[sorted[p].id := rank][sorted[k].id] == 1 + CountAbove(sorted, sorted[k].total)
    {
      if k < p {
        assert sorted[k].id != sorted[p].id;
      }
    }
  }

  lemma RankStep(sorted: seq<Entry>, ranking: map<string, int>, p: nat, rank: int)
    requires Descending(sorted) && p < |sorted|
    requires RankedPrefix(sorted, ranking, p)
    requires rank == 1 + CountAbove(sorted, sorted[p].total)
    ensures RankedPrefix(sorted, ranking[sorted[p].id := rank], p + 1)
  {
    CountAboveAt(sorted, p);
    RankStepKeys(sorted, ranking, p, rank);
    if DistinctIds(sorted) {
      forall k | 0 <= k < p ensures sorted[k].id in ranking {
        assert sorted[k] == sorted[..p][k];
      }
      RankStepFormula(sorted, ranking, p, rank);
    }
  }

  /** The ranking loop over the totals sorted best first. */
  method RankByTotals(totals: seq<Entry>) returns (ranking: map<string, int>)
    ensures IsCompetitionRanking(ranking, totals)
  {
    var sorted := Sort(totals, GoesBefore);
    SortedBestFirst(totals);
    ranking := map[];
    var prevScore: Option<real> := None;
    var prevRank := 0;
    for position := 0 to |sorted|
      invariant RankedPrefix(sorted, ranking, position)
      invariant position == 0 ==> prevScore.None?
      invariant position > 0 ==>
        (prevScore == Some(sorted[position - 1].total) && prevRank == 1 + CountAbove(sorted, sorted[position - 1].total))
    {
      var entry := sorted[position];
      var rank;
      CountAboveAt(sorted, position);
      if prevScore.Some? && entry.total == prevScore.value {
        rank := prevRank;
      } else {
        rank := position + 1;
        prevScore := Some(entry.total);
        prevRank := rank;
      }
      RankStep(sorted, ranking, position, rank);
      ranking := ranking[entry.id := rank];
    }
    assert sorted[..|sorted|] == sorted;
    IdsPermutation(sorted, totals);
    if DistinctIds(totals) {
      RanksCarryOver(sorted, totals, ranking);
    }
  }

  /** The best total ranks first. */
  lemma RankOfBest(totals: seq<Entry>, x: real)
    requires forall k :: 0 <= k < |totals| ==> totals[k].total <= x
    ensures CountAbove(totals, x) == 0
  {
    CountAboveNone(totals, x);
  }

  /** A strictly higher total ranks strictly better: it is itself counted above the lower one. */
  lemma {:induction false} HigherRanksBetter(totals: seq<Entry>, a: nat, y: real)
    requires a < |totals| && totals[a].total > y
    ensures CountAbove(totals, y) >= CountAbove(totals, totals[a].total) + 1
    decreases a
  {
    if a == 0 {
      CountAboveMonotone(totals[1..], totals[0].total, y);
    } else {
      assert totals[1..][a - 1] == totals[a];
      HigherRanksBetter(totals[1..], a - 1, y);
    }
  }

  lemma {:induction false} CountAboveMonotone(s: seq<Entry>, x: real, y: real)
    requires y <= x
    ensures CountAbove(s, y) >= CountAbove(s, x)
    decreases |s|
  {
    if s != [] {
      CountAboveMonotone(s[1..], x, y);
    }
  }

  // ---------------------------------------------------------------------------------------
  // the whole subset

  /**
   * Rankings and names for a set of rows: one competition ranking of the judge's totals per
   * judge, as many judges as `JudgeCount` finds, none for an empty set.
   */
  /** Each judge's ranking ranks that judge's totals. */
  ghost predicate AllRanked(rankings: seq<map<string, int>>, rows: seq<Couple>) {
    forall j :: 0 <= j < |rankings| ==> IsCompetitionRanking(rankings[j], JudgeTotals(rows, j))
  }

  lemma AllRankedSnoc(rankings: seq<map<string, int>>, ranking: map<string, int>, rows: seq<Couple>)
    requires AllRanked(rankings, rows)
    requires IsCompetitionRanking(ranking, JudgeTotals(rows, |rankings|))
    ensures AllRanked(rankings + [ranking], rows)
  {
    var r := rankings + [ranking];
    forall j | 0 <= j < |r| ensures IsCompetitionRanking(r[j], JudgeTotals(rows, j)) {
      if j < |rankings| {
        assert r[j] == rankings[j];
      }
    }
  }

  method BuildJudgeRankings(rows: seq<Couple>, judges: seq<Judge>)
    returns (rankings: seq<map<string, int>>, names: seq<string>)
    ensures |rankings| == |names| == JudgeCount(rows)
    ensures forall idx :: 0 <= idx < |names| ==> names[idx] == JudgeNameAt(judges, idx)
    ensures forall j :: 0 <= j < |rankings| ==> IsCompetitionRanking(rankings[j], JudgeTotals(rows, j))
  {
    if rows == [] {
      JudgeCountZero(rows);
      return [], [];
    }
    var numJudges := CountJudges(rows);
    if numJudges == 0 {
      return [], [];
    }
    names := JudgeNames(judges, numJudges);
    rankings := [];
    for j := 0 to numJudges
      invariant |rankings| == j
      invariant AllRanked(rankings, rows)
    {
      var totals := TotalsFor(rows, j);
      var ranking := RankByTotals(totals);
      AllRankedSnoc(rankings, ranking, rows);
      rankings := rankings + [ranking];
    }
  }
}
