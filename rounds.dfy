/**
 * The Slow and the Fast round of one category as one set of scores for the majority system
 * (`combine_rounds_for_majority`), and the lookup of a round file's partner round
 * (`load_corresponding_round_file`).
 */
module Rounds {
  import opened Optional
  import opened Text
  import opened Lex
  import opened Sorting
  import opened Couples
  import Ties
  import Aggregation
  import Rankings

  // ---------------------------------------------------------------------------------------
  // the partner round's file

  const SlowSuffix: string := "_Slow.json"
  const FastSuffix: string := "_Fast.json"

  /** The file name of the other round: Slow and Fast swap, any other name has no partner. */
  function PartnerName(filename: string): (r: Option<string>)
    ensures r.Some? <==> EndsWith(filename, SlowSuffix) || EndsWith(filename, FastSuffix)
  {
    if EndsWith(filename, SlowSuffix) then Some(ReplaceAll(filename, SlowSuffix, FastSuffix))
    else if EndsWith(filename, FastSuffix) then Some(ReplaceAll(filename, FastSuffix, SlowSuffix))
    else None
  }

  /** The partner round's data, when the results hold a file of that name. */
  function LoadCorrespondingRound<T>(filename: string, results: map<string, T>): (r: Option<T>)
    ensures r.Some? <==> PartnerName(filename).Some? && PartnerName(filename).value in results
    ensures r.Some? ==> r.value == results[PartnerName(filename).value]
  {
    match PartnerName(filename)
    case None => None
    case Some(name) => if name in results then Some(results[name]) else None
  }

  /** `pat` occurs nowhere in `s`. */
  predicate Absent(s: string, pat: string) {
    forall j :: 0 <= j <= |s| ==> !OccursAt(s, pat, j)
  }

  /** An occurrence of a round suffix ending past the stem is the suffix itself. */
  lemma SuffixOnlyAtEnd(p: string, suffix: string, j: nat)
    requires suffix == SlowSuffix || suffix == FastSuffix
    requires Absent(p, suffix) && j < |p|
    ensures !OccursAt(p + suffix, suffix, j)
  {
    if j + |suffix| <= |p| {
      assert (p + suffix)[j..j + |suffix|] == p[j..j + |suffix|];
      assert !OccursAt(p, suffix, j);
    } else {
      var d := |p| - j;
      assert (p + suffix)[j + d] == suffix[0];
      assert suffix[d] != suffix[0];
    }
  }

  /** A stem that carries neither suffix itself: its Slow and Fast files are each other's partner. */
  lemma {:induction false} PartnerSwap(p: string)
    requires Absent(p, SlowSuffix) && Absent(p, FastSuffix)
    ensures PartnerName(p + SlowSuffix) == Some(p + FastSuffix)
    ensures PartnerName(p + FastSuffix) == Some(p + SlowSuffix)
  {
    assert (p + SlowSuffix)[|p|..] == SlowSuffix;
    assert (p + FastSuffix)[|p|..] == FastSuffix;
    assert !EndsWith(p + FastSuffix, SlowSuffix) by {
      assert (p + FastSuffix)[|p + FastSuffix| - |SlowSuffix|..] == FastSuffix;
    }
    forall j | 0 <= j < |p| ensures !OccursAt(p + SlowSuffix, SlowSuffix, j) {
      SuffixOnlyAtEnd(p, SlowSuffix, j);
    }
    forall j | 0 <= j < |p| ensures !OccursAt(p + FastSuffix, FastSuffix, j) {
      SuffixOnlyAtEnd(p, FastSuffix, j);
    }
    ReplaceAllSuffix(p, SlowSuffix, FastSuffix);
    ReplaceAllSuffix(p, FastSuffix, SlowSuffix);
  }

  /** Looking up the partner of the partner finds the first round again. */
  lemma PartnerRoundTrip<T>(p: string, results: map<string, T>)
    requires Absent(p, SlowSuffix) && Absent(p, FastSuffix)
    requires p + SlowSuffix in results && p + FastSuffix in results
    ensures LoadCorrespondingRound(p + SlowSuffix, results) == Some(results[p + FastSuffix])
    ensures LoadCorrespondingRound(p + FastSuffix, results) == Some(results[p + SlowSuffix])
  {
    PartnerSwap(p);
  }

  // ---------------------------------------------------------------------------------------
  // adding two score lists

  /** Slot `i` of a score list; past the end it is `None`. */
  function SlotAt(s: seq<Option<real>>, i: nat): Option<real> {
    if i < |s| then s[i] else None
  }

  /** Two slots added, a missing one counting 0; absent only when absent from both. */
  function AddSlots(a: Option<real>, b: Option<real>): Option<real> {
    if a.None? && b.None? then None else Some(a.GetOr(0.0) + b.GetOr(0.0))
  }

  /** The two lists slot by slot, as long as the longer one. */
  function MergedScores(a: seq<Option<real>>, b: seq<Option<real>>): (r: seq<Option<real>>)
    ensures |r| == if |a| < |b| then |b| else |a|
  {
    var n := if |a| < |b| then |b| else |a|;
    seq(n, i requires 0 <= i < n => AddSlots(SlotAt(a, i), SlotAt(b, i)))
  }

  /** Every slot of the merged list: empty exactly where both lists are, else their sum. */
  lemma MergedSlots(a: seq<Option<real>>, b: seq<Option<real>>, i: nat)
    ensures SlotAt(MergedScores(a, b), i).None? <==> SlotAt(a, i).None? && SlotAt(b, i).None?
    ensures SlotAt(MergedScores(a, b), i).Some? ==>
      SlotAt(MergedScores(a, b), i).value == SlotAt(a, i).GetOr(0.0) + SlotAt(b, i).GetOr(0.0)
  {
  }

  /** Which round is "current" does not change the merged scores. */
  lemma MergedCommutes(a: seq<Option<real>>, b: seq<Option<real>>)
    ensures MergedScores(a, b) == MergedScores(b, a)
  {
  }

  /** Merging with a round that has no list for the category keeps the list. */
  lemma MergedWithEmpty(a: seq<Option<real>>)
    ensures MergedScores(a, []) == a
  {
  }

  method MergeScores(scoresA: seq<Option<real>>, scoresB: seq<Option<real>>)
      returns (combined: seq<Option<real>>)
    ensures combined == MergedScores(scoresA, scoresB)
  {
    var maxLen := if |scoresA| < |scoresB| then |scoresB| else |scoresA|;
    if maxLen == 0 {
      return [];
    }
    combined := [];
    for idx := 0 to maxLen
      invariant |combined| == idx
      invariant forall i :: 0 <= i < idx ==> combined[i] == AddSlots(SlotAt(scoresA, i), SlotAt(scoresB, i))
    {
      var valA := if idx < |scoresA| then scoresA[idx] else None;
      var valB := if idx < |scoresB| then scoresB[idx] else None;
      if valA.None? && valB.None? {
        combined := combined + [None];
      } else {
        var total := 0.0;
        if valA.Some? {
          total := total + valA.value;
        }
        if valB.Some? {
          total := total + valB.value;
        }
        combined := combined + [Some(total)];
      }
    }
  }

  // ---------------------------------------------------------------------------------------
  // one couple's two rows

  /** The merged lists of the categories `cats`. */
  function MergedIn(base: Couple, other: Couple, cats: seq<string>): map<string, seq<Option<real>>> {
    map cat | cat in cats :: MergedScores(ScoresOf(base, cat), ScoresOf(other, cat))
  }

  /** The couple's row from the current round with each category's lists added. */
  function MergeRows(base: Couple, other: Couple): (r: Couple)
    ensures r.startNumber == base.startNumber
    ensures forall cat :: cat in Aggregation.CategoryCodes ==>
      ScoresOf(r, cat) == MergedScores(ScoresOf(base, cat), ScoresOf(other, cat))
    ensures forall cat :: cat !in Aggregation.CategoryCodes ==>
      (cat in r.scores <==> cat in base.scores) && (cat in r.scores ==> r.scores[cat] == base.scores[cat])
  {
    Couple(base.startNumber, base.scores + MergedIn(base, other, Aggregation.CategoryCodes))
  }

  lemma MergedInSnoc(base: Couple, other: Couple, cats: seq<string>, cat: string)
    ensures MergedIn(base, other, cats + [cat]) ==
      MergedIn(base, other, cats)[cat := MergedScores(ScoresOf(base, cat), ScoresOf(other, cat))]
  {
  }

  lemma UpdateUnion<K, V>(a: map<K, V>, b: map<K, V>, k: K, v: V)
    ensures (a + b)[k := v] == a + b[k := v]
  {
  }

  method MergeRow(baseRow: Couple, otherRow: Couple) returns (combined: Couple)
    ensures combined == MergeRows(baseRow, otherRow)
  {
    var categories := Aggregation.CategoryCodes;
    combined := baseRow;
    assert baseRow.scores + MergedIn(baseRow, otherRow, []) == baseRow.scores;
    for i := 0 to |categories|
      invariant combined == Couple(baseRow.startNumber, baseRow.scores + MergedIn(baseRow, otherRow, categories[..i]))
    {
      var cat := categories[i];
      var mergedScores := MergeScores(ScoresOf(baseRow, cat), ScoresOf(otherRow, cat));
      UpdateUnion(baseRow.scores, MergedIn(baseRow, otherRow, categories[..i]), cat, mergedScores);
      MergedInSnoc(baseRow, otherRow, categories[..i], cat);
      TakeSnoc(categories, i);
      combined := combined.(scores := combined.scores[cat := mergedScores]);
    }
    assert categories[..|categories|] == categories;
  }

  /** Judge `j`'s mark in a category of the merged row is the sum of the two rounds' marks. */
  lemma MergedSlot(x: Couple, y: Couple, cat: string, j: nat)
    requires cat in Aggregation.CategoryCodes
    ensures Rankings.Slot(MergeRows(x, y), cat, j) == Rankings.Slot(x, cat, j) + Rankings.Slot(y, cat, j)
  {
    MergedSlots(ScoresOf(x, cat), ScoresOf(y, cat), j);
  }

  lemma {:induction false} MergedTotalOver(x: Couple, y: Couple, cats: seq<string>, j: nat)
    requires forall k :: 0 <= k < |cats| ==> cats[k] in Aggregation.CategoryCodes
    ensures Rankings.TotalOver(MergeRows(x, y), cats, j) == Rankings.TotalOver(x, cats, j) + Rankings.TotalOver(y, cats, j)
    decreases |cats|
  {
    if cats != [] {
      MergedTotalOver(x, y, cats[..|cats| - 1], j);
      MergedSlot(x, y, cats[|cats| - 1], j);
    }
  }

  /** A couple that danced both rounds is ranked on the sum of its two totals. */
  lemma MergedJudgeTotal(x: Couple, y: Couple, j: nat)
    ensures Rankings.JudgeTotal(MergeRows(x, y), j) == Rankings.JudgeTotal(x, j) + Rankings.JudgeTotal(y, j)
  {
    MergedTotalOver(x, y, Aggregation.CategoryCodes, j);
  }

  // ---------------------------------------------------------------------------------------
  // the two rounds

  function StartNumberOf(row: Couple): string {
    row.startNumber
  }

  function StartNumbers(rows: seq<Couple>): seq<string> {
    Keys(rows, StartNumberOf)
  }

  /** No later row of the round has the same start number as row `k`. */
  ghost predicate LastWith(rows: seq<Couple>, k: nat) {
    forall l :: k < l < |rows| ==> rows[l].startNumber != rows[k].startNumber
  }

  /** `{row.startNumber: row for row in rows}`: each start number's last row. */
  function RowsByNumber(rows: seq<Couple>): (m: map<string, Couple>)
    ensures forall id :: id in m <==> id in StartNumbers(rows)
    ensures forall id :: id in m ==> m[id].startNumber == id && m[id] in rows
    decreases |rows|
  {
    if rows == [] then map[]
    else
      var init := rows[..|rows| - 1];
      var last := rows[|rows| - 1];
      assert StartNumbers(rows) == StartNumbers(init) + [last.startNumber];
      RowsByNumber(init)[last.startNumber := last]
  }

  /** A start number's entry is the round's last row with that number. */
  lemma {:induction false} LastRowWins(rows: seq<Couple>, k: nat)
    requires k < |rows| && LastWith(rows, k)
    ensures RowsByNumber(rows)[rows[k].startNumber] == rows[k]
    decreases |rows|
  {
    if k < |rows| - 1 {
      var init := rows[..|rows| - 1];
      assert init[k] == rows[k];
      assert LastWith(init, k);
      LastRowWins(init, k);
    }
  }

  /** The row for one start number: merged where both rounds have it, else copied. */
  function RowFor(current: map<string, Couple>, other: map<string, Couple>, id: string): Couple
    requires id in current || id in other
  {
    if id in current && id in other then MergeRows(current[id], other[id])
    else if id in current then current[id]
    else other[id]
  }

  /** Each element once, in order of first appearance. */
  function Dedup(s: seq<string>): (r: seq<string>)
    ensures forall x :: x in r <==> x in s
    ensures Ties.Distinct(r)
    decreases |s|
  {
    if s == [] then []
    else
      var init := Dedup(s[..|s| - 1]);
      if s[|s| - 1] in init then
        assert forall x :: x in s <==> x in s[..|s| - 1] || x == s[|s| - 1];
        init
      else
        assert forall x :: x in s <==> x in s[..|s| - 1] || x == s[|s| - 1];
        init + [s[|s| - 1]]
  }

  lemma LessOrder()
    ensures StrictWeakOrder(Less) && Connected(Less)
  {
    forall a: string ensures !Less(a, a) {
      LessIrreflexive(a);
    }
    forall a: string, b: string, c: string | Less(a, b) && Less(b, c) ensures Less(a, c) {
      LessTransitive(a, b, c);
    }
    forall a: string, b: string, c: string | Less(a, c) ensures Less(a, b) || Less(b, c) {
      LessTotal(a, b);
      LessTotal(b, c);
      if !Less(a, b) && !Less(b, c) {
        if a == b {
        } else if b == c {
        } else {
          LessTransitive(c, b, a);
          LessAsymmetric(a, c);
        }
      }
    }
    forall a: string, b: string | a != b ensures Less(a, b) || Less(b, a) {
      LessTotal(a, b);
    }
  }

  /** `sorted(set(xs))`: every element once, in strictly increasing text order. */
  function SortedUnique(xs: seq<string>): (r: seq<string>)
    ensures forall x :: x in r <==> x in xs
    ensures forall i, j :: 0 <= i < j < |r| ==> Less(r[i], r[j])
  {
    var ids := Dedup(xs);
    var r := Sort(ids, Less);
    LessOrder();
    SortSorted(ids, Less);
    Ties.DistinctSub(ids, r);
    assert forall x :: x in r <==> x in multiset(ids);
    assert forall i, j :: 0 <= i < j < |r| ==> Less(r[i], r[j]) by {
      forall i, j | 0 <= i < j < |r| ensures Less(r[i], r[j]) {
        LessTotal(r[i], r[j]);
      }
    }
    r
  }

  /** Every id is a start number of one round or the other. */
  ghost predicate Covered(current: map<string, Couple>, other: map<string, Couple>, ids: seq<string>) {
    forall k :: 0 <= k < |ids| ==> ids[k] in current || ids[k] in other
  }

  /** Row `k` is the row for id `k`. */
  ghost predicate RowsFor(current: map<string, Couple>, other: map<string, Couple>, ids: seq<string>, rows: seq<Couple>)
    requires Covered(current, other, ids)
  {
    |rows| == |ids| && forall k :: 0 <= k < |ids| ==> rows[k] == RowFor(current, other, ids[k])
  }

  /**
   * `combine_rounds_for_majority` on the two rounds' rows: an empty round gives the other one
   * unchanged; otherwise one row per start number of either round, in text order, the rows of
   * a couple that danced both merged.
   */
  method CombineRounds(current: seq<Couple>, other: seq<Couple>) returns (combined: seq<Couple>)
    ensures current == [] ==> combined == other
    ensures current != [] && other == [] ==> combined == current
    ensures current != [] && other != [] ==>
      var currentMap := RowsByNumber(current);
      var otherMap := RowsByNumber(other);
      && (forall id :: id in StartNumbers(combined) <==> id in StartNumbers(current) || id in StartNumbers(other))
      && (forall i, j :: 0 <= i < j < |combined| ==> Less(combined[i].startNumber, combined[j].startNumber))
      && (forall k :: 0 <= k < |combined| ==>
            combined[k] == RowFor(currentMap, otherMap, combined[k].startNumber))
  {
    if current == [] {
      return other;
    }
    if other == [] {
      return current;
    }
    var currentMap := RowsByNumber(current);
    var otherMap := RowsByNumber(other);
    var allStartNumbers := SortedUnique(StartNumbers(current) + StartNumbers(other));
    assert Covered(currentMap, otherMap, allStartNumbers) by {
      forall k | 0 <= k < |allStartNumbers|
        ensures allStartNumbers[k] in currentMap || allStartNumbers[k] in otherMap
      {
        assert allStartNumbers[k] in StartNumbers(current) + StartNumbers(other);
      }
    }
    combined := BuildRows(currentMap, otherMap, allStartNumbers);
    CombinedFacts(currentMap, otherMap, allStartNumbers, combined);
  }

  /** One row per start number, in order: copied when one round has it, merged when both do. */
  method BuildRows(currentMap: map<string, Couple>, otherMap: map<string, Couple>, allStartNumbers: seq<string>)
      returns (combinedRows: seq<Couple>)
    requires Covered(currentMap, otherMap, allStartNumbers)
    ensures RowsFor(currentMap, otherMap, allStartNumbers, combinedRows)
  {
    combinedRows := [];
    for i := 0 to |allStartNumbers|
      invariant |combinedRows| == i
      invariant forall k :: 0 <= k < i ==> combinedRows[k] == RowFor(currentMap, otherMap, allStartNumbers[k])
    {
      var startNumber := allStartNumbers[i];
      var row;
      if startNumber !in currentMap {
        row := otherMap[startNumber];
      } else if startNumber !in otherMap {
        row := currentMap[startNumber];
      } else {
        row := MergeRow(currentMap[startNumber], otherMap[startNumber]);
      }
      combinedRows := combinedRows + [row];
    }
  }

  /** Each combined row carries its own start number, so the rows follow the sorted ids. */
  lemma CombinedFacts(current: map<string, Couple>, other: map<string, Couple>, ids: seq<string>, rows: seq<Couple>)
    requires forall id :: id in current ==> current[id].startNumber == id
    requires forall id :: id in other ==> other[id].startNumber == id
    requires Covered(current, other, ids) && RowsFor(current, other, ids, rows)
    ensures forall k :: 0 <= k < |rows| ==> rows[k].startNumber == ids[k]
    ensures StartNumbers(rows) == ids
    ensures forall k :: 0 <= k < |rows| ==> rows[k] == RowFor(current, other, rows[k].startNumber)
  {
  }
}
