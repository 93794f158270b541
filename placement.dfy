/**
 * The majority placement system. For the couples not yet placed, the lowest threshold at
 * which some couple is ranked that high or better by more than half of the judges decides
 * the next places: the couples with such a majority are placed by the size of their majority,
 * equal majorities settled by the tie resolution. When no threshold up to the number of
 * couples gives anyone a majority, the rest are placed by their average rank.
 */
module Placement {
  import opened Optional
  import opened Lex
  import opened Sorting
  import opened Ties

  // ---------------------------------------------------------------------------------------
  // majorities

  /** The judge ranks couple `s` at `threshold` or better (a couple it did not rank never is). */
  predicate PlacesWithin(ranking: map<string, int>, s: string, threshold: int) {
    s in ranking && ranking[s] <= threshold
  }

  /** How many of the first `k` judges rank `s` at `threshold` or better. */
  function CountWithin(s: string, rankings: seq<map<string, int>>, threshold: int, k: nat): (n: nat)
    requires k <= |rankings|
    ensures n <= k
  {
    if k == 0 then 0
    else CountWithin(s, rankings, threshold, k - 1) + (if PlacesWithin(rankings[k - 1], s, threshold) then 1 else 0)
  }

  /** `sum(1 for ranking in judge_rankings if ranking.get(s, inf) <= threshold)`. */
  function Count(s: string, rankings: seq<map<string, int>>, threshold: int): (n: nat)
    ensures n <= |rankings|
  {
    CountWithin(s, rankings, threshold, |rankings|)
  }

  /** `count > num_judges / 2` with true division. */
  predicate HasMajority(count: nat, numJudges: nat) {
    2 * count > numJudges
  }

  /** A looser threshold never loses a judge's vote. */
  lemma {:induction false} CountWithinMonotone(s: string, rankings: seq<map<string, int>>, t: int, u: int, k: nat)
    requires t <= u && k <= |rankings|
    ensures CountWithin(s, rankings, t, k) <= CountWithin(s, rankings, u, k)
  {
    if k > 0 {
      CountWithinMonotone(s, rankings, t, u, k - 1);
    }
  }

  lemma CountMonotone(s: string, rankings: seq<map<string, int>>, t: int, u: int)
    requires t <= u
    ensures Count(s, rankings, t) <= Count(s, rankings, u)
  {
    CountWithinMonotone(s, rankings, t, u, |rankings|);
  }

  /** Every judge's vote counts exactly when every judge ranks the couple within the threshold. */
  lemma {:induction false} CountWithinAll(s: string, rankings: seq<map<string, int>>, t: int, k: nat)
    requires k <= |rankings|
    ensures CountWithin(s, rankings, t, k) == k <==> forall j :: 0 <= j < k ==> PlacesWithin(rankings[j], s, t)
  {
    if k > 0 {
      CountWithinAll(s, rankings, t, k - 1);
    }
  }

  /** No judge's vote counts exactly when no judge ranks the couple within the threshold. */
  lemma {:induction false} CountWithinNone(s: string, rankings: seq<map<string, int>>, t: int, k: nat)
    requires k <= |rankings|
    ensures CountWithin(s, rankings, t, k) == 0 <==> forall j :: 0 <= j < k ==> !PlacesWithin(rankings[j], s, t)
  {
    if k > 0 {
      CountWithinNone(s, rankings, t, k - 1);
    }
  }

  /** No couple of `unplaced` has a majority at `threshold`. */
  ghost predicate NoMajority(unplaced: seq<string>, rankings: seq<map<string, int>>, numJudges: nat, threshold: int) {
    forall c :: c in unplaced ==> !HasMajority(Count(c, rankings, threshold), numJudges)
  }

  /** `threshold` is the lowest one at which `c` has its majority, of `count` judges. */
  ghost predicate MajorityAt(c: string, rankings: seq<map<string, int>>, numJudges: nat, threshold: int, count: nat) {
    && 1 <= threshold
    && Count(c, rankings, threshold) == count
    && HasMajority(count, numJudges)
    && forall u :: 1 <= u < threshold ==> !HasMajority(Count(c, rankings, u), numJudges)
  }

  // ---------------------------------------------------------------------------------------
  // candidate_counts

  /** One `start_number: count` item of an insertion-ordered dictionary. */
  datatype Tally = Tally(id: string, count: nat)

  function TallyId(e: Tally): string {
    e.id
  }

  predicate DistinctIds(items: seq<Tally>) {
    forall i, j :: 0 <= i < j < |items| ==> items[i].id != items[j].id
  }

  /** `d[id] = count`: an existing key keeps its position and takes the new value, a new key goes last. */
  function Assign(items: seq<Tally>, id: string, count: nat): (r: seq<Tally>)
    ensures Tally(id, count) in r
    ensures forall e :: e in items && e.id != id ==> e in r
    ensures forall e :: e in r ==> e == Tally(id, count) || e in items
  {
    if items == [] then [Tally(id, count)]
    else if items[0].id == id then
      assert items == [items[0]] + items[1..];
      [Tally(id, count)] + items[1..]
    else
      assert items == [items[0]] + items[1..];
      [items[0]] + Assign(items[1..], id, count)
  }

  /** Assigning keeps the keys distinct, and the key assigned holds the new count only. */
  lemma {:induction false} AssignDistinct(items: seq<Tally>, id: string, count: nat)
    requires DistinctIds(items)
    ensures DistinctIds(Assign(items, id, count))
    ensures forall e :: e in Assign(items, id, count) && e.id == id ==> e == Tally(id, count)
    decreases |items|
  {
    if items != [] {
      var rest := items[1..];
      assert DistinctIds(rest);
      if items[0].id == id {
        var r := Assign(items, id, count);
        assert r == [Tally(id, count)] + rest;
        forall i, j | 0 <= i < j < |r| ensures r[i].id != r[j].id {
          assert r[i].id == items[i].id && r[j].id == items[j].id;
        }
        forall k | 0 < k < |r| ensures r[k].id != id {
          assert r[k].id == items[k].id;
        }
      } else {
        AssignDistinct(rest, id, count);
        var tail := Assign(rest, id, count);
        forall e | e in tail ensures e.id != items[0].id {
          if e.id != id {
            assert e in rest;
            var k :| 0 <= k < |rest| && rest[k] == e;
            assert items[k + 1] == e;
          }
        }
        DistinctCons(items[0], tail);
      }
    }
  }

  lemma DistinctCons(x: Tally, xs: seq<Tally>)
    requires DistinctIds(xs) && forall e :: e in xs ==> e.id != x.id
    ensures DistinctIds([x] + xs)
  {
    var r := [x] + xs;
    forall i, j | 0 <= i < j < |r| ensures r[i].id != r[j].id {
      if i == 0 {
        assert r[j] == xs[j - 1];
      } else {
        assert r[i] == xs[i - 1] && r[j] == xs[j - 1];
      }
    }
  }

  /** `candidate_counts` after the first `k` couples of `unplaced`. */
  function Qualifying(unplaced: seq<string>, rankings: seq<map<string, int>>, numJudges: nat, threshold: int, k: nat): seq<Tally>
    requires k <= |unplaced|
  {
    if k == 0 then []
    else
      var items := Qualifying(unplaced, rankings, numJudges, threshold, k - 1);
      var count := Count(unplaced[k - 1], rankings, threshold);
      if HasMajority(count, numJudges) then Assign(items, unplaced[k - 1], count) else items
  }

  /** The dictionary holds, once each, every couple seen so far with a majority, and its count. */
  lemma {:induction false} QualifyingSpec(unplaced: seq<string>, rankings: seq<map<string, int>>, numJudges: nat, threshold: int, k: nat)
    requires k <= |unplaced|
    ensures DistinctIds(Qualifying(unplaced, rankings, numJudges, threshold, k))
    ensures forall e :: e in Qualifying(unplaced, rankings, numJudges, threshold, k) <==>
      e.id in unplaced[..k] && e.count == Count(e.id, rankings, threshold) && HasMajority(e.count, numJudges)
  {
    if k > 0 {
      QualifyingSpec(unplaced, rankings, numJudges, threshold, k - 1);
      TakeSnoc(unplaced, k - 1);
      var items := Qualifying(unplaced, rankings, numJudges, threshold, k - 1);
      AssignDistinct(items, unplaced[k - 1], Count(unplaced[k - 1], rankings, threshold));
    }
  }

  /** The dictionary is empty exactly when no couple has a majority at the threshold. */
  lemma QualifyingEmpty(unplaced: seq<string>, rankings: seq<map<string, int>>, numJudges: nat, threshold: int)
    ensures Qualifying(unplaced, rankings, numJudges, threshold, |unplaced|) == [] <==>
      NoMajority(unplaced, rankings, numJudges, threshold)
  {
    var q := Qualifying(unplaced, rankings, numJudges, threshold, |unplaced|);
    QualifyingSpec(unplaced, rankings, numJudges, threshold, |unplaced|);
    assert unplaced[..|unplaced|] == unplaced;
    if q != [] {
      assert q[0] in q;
    }
    if !NoMajority(unplaced, rankings, numJudges, threshold) {
      var c :| c in unplaced && HasMajority(Count(c, rankings, threshold), numJudges);
      assert Tally(c, Count(c, rankings, threshold)) in q;
    }
  }

  /** The loop over `unplaced` that fills `candidate_counts` at one threshold. */
  method CandidateCounts(unplaced: seq<string>, rankings: seq<map<string, int>>, numJudges: nat, threshold: int)
    returns (candidateCounts: seq<Tally>)
    ensures candidateCounts == Qualifying(unplaced, rankings, numJudges, threshold, |unplaced|)
    ensures DistinctIds(candidateCounts)
    ensures forall e :: e in candidateCounts <==>
      e.id in unplaced && e.count == Count(e.id, rankings, threshold) && HasMajority(e.count, numJudges)
  {
    candidateCounts := [];
    for i := 0 to |unplaced|
      invariant candidateCounts == Qualifying(unplaced, rankings, numJudges, threshold, i)
    {
      var count := Count(unplaced[i], rankings, threshold);
      if 2 * count > numJudges {
        candidateCounts := Assign(candidateCounts, unplaced[i], count);
      }
    }
    QualifyingSpec(unplaced, rankings, numJudges, threshold, |unplaced|);
    assert unplaced[..|unplaced|] == unplaced;
  }

  /**
   * The threshold loop: the lowest threshold from 1 to `totalCouples` at which some couple has
   * a majority, with its `candidate_counts`; not found when there is none.
   */
  method FindMajority(unplaced: seq<string>, rankings: seq<map<string, int>>, numJudges: nat, totalCouples: nat)
    returns (found: bool, threshold: nat, candidateCounts: seq<Tally>)
    ensures found ==> 1 <= threshold <= totalCouples && candidateCounts != []
    ensures found ==> DistinctIds(candidateCounts) && forall e :: e in candidateCounts <==>
      e.id in unplaced && e.count == Count(e.id, rankings, threshold) && HasMajority(e.count, numJudges)
    ensures found ==> forall t :: 1 <= t < threshold ==> NoMajority(unplaced, rankings, numJudges, t)
    ensures !found ==> forall t :: 1 <= t <= totalCouples ==> NoMajority(unplaced, rankings, numJudges, t)
  {
    for t := 1 to totalCouples + 1
      invariant forall u :: 1 <= u < t ==> NoMajority(unplaced, rankings, numJudges, u)
    {
      candidateCounts := CandidateCounts(unplaced, rankings, numJudges, t);
      QualifyingEmpty(unplaced, rankings, numJudges, t);
      if candidateCounts != [] {
        return true, t, candidateCounts;
      }
    }
    return false, 0, [];
  }

  /** The candidates a threshold loop finds have their majority at exactly that threshold. */
  lemma FoundAtLowest(unplaced: seq<string>, rankings: seq<map<string, int>>, numJudges: nat, threshold: nat, candidateCounts: seq<Tally>)
    requires 1 <= threshold
    requires forall e :: e in candidateCounts ==>
      e.id in unplaced && e.count == Count(e.id, rankings, threshold) && HasMajority(e.count, numJudges)
    requires forall t :: 1 <= t < threshold ==> NoMajority(unplaced, rankings, numJudges, t)
    ensures forall e :: e in candidateCounts ==> MajorityAt(e.id, rankings, numJudges, threshold, e.count)
  {
    forall e | e in candidateCounts ensures MajorityAt(e.id, rankings, numJudges, threshold, e.count) {
      forall u | 1 <= u < threshold ensures !HasMajority(Count(e.id, rankings, u), numJudges) {
        assert NoMajority(unplaced, rankings, numJudges, u);
      }
    }
  }

  // ---------------------------------------------------------------------------------------
  // sorted_candidates and the runs of equal counts

  /** Sort key `(-count, start_number)`: larger majority first, then start number as text. */
  predicate ByCount(a: Tally, b: Tally) {
    a.count > b.count || (a.count == b.count && Less(a.id, b.id))
  }

  lemma ByCountOrder()
    ensures StrictWeakOrder(ByCount) && Connected(ByCount)
  {
    forall a: Tally ensures !ByCount(a, a) {
      LessIrreflexive(a.id);
    }
    forall a: Tally, b: Tally, c: Tally | ByCount(a, b) && ByCount(b, c) ensures ByCount(a, c) {
      if a.count == b.count == c.count {
        LessTransitive(a.id, b.id, c.id);
      }
    }
    forall a: Tally, b: Tally, c: Tally | ByCount(a, c) ensures ByCount(a, b) || ByCount(b, c) {
      LessTotal(a.id, b.id);
      if a.count == b.count == c.count && Less(b.id, a.id) {
        LessTransitive(b.id, a.id, c.id);
      }
    }
    forall a: Tally, b: Tally | a != b ensures ByCount(a, b) || ByCount(b, a) {
      LessTotal(a.id, b.id);
    }
  }

  /** `sorted(candidate_counts.items(), key=lambda x: (-x[1], x[0]))`: same items, larger counts first. */
  lemma SortedByCount(counts: seq<Tally>)
    requires DistinctIds(counts)
    ensures multiset(Sort(counts, ByCount)) == multiset(counts)
    ensures DistinctIds(Sort(counts, ByCount))
    ensures forall i, j :: 0 <= i < j < |counts| ==> Sort(counts, ByCount)[i].count >= Sort(counts, ByCount)[j].count
    ensures multiset(Keys(Sort(counts, ByCount), TallyId)) == multiset(Keys(counts, TallyId))
    ensures SortedBy(Sort(counts, ByCount), ByCount)
  {
    var sorted := Sort(counts, ByCount);
    ByCountOrder();
    SortSorted(counts, ByCount);
    PermutationKeepsDistinct(counts, sorted, TallyId);
    SortKeys(counts, ByCount, TallyId);
    forall i, j | 0 <= i < j < |counts| ensures sorted[i].count >= sorted[j].count {
      assert !ByCount(sorted[j], sorted[i]);
    }
  }

  /** The inner loop that gathers `sorted[start]` and every following item with the same count. */
  method NextRun(sorted: seq<Tally>, start: nat) returns (sameCount: seq<string>, next: nat)
    requires start < |sorted|
    ensures start < next <= |sorted|
    ensures sameCount == Keys(sorted[start..next], TallyId)
    ensures forall k :: start <= k < next ==> sorted[k].count == sorted[start].count
    ensures next < |sorted| ==> sorted[next].count != sorted[start].count
  {
    var countValue := sorted[start].count;
    sameCount := [sorted[start].id];
    next := start + 1;
    while next < |sorted| && sorted[next].count == countValue
      invariant start < next <= |sorted|
      invariant sameCount == Keys(sorted[start..next], TallyId)
      invariant forall k :: start <= k < next ==> sorted[k].count == countValue
    {
      sameCount := sameCount + [sorted[next].id];
      next := next + 1;
    }
  }

  // ---------------------------------------------------------------------------------------
  // placement records

  /** `summary`: the majority that placed a couple, or the average rank of the fallback. */
  datatype Summary =
    | Majority(threshold: nat, count: nat, judges: nat)
    | FallbackAverage(average: real)

  /** A couple's `tie_info` entry: the tie resolution's note (if any), or the fallback average. */
  datatype CoupleNote = TieOutcome(note: Option<TieNote>) | FallbackNote(average: real)

  datatype Record = Record(place: nat, couples: seq<string>, summary: Summary, notes: map<string, CoupleNote>)

  /** Every couple placed by `records`, in order. */
  function PlacedCouples(records: seq<Record>): seq<string>
    decreases |records|
  {
    if records == [] then [] else PlacedCouples(records[..|records| - 1]) + records[|records| - 1].couples
  }

  /** Each record's place is one more than the number of couples placed before it. */
  ghost predicate PlacesFollow(records: seq<Record>) {
    forall k :: 0 <= k < |records| ==> records[k].place == 1 + |PlacedCouples(records[..k])|
  }

  /** `sum(ranking.get(s, missing) for ranking in the first k judges)`. */
  function RankSum(s: string, rankings: seq<map<string, int>>, missing: int, k: nat): int
    requires k <= |rankings|
  {
    if k == 0 then 0
    else RankSum(s, rankings, missing, k - 1) + (if s in rankings[k - 1] then rankings[k - 1][s] else missing)
  }

  /** A couple's average rank, a missing rank counted as one behind the last couple. */
  function Average(s: string, rankings: seq<map<string, int>>, numJudges: nat, totalCouples: nat): real
    requires numJudges >= 1
  {
    RankSum(s, rankings, totalCouples + 1, |rankings|) as real / numJudges as real
  }

  /** The rank sum lies between the judges' best and worst ranks of the couple. */
  lemma {:induction false} RankSumBounds(s: string, rankings: seq<map<string, int>>, missing: int, lo: int, hi: int, k: nat)
    requires k <= |rankings| && lo <= missing <= hi
    requires forall j :: 0 <= j < k && s in rankings[j] ==> lo <= rankings[j][s] <= hi
    ensures k * lo <= RankSum(s, rankings, missing, k) <= k * hi
  {
    if k > 0 {
      RankSumBounds(s, rankings, missing, lo, hi, k - 1);
    }
  }

  /** What a record states about its couples. */
  ghost predicate RecordOk(r: Record, rankings: seq<map<string, int>>, numJudges: nat, totalCouples: nat) {
    match r.summary
    case Majority(t, count, judges) =>
      && t <= totalCouples
      && judges == numJudges
      && KeysWithin(r.notes, r.couples)
      && forall c :: c in r.couples ==> MajorityAt(c, rankings, numJudges, t, count)
    case FallbackAverage(average) =>
      && |r.couples| == 1
      && numJudges >= 1
      && average == Average(r.couples[0], rankings, numJudges, totalCouples)
      && r.notes == map[r.couples[0] := FallbackNote(average)]
      && forall t :: 1 <= t <= totalCouples ==> !HasMajority(Count(r.couples[0], rankings, t), numJudges)
  }

  /**
   * Record `b` may come after record `a`: majority records by non-decreasing threshold, the
   * fallback records after them, by average rank and then start number.
   */
  predicate Follows(a: Record, b: Record) {
    match (a.summary, b.summary)
    case (Majority(t, _, _), Majority(u, _, _)) => t <= u
    case (Majority(_, _, _), FallbackAverage(_)) => true
    case (FallbackAverage(_), Majority(_, _, _)) => false
    case (FallbackAverage(x), FallbackAverage(y)) =>
      x < y || (x == y && a.couples != [] && b.couples != [] && !Less(b.couples[0], a.couples[0]))
  }

  ghost predicate InOrder(records: seq<Record>) {
    forall i, j {:trigger Follows(records[i], records[j])} :: 0 <= i < j < |records| ==> Follows(records[i], records[j])
  }

  /** The state of `determine_majority_placements` between records. */
  ghost predicate Placing(ids: seq<string>, rankings: seq<map<string, int>>, numJudges: nat,
                          records: seq<Record>, unplaced: seq<string>, nextPlace: nat) {
    && multiset(PlacedCouples(records)) + multiset(unplaced) == multiset(ids)
    && nextPlace == 1 + |PlacedCouples(records)|
    && PlacesFollow(records)
    && (forall k :: 0 <= k < |records| ==> records[k].couples != [] && RecordOk(records[k], rankings, numJudges, |ids|))
    && InOrder(records)
  }

  /** One more record keeps the state. */
  lemma AppendRecord(ids: seq<string>, rankings: seq<map<string, int>>, numJudges: nat,
                     records: seq<Record>, unplaced: seq<string>, nextPlace: nat, r: Record, rest: seq<string>)
    requires Placing(ids, rankings, numJudges, records, unplaced, nextPlace)
    requires r.place == nextPlace && r.couples != [] && RecordOk(r, rankings, numJudges, |ids|)
    requires forall k :: 0 <= k < |records| ==> Follows(records[k], r)
    requires multiset(rest) + multiset(r.couples) == multiset(unplaced)
    ensures Placing(ids, rankings, numJudges, records + [r], rest, nextPlace + |r.couples|)
  {
    var rs := records + [r];
    assert rs[..|records|] == records;
    assert PlacedCouples(rs) == PlacedCouples(records) + r.couples;
    forall k | 0 <= k < |rs| ensures rs[k].place == 1 + |PlacedCouples(rs[..k])| {
      if k < |records| {
        assert rs[..k] == records[..k];
      }
    }
  }

  /** Every record so far placed by a majority at `threshold` or lower. */
  ghost predicate MajoritiesUpTo(records: seq<Record>, threshold: nat) {
    forall k :: 0 <= k < |records| ==> records[k].summary.Majority? && records[k].summary.threshold <= threshold
  }

  lemma PrefixSnoc<T>(s: seq<T>, x: T, n: nat)
    requires n <= |s|
    ensures (s + [x])[..n] == s[..n]
  {
  }

  lemma MajoritiesSnoc(records: seq<Record>, r: Record, threshold: nat)
    requires MajoritiesUpTo(records, threshold)
    requires r.summary.Majority? && r.summary.threshold <= threshold
    ensures MajoritiesUpTo(records + [r], threshold)
  {
  }

  // ---------------------------------------------------------------------------------------
  // bookkeeping on multisets of start numbers

  /** Taking away a part and putting it back gives the whole. */
  lemma MultisetRestore(a: multiset<string>, b: multiset<string>)
    requires b <= a
    ensures (a - b) + b == a
  {
    forall x ensures ((a - b) + b)[x] == a[x] {
    }
  }

  /** What is left of a whole after one part still holds every other part. */
  lemma MultisetCancel(rest: multiset<string>, part: multiset<string>, whole: multiset<string>, other: multiset<string>)
    requires rest + part == whole && part + other <= whole
    ensures other <= rest
  {
    forall x ensures other[x] <= rest[x] {
      assert (rest + part)[x] == rest[x] + part[x];
      assert (part + other)[x] <= whole[x];
    }
  }

  /** Moving a part from what is left to what is done keeps the whole. */
  lemma MultisetShift(rest: multiset<string>, part: multiset<string>, left: multiset<string>,
                      done: multiset<string>, whole: multiset<string>)
    requires rest + part == left && left + done == whole
    ensures rest + (done + part) == whole
  {
  }

  /** Couples that occur once each, all present in `ys`, form a sub-multiset of `ys`. */
  lemma DistinctWithin(xs: seq<string>, ys: seq<string>)
    requires Distinct(xs) && forall x :: x in xs ==> x in ys
    ensures multiset(xs) <= multiset(ys)
  {
    forall x ensures multiset(xs)[x] <= multiset(ys)[x] {
      AtMostOnce(xs, x, y => y);
      if x in xs {
        assert x in multiset(ys);
      }
    }
  }

  /** Keys of a concatenation. */
  lemma KeysConcat<T>(a: seq<T>, b: seq<T>, key: T -> string)
    ensures Keys(a + b, key) == Keys(a, key) + Keys(b, key)
  {
  }

  /** The start numbers of items with distinct start numbers are distinct. */
  lemma DistinctKeys(items: seq<Tally>)
    requires DistinctIds(items)
    ensures Distinct(Keys(items, TallyId))
  {
  }

  // ---------------------------------------------------------------------------------------
  // one majority round

  /** `{c: tie_info.get(c) for c in group} if tie_info else {}`. */
  function GroupNotes(group: seq<string>, tieInfo: map<string, TieNote>): (notes: map<string, CoupleNote>)
    ensures KeysWithin(notes, group)
    ensures tieInfo != map[] ==> KeysAre(notes, group)
    ensures tieInfo == map[] ==> notes == map[]
    ensures forall c :: c in notes && c in tieInfo ==> notes[c] == TieOutcome(Some(tieInfo[c]))
    ensures forall c :: c in notes && c !in tieInfo ==> notes[c] == TieOutcome(None)
  {
    if tieInfo == map[] then map[]
    else map c | c in group :: TieOutcome(if c in tieInfo then Some(tieInfo[c]) else None)
  }

  /** The part before group `g` and group `g` itself fit in a multiset holding all the groups. */
  lemma GroupFits(groups: seq<seq<string>>, g: nat, later: multiset<string>, whole: multiset<string>, current: multiset<string>)
    requires g < |groups|
    requires multiset(Flatten(groups)) + later <= whole
    requires current + multiset(Flatten(groups[..g])) == whole
    ensures multiset(groups[g]) <= current
    ensures Flatten(groups[..g + 1]) == Flatten(groups[..g]) + groups[g]
  {
    TakeSnoc(groups, g);
    FlattenSnoc(groups[..g], groups[g]);
    assert groups == groups[..g + 1] + groups[g + 1..];
    FlattenConcat(groups[..g + 1], groups[g + 1..]);
    MultisetCancel(current, multiset(Flatten(groups[..g])), whole, multiset(groups[g]));
  }

  /** The records made from `groups`, one each, all with `summary`. */
  predicate GroupRecords(news: seq<Record>, groups: seq<seq<string>>, summary: Summary, tieInfo: map<string, TieNote>) {
    && |news| == |groups|
    && forall k :: 0 <= k < |news| ==>
         news[k].couples == groups[k] && news[k].summary == summary && news[k].notes == GroupNotes(groups[k], tieInfo)
  }

  lemma GroupRecordsSnoc(records: seq<Record>, from: nat, r: Record, groups: seq<seq<string>>, g: nat,
                         summary: Summary, tieInfo: map<string, TieNote>)
    requires from <= |records| && g < |groups|
    requires GroupRecords(records[from..], groups[..g], summary, tieInfo)
    requires r.couples == groups[g] && r.summary == summary && r.notes == GroupNotes(groups[g], tieInfo)
    ensures GroupRecords((records + [r])[from..], groups[..g + 1], summary, tieInfo)
  {
    assert (records + [r])[from..] == records[from..] + [r];
    TakeSnoc(groups, g);
  }

  /**
   * One group of a tie resolution becomes a record at the next place with the run's majority,
   * and its couples leave `unplaced`: the body of the loop over `resolved_groups`.
   */
  method PlaceGroup(ghost ids: seq<string>, rankings: seq<map<string, int>>, numJudges: nat,
                    threshold: nat, countValue: nat, groups: seq<seq<string>>, g: nat, tieInfo: map<string, TieNote>,
                    ghost later: multiset<string>, ghost whole: multiset<string>, ghost from: nat,
                    records: seq<Record>, unplaced: seq<string>, nextPlace: nat)
    returns (records': seq<Record>, unplaced': seq<string>, nextPlace': nat)
    requires g < |groups| && NonEmptyGroups(groups)
    requires Placing(ids, rankings, numJudges, records, unplaced, nextPlace)
    requires MajoritiesUpTo(records, threshold) && threshold <= |ids|
    requires forall c :: c in Flatten(groups) ==> MajorityAt(c, rankings, numJudges, threshold, countValue)
    requires multiset(Flatten(groups)) + later <= whole
    requires multiset(unplaced) + multiset(Flatten(groups[..g])) == whole
    requires from <= |records|
    requires GroupRecords(records[from..], groups[..g], Majority(threshold, countValue, numJudges), tieInfo)
    ensures Placing(ids, rankings, numJudges, records', unplaced', nextPlace')
    ensures MajoritiesUpTo(records', threshold)
    ensures multiset(unplaced') + multiset(Flatten(groups[..g + 1])) == whole
    ensures |records'| == |records| + 1 && records'[..from] == records[..from]
    ensures GroupRecords(records'[from..], groups[..g + 1], Majority(threshold, countValue, numJudges), tieInfo)
  {
    var group := groups[g];
    GroupFits(groups, g, later, whole, multiset(unplaced));
    forall c | c in group ensures MajorityAt(c, rankings, numJudges, threshold, countValue) {
      FlattenMember(groups, g, c);
    }
    // `summary_map.get(group[0])`: every couple of the run has the run's count
    var record := Record(nextPlace, group, Majority(threshold, countValue, numJudges), GroupNotes(group, tieInfo));
    var rest := RemoveGroup(unplaced, group);
    MultisetRestore(multiset(unplaced), multiset(group));
    AppendRecord(ids, rankings, numJudges, records, unplaced, nextPlace, record, rest);
    MajoritiesSnoc(records, record, threshold);
    MultisetShift(multiset(rest), multiset(group), multiset(unplaced), multiset(Flatten(groups[..g])), whole);
    GroupRecordsSnoc(records, from, record, groups, g, Majority(threshold, countValue, numJudges), tieInfo);
    PrefixSnoc(records, record, from);
    records', unplaced', nextPlace' := records + [record], rest, nextPlace + |group|;
  }

  /** The loop over the groups of one tie resolution, one record per group. */
  method PlaceGroups(ghost ids: seq<string>, rankings: seq<map<string, int>>, numJudges: nat,
                     threshold: nat, countValue: nat, groups: seq<seq<string>>, tieInfo: map<string, TieNote>,
                     ghost later: multiset<string>, records: seq<Record>, unplaced: seq<string>, nextPlace: nat)
    returns (records': seq<Record>, unplaced': seq<string>, nextPlace': nat)
    requires Placing(ids, rankings, numJudges, records, unplaced, nextPlace)
    requires MajoritiesUpTo(records, threshold) && threshold <= |ids|
    requires NonEmptyGroups(groups)
    requires forall c :: c in Flatten(groups) ==> MajorityAt(c, rankings, numJudges, threshold, countValue)
    requires multiset(Flatten(groups)) + later <= multiset(unplaced)
    ensures Placing(ids, rankings, numJudges, records', unplaced', nextPlace')
    ensures MajoritiesUpTo(records', threshold)
    ensures multiset(unplaced') + multiset(Flatten(groups)) == multiset(unplaced)
    ensures later <= multiset(unplaced')
    ensures |records'| >= |records| && records'[..|records|] == records
    ensures GroupRecords(records'[|records|..], groups, Majority(threshold, countValue, numJudges), tieInfo)
  {
    records', unplaced', nextPlace' := records, unplaced, nextPlace;
    for g := 0 to |groups|
      invariant Placing(ids, rankings, numJudges, records', unplaced', nextPlace')
      invariant MajoritiesUpTo(records', threshold)
      invariant multiset(unplaced') + multiset(Flatten(groups[..g])) == multiset(unplaced)
      invariant |records'| >= |records| && records'[..|records|] == records
      invariant GroupRecords(records'[|records|..], groups[..g], Majority(threshold, countValue, numJudges), tieInfo)
    {
      records', unplaced', nextPlace' := PlaceGroup(ids, rankings, numJudges, threshold, countValue, groups, g, tieInfo,
                                                   later, multiset(unplaced), |records|, records', unplaced', nextPlace');
    }
    assert groups[..|groups|] == groups;
    MultisetCancel(multiset(unplaced'), multiset(Flatten(groups)), multiset(unplaced), later);
  }

  /** Records placed by a majority, by non-increasing size of majority. */
  ghost predicate CountsDescend(news: seq<Record>) {
    forall i, j :: 0 <= i < j < |news| && news[i].summary.Majority? && news[j].summary.Majority? ==>
      news[i].summary.count >= news[j].summary.count
  }

  /** Records placed by a majority of `atLeast` judges or more. */
  ghost predicate CountsFrom(news: seq<Record>, atLeast: nat) {
    forall k :: 0 <= k < |news| ==> news[k].summary.Majority? && news[k].summary.count >= atLeast
  }

  lemma CountsAppend(a: seq<Record>, b: seq<Record>, groups: seq<seq<string>>, threshold: nat, countValue: nat,
                     numJudges: nat, tieInfo: map<string, TieNote>)
    requires CountsDescend(a) && CountsFrom(a, countValue)
    requires GroupRecords(b, groups, Majority(threshold, countValue, numJudges), tieInfo)
    ensures CountsDescend(a + b) && CountsFrom(a + b, countValue)
  {
  }

  lemma AtThresholdAppend(a: seq<Record>, b: seq<Record>, groups: seq<seq<string>>, threshold: nat, countValue: nat,
                          numJudges: nat, tieInfo: map<string, TieNote>)
    requires AtThreshold(a, threshold)
    requires GroupRecords(b, groups, Majority(threshold, countValue, numJudges), tieInfo)
    ensures AtThreshold(a + b, threshold)
  {
  }

  lemma CountsLower(news: seq<Record>, v: nat, w: nat)
    requires CountsFrom(news, v) && w <= v
    ensures CountsFrom(news, w)
  {
  }

  /** Records placed by a majority at `threshold`. */
  ghost predicate AtThreshold(news: seq<Record>, threshold: nat) {
    forall k :: 0 <= k < |news| ==> news[k].summary.Majority? && news[k].summary.threshold == threshold
  }

  /** What a run of equal counts in `sorted` brings to the tie resolution. */
  lemma RunFacts(sorted: seq<Tally>, idx: nat, next: nat, run: seq<string>,
                 rankings: seq<map<string, int>>, numJudges: nat, threshold: nat)
    requires idx < next <= |sorted| && DistinctIds(sorted)
    requires run == Keys(sorted[idx..next], TallyId)
    requires forall k :: idx <= k < next ==> sorted[k].count == sorted[idx].count
    requires forall e :: e in sorted ==> MajorityAt(e.id, rankings, numJudges, threshold, e.count)
    ensures Distinct(run) && run != []
    ensures forall c :: c in run ==> MajorityAt(c, rankings, numJudges, threshold, sorted[idx].count)
    ensures Keys(sorted[idx..], TallyId) == run + Keys(sorted[next..], TallyId)
    ensures Keys(sorted[..next], TallyId) == Keys(sorted[..idx], TallyId) + run
  {
    RunKeys(sorted, idx, next);
    RunDistinct(sorted, idx, next);
    RunMajority(sorted, idx, next, rankings, numJudges, threshold);
  }

  lemma RunKeys(sorted: seq<Tally>, idx: nat, next: nat)
    requires idx < next <= |sorted|
    ensures Keys(sorted[idx..], TallyId) == Keys(sorted[idx..next], TallyId) + Keys(sorted[next..], TallyId)
    ensures Keys(sorted[..next], TallyId) == Keys(sorted[..idx], TallyId) + Keys(sorted[idx..next], TallyId)
  {
    assert sorted[idx..] == sorted[idx..next] + sorted[next..];
    KeysConcat(sorted[idx..next], sorted[next..], TallyId);
    assert sorted[..next] == sorted[..idx] + sorted[idx..next];
    KeysConcat(sorted[..idx], sorted[idx..next], TallyId);
  }

  lemma RunDistinct(sorted: seq<Tally>, idx: nat, next: nat)
    requires idx < next <= |sorted| && DistinctIds(sorted)
    ensures Distinct(Keys(sorted[idx..next], TallyId))
  {
    assert DistinctIds(sorted[idx..next]);
    DistinctKeys(sorted[idx..next]);
  }

  lemma RunMajority(sorted: seq<Tally>, idx: nat, next: nat, rankings: seq<map<string, int>>, numJudges: nat, threshold: nat)
    requires idx < next <= |sorted|
    requires forall k :: idx <= k < next ==> sorted[k].count == sorted[idx].count
    requires forall e :: e in sorted ==> MajorityAt(e.id, rankings, numJudges, threshold, e.count)
    ensures forall c :: c in Keys(sorted[idx..next], TallyId) ==> MajorityAt(c, rankings, numJudges, threshold, sorted[idx].count)
  {
    var run := Keys(sorted[idx..next], TallyId);
    forall c | c in run ensures MajorityAt(c, rankings, numJudges, threshold, sorted[idx].count) {
      var k :| 0 <= k < |run| && run[k] == c;
      assert sorted[idx + k] in sorted;
    }
  }

  /** The couples of the groups are the couples of the run. */
  lemma GroupsOfRun(groups: seq<seq<string>>, run: seq<string>, rankings: seq<map<string, int>>,
                    numJudges: nat, threshold: nat, countValue: nat)
    requires multiset(Flatten(groups)) == multiset(run)
    requires forall c :: c in run ==> MajorityAt(c, rankings, numJudges, threshold, countValue)
    ensures forall c :: c in Flatten(groups) ==> MajorityAt(c, rankings, numJudges, threshold, countValue)
  {
    forall c | c in Flatten(groups) ensures MajorityAt(c, rankings, numJudges, threshold, countValue) {
      assert c in multiset(run);
    }
  }

  /** A sequence extending `origin + news` is `origin` followed by `news` and what was added. */
  lemma Regrouped<T>(longer: seq<T>, origin: seq<T>, news: seq<T>, added: seq<T>)
    requires |longer| >= |origin + news| && longer[..|origin + news|] == origin + news
    requires added == longer[|origin + news|..]
    ensures origin + (news + added) == longer
  {
    assert longer == longer[..|origin + news|] + added;
  }

  // ---------------------------------------------------------------------------------------
  // the runs of a round

  /**
   * One run of equal counts: its couples in the order of `sorted_candidates`, the count they
   * share, and the groups and notes the tie resolution returned for them.
   */
  datatype Run = Run(couples: seq<string>, count: nat, groups: seq<seq<string>>, tieInfo: map<string, TieNote>)

  /**
   * The couples of a run have a majority of `count` judges at `threshold`, come by start
   * number, and were grouped by the tie resolution.
   */
  ghost predicate RunOk(run: Run, rankings: seq<map<string, int>>, numJudges: nat, threshold: nat) {
    && run.couples != []
    && (forall i, j :: 0 <= i < j < |run.couples| ==> Less(run.couples[i], run.couples[j]))
    && (forall c :: c in run.couples ==> MajorityAt(c, rankings, numJudges, threshold, run.count))
    && Resolved(run.couples, rankings, run.groups, run.tieInfo)
  }

  /** Every run is well formed, and the runs come by strictly decreasing count. */
  ghost predicate RunsOk(runs: seq<Run>, rankings: seq<map<string, int>>, numJudges: nat, threshold: nat) {
    && (forall k :: 0 <= k < |runs| ==> RunOk(runs[k], rankings, numJudges, threshold))
    && (forall i, j :: 0 <= i < j < |runs| ==> runs[i].count > runs[j].count)
  }

  /** The couples of the runs, one run after the other. */
  function RunCouples(runs: seq<Run>): seq<string>
    decreases |runs|
  {
    if runs == [] then [] else RunCouples(runs[..|runs| - 1]) + runs[|runs| - 1].couples
  }

  /**
   * `news` holds one record per group of each run, run after run and group after group, each
   * with its run's majority and the run's notes for its couples.
   */
  ghost predicate RunsPlaced(news: seq<Record>, runs: seq<Run>, threshold: nat, numJudges: nat)
    decreases |runs|
  {
    if runs == [] then news == []
    else
      var last := runs[|runs| - 1];
      var from := |news| - |last.groups|;
      && 0 <= from
      && RunsPlaced(news[..from], runs[..|runs| - 1], threshold, numJudges)
      && GroupRecords(news[from..], last.groups, Majority(threshold, last.count, numJudges), last.tieInfo)
  }

  lemma RunsPlacedSnoc(news: seq<Record>, runs: seq<Run>, added: seq<Record>, run: Run, threshold: nat, numJudges: nat)
    requires RunsPlaced(news, runs, threshold, numJudges)
    requires GroupRecords(added, run.groups, Majority(threshold, run.count, numJudges), run.tieInfo)
    ensures RunsPlaced(news + added, runs + [run], threshold, numJudges)
  {
    assert (runs + [run])[..|runs|] == runs;
    assert (news + added)[..|news|] == news;
    assert (news + added)[|news|..] == added;
  }

  lemma RunCouplesSnoc(runs: seq<Run>, run: Run)
    ensures RunCouples(runs + [run]) == RunCouples(runs) + run.couples
  {
    assert (runs + [run])[..|runs|] == runs;
  }

  /** The runs placed before `sorted[idx]`, and the records they made. */
  ghost predicate RunsSoFar(runs: seq<Run>, news: seq<Record>, sorted: seq<Tally>, idx: nat,
                            rankings: seq<map<string, int>>, numJudges: nat, threshold: nat) {
    && idx <= |sorted|
    && RunsOk(runs, rankings, numJudges, threshold)
    && RunCouples(runs) == Keys(sorted[..idx], TallyId)
    && RunsPlaced(news, runs, threshold, numJudges)
    && (idx < |sorted| ==> forall k :: 0 <= k < |runs| ==> runs[k].count > sorted[idx].count)
  }

  /** One more run keeps the runs so far. */
  lemma RunsSoFarStep(runs: seq<Run>, news: seq<Record>, sorted: seq<Tally>, idx: nat, run: Run,
                      news': seq<Record>, next: nat, rankings: seq<map<string, int>>, numJudges: nat, threshold: nat)
    requires RunsSoFar(runs, news, sorted, idx, rankings, numJudges, threshold)
    requires idx < next <= |sorted|
    requires RunOk(run, rankings, numJudges, threshold)
    requires run.couples == Keys(sorted[idx..next], TallyId) && run.count == sorted[idx].count
    requires next < |sorted| ==> sorted[next].count < run.count
    requires |news'| >= |news| && news'[..|news|] == news
    requires GroupRecords(news'[|news|..], run.groups, Majority(threshold, run.count, numJudges), run.tieInfo)
    ensures RunsSoFar(runs + [run], news', sorted, next, rankings, numJudges, threshold)
  {
    assert news' == news + news'[|news|..];
    RunsPlacedSnoc(news, runs, news'[|news|..], run, threshold, numJudges);
    RunCouplesSnoc(runs, run);
    RunKeys(sorted, idx, next);
    RunsOkSnoc(runs, run, rankings, numJudges, threshold);
  }

  lemma RunsOkSnoc(runs: seq<Run>, run: Run, rankings: seq<map<string, int>>, numJudges: nat, threshold: nat)
    requires RunsOk(runs, rankings, numJudges, threshold) && RunOk(run, rankings, numJudges, threshold)
    requires forall k :: 0 <= k < |runs| ==> runs[k].count > run.count
    ensures RunsOk(runs + [run], rankings, numJudges, threshold)
  {
    var all := runs + [run];
    forall k | 0 <= k < |all| ensures RunOk(all[k], rankings, numJudges, threshold) {
      if k < |runs| {
        assert all[k] == runs[k];
      }
    }
  }

  /** Within a run of equal counts, `sorted_candidates` is ordered by start number. */
  lemma RunByNumber(sorted: seq<Tally>, idx: nat, next: nat)
    requires idx < next <= |sorted| && DistinctIds(sorted) && SortedBy(sorted, ByCount)
    requires forall k :: idx <= k < next ==> sorted[k].count == sorted[idx].count
    ensures var run := Keys(sorted[idx..next], TallyId);
      forall i, j :: 0 <= i < j < |run| ==> Less(run[i], run[j])
  {
    var run := Keys(sorted[idx..next], TallyId);
    forall i, j | 0 <= i < j < |run| ensures Less(run[i], run[j]) {
      var a, b := sorted[idx + i], sorted[idx + j];
      assert !ByCount(b, a);
      LessTotal(a.id, b.id);
    }
  }

  /**
   * One pass of the `while idx < len(sorted_candidates)` loop: the run of equal counts at
   * `idx` goes through the tie resolution and its groups become records.
   */
  method PlaceRun(ghost ids: seq<string>, rankings: seq<map<string, int>>, numJudges: nat, threshold: nat,
                  sorted: seq<Tally>, idx: nat, ghost whole: multiset<string>, origin: seq<Record>,
                  news: seq<Record>, unplaced: seq<string>, nextPlace: nat)
    returns (news': seq<Record>, unplaced': seq<string>, nextPlace': nat, next: nat, ghost run: Run)
    requires idx < |sorted| && DistinctIds(sorted) && SortedBy(sorted, ByCount)
    requires forall i, j :: 0 <= i < j < |sorted| ==> sorted[i].count >= sorted[j].count
    requires forall e :: e in sorted ==> MajorityAt(e.id, rankings, numJudges, threshold, e.count)
    requires Placing(ids, rankings, numJudges, origin + news, unplaced, nextPlace)
    requires MajoritiesUpTo(origin + news, threshold) && threshold <= |ids|
    requires multiset(unplaced) + multiset(Keys(sorted[..idx], TallyId)) == whole
    requires multiset(Keys(sorted[idx..], TallyId)) <= multiset(unplaced)
    requires CountsDescend(news) && CountsFrom(news, sorted[idx].count) && AtThreshold(news, threshold)
    ensures idx < next <= |sorted|
    ensures Placing(ids, rankings, numJudges, origin + news', unplaced', nextPlace')
    ensures MajoritiesUpTo(origin + news', threshold)
    ensures multiset(unplaced') + multiset(Keys(sorted[..next], TallyId)) == whole
    ensures multiset(Keys(sorted[next..], TallyId)) <= multiset(unplaced')
    ensures CountsDescend(news') && AtThreshold(news', threshold)
    ensures next < |sorted| ==> CountsFrom(news', sorted[next].count)
    ensures RunOk(run, rankings, numJudges, threshold)
    ensures run.couples == Keys(sorted[idx..next], TallyId) && run.count == sorted[idx].count
    ensures next < |sorted| ==> sorted[next].count < run.count
    ensures |news'| >= |news| && news'[..|news|] == news
    ensures GroupRecords(news'[|news|..], run.groups, Majority(threshold, run.count, numJudges), run.tieInfo)
  {
    var countValue := sorted[idx].count;
    var sameCountCandidates;
    sameCountCandidates, next := NextRun(sorted, idx);
    RunFacts(sorted, idx, next, sameCountCandidates, rankings, numJudges, threshold);
    var resolvedGroups, tieInfo := ResolveTies(sameCountCandidates, rankings);
    assert Resolved(sameCountCandidates, rankings, resolvedGroups, tieInfo);
    RunByNumber(sorted, idx, next);
    run := Run(sameCountCandidates, countValue, resolvedGroups, tieInfo);
    GroupsOfRun(resolvedGroups, sameCountCandidates, rankings, numJudges, threshold, countValue);
    ghost var later := multiset(Keys(sorted[next..], TallyId));
    var records := origin + news;
    var records', unplaced'', nextPlace'' := PlaceGroups(ids, rankings, numJudges, threshold, countValue, resolvedGroups,
                                                      tieInfo, later, records, unplaced, nextPlace);
    var added := records'[|records|..];
    news', unplaced', nextPlace' := news + added, unplaced'', nextPlace'';
    Regrouped(records', origin, news, added);
    CountsAppend(news, added, resolvedGroups, threshold, countValue, numJudges, tieInfo);
    AtThresholdAppend(news, added, resolvedGroups, threshold, countValue, numJudges, tieInfo);
    assert news'[..|news|] == news && news'[|news|..] == added;
    if next < |sorted| {
      CountsLower(news', countValue, sorted[next].count);
    }
    MultisetShift(multiset(unplaced'), multiset(sameCountCandidates), multiset(unplaced),
                  multiset(Keys(sorted[..idx], TallyId)), whole);
  }

  /** The sorted candidates of a round, with their majorities, all waiting in `unplaced`. */
  lemma RoundStart(candidateCounts: seq<Tally>, rankings: seq<map<string, int>>, numJudges: nat, threshold: nat,
                   unplaced: seq<string>)
    requires DistinctIds(candidateCounts)
    requires forall e :: e in candidateCounts ==> e.id in unplaced && MajorityAt(e.id, rankings, numJudges, threshold, e.count)
    ensures var sorted := Sort(candidateCounts, ByCount);
      && DistinctIds(sorted) && SortedBy(sorted, ByCount)
      && (forall i, j :: 0 <= i < j < |sorted| ==> sorted[i].count >= sorted[j].count)
      && (forall e :: e in sorted ==> MajorityAt(e.id, rankings, numJudges, threshold, e.count))
      && multiset(Keys(sorted, TallyId)) == multiset(Keys(candidateCounts, TallyId))
      && multiset(Keys(sorted[0..], TallyId)) <= multiset(unplaced)
      && Keys(sorted[..0], TallyId) == []
  {
    var sorted := Sort(candidateCounts, ByCount);
    SortedByCount(candidateCounts);
    forall e | e in sorted ensures MajorityAt(e.id, rankings, numJudges, threshold, e.count) {
      assert e in multiset(candidateCounts);
    }
    DistinctKeys(candidateCounts);
    forall c | c in Keys(candidateCounts, TallyId) ensures c in unplaced {
      var k :| 0 <= k < |candidateCounts| && Keys(candidateCounts, TallyId)[k] == c;
      assert candidateCounts[k] in candidateCounts;
    }
    DistinctWithin(Keys(candidateCounts, TallyId), unplaced);
    assert sorted[0..] == sorted;
  }

  /**
   * The body of the threshold loop once `candidate_counts` is not empty: the candidates,
   * sorted by count, are placed run by run. Every candidate is placed exactly once. The runs
   * hold the candidates by strictly decreasing count and, within a run, by start number; each
   * run's tie resolution groups become records in the order it returns them, with the run's
   * majority and notes.
   */
  method PlaceMajorityRound(ghost ids: seq<string>, rankings: seq<map<string, int>>, numJudges: nat, threshold: nat,
                            candidateCounts: seq<Tally>, records: seq<Record>, unplaced: seq<string>, nextPlace: nat)
    returns (records': seq<Record>, unplaced': seq<string>, nextPlace': nat, ghost runs: seq<Run>)
    requires DistinctIds(candidateCounts)
    requires forall e :: e in candidateCounts ==> e.id in unplaced && MajorityAt(e.id, rankings, numJudges, threshold, e.count)
    requires Placing(ids, rankings, numJudges, records, unplaced, nextPlace)
    requires MajoritiesUpTo(records, threshold) && threshold <= |ids|
    ensures Placing(ids, rankings, numJudges, records', unplaced', nextPlace')
    ensures MajoritiesUpTo(records', threshold)
    ensures multiset(unplaced') + multiset(Keys(candidateCounts, TallyId)) == multiset(unplaced)
    ensures |records'| >= |records| && records'[..|records|] == records
    ensures CountsDescend(records'[|records|..]) && AtThreshold(records'[|records|..], threshold)
    ensures RunsOk(runs, rankings, numJudges, threshold)
    ensures multiset(RunCouples(runs)) == multiset(Keys(candidateCounts, TallyId))
    ensures RunsPlaced(records'[|records|..], runs, threshold, numJudges)
  {
    var sortedCandidates := Sort(candidateCounts, ByCount);
    RoundStart(candidateCounts, rankings, numJudges, threshold, unplaced);
    records', unplaced', nextPlace', runs := PlaceRuns(ids, rankings, numJudges, threshold, sortedCandidates,
                                                        records, unplaced, nextPlace);
  }

  /** The `while idx < len(sorted_candidates)` loop: one run of equal counts after another. */
  method PlaceRuns(ghost ids: seq<string>, rankings: seq<map<string, int>>, numJudges: nat, threshold: nat,
                   sorted: seq<Tally>, records: seq<Record>, unplaced: seq<string>, nextPlace: nat)
    returns (records': seq<Record>, unplaced': seq<string>, nextPlace': nat, ghost runs: seq<Run>)
    requires DistinctIds(sorted) && SortedBy(sorted, ByCount)
    requires forall i, j :: 0 <= i < j < |sorted| ==> sorted[i].count >= sorted[j].count
    requires forall e :: e in sorted ==> MajorityAt(e.id, rankings, numJudges, threshold, e.count)
    requires Placing(ids, rankings, numJudges, records, unplaced, nextPlace)
    requires MajoritiesUpTo(records, threshold) && threshold <= |ids|
    requires multiset(Keys(sorted, TallyId)) <= multiset(unplaced)
    ensures Placing(ids, rankings, numJudges, records', unplaced', nextPlace')
    ensures MajoritiesUpTo(records', threshold)
    ensures multiset(unplaced') + multiset(Keys(sorted, TallyId)) == multiset(unplaced)
    ensures |records'| >= |records| && records'[..|records|] == records
    ensures CountsDescend(records'[|records|..]) && AtThreshold(records'[|records|..], threshold)
    ensures RunsOk(runs, rankings, numJudges, threshold)
    ensures RunCouples(runs) == Keys(sorted, TallyId)
    ensures RunsPlaced(records'[|records|..], runs, threshold, numJudges)
  {
    var news: seq<Record> := [];
    unplaced', nextPlace' := unplaced, nextPlace;
    runs := [];
    var idx := 0;
    assert sorted[0..] == sorted && sorted[..0] == [];
    assert records + news == records;
    while idx < |sorted|
      invariant idx <= |sorted|
      invariant Placing(ids, rankings, numJudges, records + news, unplaced', nextPlace')
      invariant MajoritiesUpTo(records + news, threshold)
      invariant multiset(unplaced') + multiset(Keys(sorted[..idx], TallyId)) == multiset(unplaced)
      invariant multiset(Keys(sorted[idx..], TallyId)) <= multiset(unplaced')
      invariant CountsDescend(news) && AtThreshold(news, threshold)
      invariant idx < |sorted| ==> CountsFrom(news, sorted[idx].count)
      invariant RunsSoFar(runs, news, sorted, idx, rankings, numJudges, threshold)
      decreases |sorted| - idx
    {
      ghost var before, from := news, idx;
      ghost var run;
      news, unplaced', nextPlace', idx, run := PlaceRun(ids, rankings, numJudges, threshold, sorted, idx,
                                                       multiset(unplaced), records, news, unplaced', nextPlace');
      RunsSoFarStep(runs, before, sorted, from, run, news, idx, rankings, numJudges, threshold);
      runs := runs + [run];
    }
    assert sorted[..idx] == sorted;
    records' := records + news;
    assert records'[..|records|] == records && records'[|records|..] == news;
  }

  // ---------------------------------------------------------------------------------------
  // the fallback by average rank

  /** One `(start_number, average)` item of `avg_ranks`. */
  datatype Standing = Standing(id: string, average: real)

  function StandingId(e: Standing): string {
    e.id
  }

  /** Sort key `(average, start_number)`: lower average first, then start number as text. */
  predicate ByAverage(a: Standing, b: Standing) {
    a.average < b.average || (a.average == b.average && Less(a.id, b.id))
  }

  lemma ByAverageOrder()
    ensures StrictWeakOrder(ByAverage) && Connected(ByAverage)
  {
    forall a: Standing ensures !ByAverage(a, a) {
      LessIrreflexive(a.id);
    }
    forall a: Standing, b: Standing, c: Standing | ByAverage(a, b) && ByAverage(b, c) ensures ByAverage(a, c) {
      if a.average == b.average == c.average {
        LessTransitive(a.id, b.id, c.id);
      }
    }
    forall a: Standing, b: Standing, c: Standing | ByAverage(a, c) ensures ByAverage(a, b) || ByAverage(b, c) {
      LessTotal(a.id, b.id);
      if a.average == b.average == c.average && Less(b.id, a.id) {
        LessTransitive(b.id, a.id, c.id);
      }
    }
    forall a: Standing, b: Standing | a != b ensures ByAverage(a, b) || ByAverage(b, a) {
      LessTotal(a.id, b.id);
    }
  }

  /** The loop that builds `avg_ranks`: every unplaced couple with its average rank, in order. */
  method AverageRanks(unplaced: seq<string>, rankings: seq<map<string, int>>, numJudges: nat, totalCouples: nat)
    returns (avgRanks: seq<Standing>)
    requires numJudges >= 1
    ensures Keys(avgRanks, StandingId) == unplaced
    ensures forall e :: e in avgRanks ==> e.id in unplaced && e.average == Average(e.id, rankings, numJudges, totalCouples)
  {
    avgRanks := [];
    for i := 0 to |unplaced|
      invariant |avgRanks| == i
      invariant forall k :: 0 <= k < i ==>
        avgRanks[k] == Standing(unplaced[k], Average(unplaced[k], rankings, numJudges, totalCouples))
    {
      var totalRank := RankSum(unplaced[i], rankings, totalCouples + 1, |rankings|);
      avgRanks := avgRanks + [Standing(unplaced[i], totalRank as real / numJudges as real)];
    }
  }

  ghost predicate AllMajority(records: seq<Record>) {
    forall m :: 0 <= m < |records| ==> records[m].summary.Majority?
  }

  /** The records made by the fallback from `standings`, one couple each. */
  predicate FallbackRecords(news: seq<Record>, standings: seq<Standing>) {
    && |news| == |standings|
    && forall j :: 0 <= j < |news| ==>
         news[j].couples == [standings[j].id] && news[j].summary == FallbackAverage(standings[j].average)
  }

  /** The sorted standings, holding exactly the unplaced couples. */
  lemma FallbackStart(avgRanks: seq<Standing>, unplaced: seq<string>)
    requires Keys(avgRanks, StandingId) == unplaced
    ensures var sorted := Sort(avgRanks, ByAverage);
      && SortedBy(sorted, ByAverage)
      && multiset(Keys(sorted[0..], StandingId)) == multiset(unplaced)
      && forall e :: e in sorted ==> e in avgRanks
  {
    var sorted := Sort(avgRanks, ByAverage);
    ByAverageOrder();
    SortSorted(avgRanks, ByAverage);
    SortKeys(avgRanks, ByAverage, StandingId);
    assert sorted[0..] == sorted;
    forall e | e in sorted ensures e in avgRanks {
      assert e in multiset(avgRanks);
    }
  }

  lemma KeysFront(s: seq<Standing>, k: nat)
    requires k < |s|
    ensures Keys(s[k..], StandingId) == [s[k].id] + Keys(s[k + 1..], StandingId)
  {
    assert s[k..] == [s[k]] + s[k + 1..];
    KeysConcat([s[k]], s[k + 1..], StandingId);
  }

  /** A fallback record follows every majority record and every fallback record before it. */
  lemma FallbackFollows(records: seq<Record>, from: nat, sorted: seq<Standing>, k: nat, r: Record)
    requires from <= |records| && k < |sorted| && SortedBy(sorted, ByAverage)
    requires AllMajority(records[..from])
    requires FallbackRecords(records[from..], sorted[..k])
    requires r.couples == [sorted[k].id] && r.summary == FallbackAverage(sorted[k].average)
    ensures forall m :: 0 <= m < |records| ==> Follows(records[m], r)
  {
    forall m | 0 <= m < |records| ensures Follows(records[m], r) {
      if m < from {
        assert records[..from][m] == records[m];
      } else {
        var j := m - from;
        assert records[from..][j] == records[m];
        assert !ByAverage(sorted[k], sorted[j]);
      }
    }
  }

  /** The record placing one couple by its average rank. */
  function FallbackRecord(place: nat, e: Standing): Record {
    Record(place, [e.id], FallbackAverage(e.average), map[e.id := FallbackNote(e.average)])
  }

  /** A couple without a majority at any threshold makes a well-formed fallback record. */
  lemma FallbackRecordOk(ids: seq<string>, rankings: seq<map<string, int>>, numJudges: nat,
                         sorted: seq<Standing>, k: nat, unplaced: seq<string>, place: nat)
    requires numJudges >= 1 && k < |sorted|
    requires forall e :: e in sorted ==> e.id in unplaced && e.average == Average(e.id, rankings, numJudges, |ids|)
    requires forall t :: 1 <= t <= |ids| ==> NoMajority(unplaced, rankings, numJudges, t)
    ensures FallbackRecord(place, sorted[k]).couples != []
    ensures RecordOk(FallbackRecord(place, sorted[k]), rankings, numJudges, |ids|)
  {
    var e := sorted[k];
    assert e in sorted;
    forall t | 1 <= t <= |ids| ensures !HasMajority(Count(e.id, rankings, t), numJudges) {
      assert NoMajority(unplaced, rankings, numJudges, t);
    }
  }

  /** Taking the next standing's couple out of the couples still to place. */
  lemma FallbackRest(rest: seq<string>, sorted: seq<Standing>, k: nat)
    requires k < |sorted| && multiset(rest) == multiset(Keys(sorted[k..], StandingId))
    ensures multiset(RemoveFirst(rest, sorted[k].id)) == multiset(Keys(sorted[k + 1..], StandingId))
    ensures multiset(RemoveFirst(rest, sorted[k].id)) + multiset([sorted[k].id]) == multiset(rest)
  {
    KeysFront(sorted, k);
    assert sorted[k].id in multiset(rest);
  }

  /** The body of the loop over the sorted `avg_ranks`: one couple placed alone. */
  method PlaceFallbackRecord(ghost ids: seq<string>, rankings: seq<map<string, int>>, numJudges: nat,
                             sorted: seq<Standing>, k: nat, ghost unplaced: seq<string>, ghost from: nat,
                             records: seq<Record>, rest: seq<string>, nextPlace: nat)
    returns (records': seq<Record>, rest': seq<string>, nextPlace': nat)
    requires numJudges >= 1 && k < |sorted| && SortedBy(sorted, ByAverage)
    requires forall e :: e in sorted ==> e.id in unplaced && e.average == Average(e.id, rankings, numJudges, |ids|)
    requires forall t :: 1 <= t <= |ids| ==> NoMajority(unplaced, rankings, numJudges, t)
    requires Placing(ids, rankings, numJudges, records, rest, nextPlace)
    requires multiset(rest) == multiset(Keys(sorted[k..], StandingId))
    requires from <= |records| && AllMajority(records[..from])
    requires FallbackRecords(records[from..], sorted[..k])
    ensures Placing(ids, rankings, numJudges, records', rest', nextPlace')
    ensures multiset(rest') == multiset(Keys(sorted[k + 1..], StandingId))
    ensures |records'| == |records| + 1 && records'[..from] == records[..from]
    ensures FallbackRecords(records'[from..], sorted[..k + 1])
  {
    var record := FallbackRecord(nextPlace, sorted[k]);
    FallbackRest(rest, sorted, k);
    rest' := RemoveFirst(rest, sorted[k].id);
    FallbackRecordOk(ids, rankings, numJudges, sorted, k, unplaced, nextPlace);
    FallbackFollows(records, from, sorted, k, record);
    AppendRecord(ids, rankings, numJudges, records, rest, nextPlace, record, rest');
    PrefixSnoc(records, record, from);
    FallbackSnoc(records, from, record, sorted, k);
    records', nextPlace' := records + [record], nextPlace + 1;
  }

  lemma FallbackSnoc(records: seq<Record>, from: nat, r: Record, sorted: seq<Standing>, k: nat)
    requires from <= |records| && k < |sorted|
    requires FallbackRecords(records[from..], sorted[..k])
    requires r.couples == [sorted[k].id] && r.summary == FallbackAverage(sorted[k].average)
    ensures FallbackRecords((records + [r])[from..], sorted[..k + 1])
  {
    assert (records + [r])[from..] == records[from..] + [r];
    TakeSnoc(sorted, k);
  }

  /**
   * The fallback: the unplaced couples, none of which has a majority at any threshold, are
   * placed one per record by ascending average rank.
   */
  method PlaceFallback(ghost ids: seq<string>, rankings: seq<map<string, int>>, numJudges: nat, totalCouples: nat,
                       records: seq<Record>, unplaced: seq<string>, nextPlace: nat)
    returns (records': seq<Record>, unplaced': seq<string>, nextPlace': nat)
    requires numJudges >= 1 && totalCouples == |ids|
    requires Placing(ids, rankings, numJudges, records, unplaced, nextPlace)
    requires AllMajority(records)
    requires forall t :: 1 <= t <= totalCouples ==> NoMajority(unplaced, rankings, numJudges, t)
    ensures Placing(ids, rankings, numJudges, records', unplaced', nextPlace')
    ensures unplaced' == []
    ensures |records'| >= |records| && records'[..|records|] == records
    ensures forall k :: |records| <= k < |records'| ==> records'[k].summary.FallbackAverage?
  {
    var avgRanks := AverageRanks(unplaced, rankings, numJudges, totalCouples);
    var sorted := Sort(avgRanks, ByAverage);
    FallbackStart(avgRanks, unplaced);
    records', unplaced', nextPlace' := PlaceSorted(ids, rankings, numJudges, sorted, unplaced, records, nextPlace);
  }

  /** The loop over the sorted `avg_ranks`. */
  method PlaceSorted(ghost ids: seq<string>, rankings: seq<map<string, int>>, numJudges: nat,
                     sorted: seq<Standing>, unplaced: seq<string>, records: seq<Record>, nextPlace: nat)
    returns (records': seq<Record>, unplaced': seq<string>, nextPlace': nat)
    requires numJudges >= 1 && SortedBy(sorted, ByAverage)
    requires forall e :: e in sorted ==> e.id in unplaced && e.average == Average(e.id, rankings, numJudges, |ids|)
    requires forall t :: 1 <= t <= |ids| ==> NoMajority(unplaced, rankings, numJudges, t)
    requires multiset(Keys(sorted[0..], StandingId)) == multiset(unplaced)
    requires Placing(ids, rankings, numJudges, records, unplaced, nextPlace)
    requires AllMajority(records[..|records|])
    ensures Placing(ids, rankings, numJudges, records', unplaced', nextPlace')
    ensures unplaced' == []
    ensures |records'| >= |records| && records'[..|records|] == records
    ensures forall k :: |records| <= k < |records'| ==> records'[k].summary.FallbackAverage?
  {
    records', unplaced', nextPlace' := records, unplaced, nextPlace;
    for k := 0 to |sorted|
      invariant Placing(ids, rankings, numJudges, records', unplaced', nextPlace')
      invariant multiset(unplaced') == multiset(Keys(sorted[k..], StandingId))
      invariant |records'| >= |records| && records'[..|records|] == records
      invariant FallbackRecords(records'[|records|..], sorted[..k])
    {
      records', unplaced', nextPlace' := PlaceFallbackRecord(ids, rankings, numJudges, sorted, k, unplaced, |records|,
                                                            records', unplaced', nextPlace');
    }
    assert |multiset(unplaced')| == 0;
    forall k | |records| <= k < |records'| ensures records'[k].summary.FallbackAverage? {
      assert records'[|records|..][k - |records|] == records'[k];
    }
  }

  // ---------------------------------------------------------------------------------------
  // determine_majority_placements

  /** Every judge ranks every couple, within the number of couples. */
  ghost predicate AllRanked(ids: seq<string>, rankings: seq<map<string, int>>) {
    forall j, c :: 0 <= j < |rankings| && c in ids ==> PlacesWithin(rankings[j], c, |ids|)
  }

  /** When every judge ranks every couple, someone has a majority at the last threshold. */
  lemma RankedHasMajority(ids: seq<string>, rankings: seq<map<string, int>>, numJudges: nat, unplaced: seq<string>)
    requires AllRanked(ids, rankings) && |rankings| == numJudges >= 1
    requires unplaced != [] && multiset(unplaced) <= multiset(ids)
    ensures !NoMajority(unplaced, rankings, numJudges, |ids|)
  {
    var c := unplaced[0];
    assert c in multiset(ids);
    assert c in ids;
    forall j | 0 <= j < |rankings| ensures PlacesWithin(rankings[j], c, |ids|) {
    }
    CountWithinAll(c, rankings, |ids|, |rankings|);
    assert HasMajority(Count(c, rankings, |ids|), numJudges);
  }

  /** A sub-multiset keeps the couples without a majority without one. */
  lemma NoMajoritySub(unplaced: seq<string>, rest: seq<string>, rankings: seq<map<string, int>>, numJudges: nat, threshold: nat)
    requires multiset(rest) <= multiset(unplaced)
    requires forall t :: 1 <= t < threshold ==> NoMajority(unplaced, rankings, numJudges, t)
    ensures forall t :: 1 <= t < threshold ==> NoMajority(rest, rankings, numJudges, t)
  {
    forall t, c | 1 <= t < threshold && c in rest ensures !HasMajority(Count(c, rankings, t), numJudges) {
      assert c in multiset(unplaced);
      assert NoMajority(unplaced, rankings, numJudges, t);
    }
  }

  /**
   * The majority placement. Every couple of `ids` is placed once (a start number listed twice,
   * twice); places count the couples placed before; each majority record names the lowest
   * threshold at which each of its couples has a majority, and the size of it; majority records
   * come by non-decreasing threshold, then the fallback records, one couple each, by ascending
   * average rank, for couples with no majority at any threshold. With distinct start numbers the
   * thresholds rise strictly from one round to the next, so majority records come by threshold
   * and, at one threshold, by non-increasing size of majority. When every judge ranks every
   * couple, no couple needs the fallback.
   */
  method DeterminePlacements(ids: seq<string>, rankings: seq<map<string, int>>, numJudges: nat)
    returns (records: seq<Record>)
    requires numJudges >= 1
    ensures multiset(PlacedCouples(records)) == multiset(ids)
    ensures PlacesFollow(records)
    ensures forall k :: 0 <= k < |records| ==> records[k].couples != [] && RecordOk(records[k], rankings, numJudges, |ids|)
    ensures InOrder(records)
    ensures Distinct(ids) ==> MajorityOrder(records)
    ensures AllRanked(ids, rankings) && |rankings| == numJudges ==>
      forall k :: 0 <= k < |records| ==> records[k].summary.Majority?
  {
    var unplaced := ids;
    records := [];
    var nextPlace := 1;
    var totalCouples := |unplaced|;
    ghost var lowest := 1;
    while unplaced != []
      invariant Placing(ids, rankings, numJudges, records, unplaced, nextPlace)
      invariant unplaced != [] ==> MajoritiesUpTo(records, lowest)
      invariant forall t :: 1 <= t < lowest ==> NoMajority(unplaced, rankings, numJudges, t)
      invariant AllRanked(ids, rankings) && |rankings| == numJudges ==>
        forall k :: 0 <= k < |records| ==> records[k].summary.Majority?
      invariant Distinct(ids) ==> MajorityOrder(records) && ThresholdsSpent(records, unplaced, rankings, numJudges)
      decreases |unplaced|
    {
      ghost var before, done := unplaced, records;
      assert multiset(unplaced) <= multiset(ids);
      if AllRanked(ids, rankings) && |rankings| == numJudges {
        RankedHasMajority(ids, rankings, numJudges, unplaced);
      }
      var majorityFound, threshold, candidateCounts := FindMajority(unplaced, rankings, numJudges, totalCouples);
      if majorityFound {
        FoundAtLowest(unplaced, rankings, numJudges, threshold, candidateCounts);
        RoundThreshold(unplaced, rankings, numJudges, threshold, candidateCounts, lowest, records);
        ghost var runs;
        records, unplaced, nextPlace, runs := PlaceMajorityRound(ids, rankings, numJudges, threshold, candidateCounts,
                                                                 records, unplaced, nextPlace);
        Shrinks(unplaced, Keys(candidateCounts, TallyId), before);
        NoMajoritySub(before, unplaced, rankings, numJudges, threshold);
        if Distinct(ids) {
          RoundOrdered(ids, done, records, threshold, before, unplaced, candidateCounts, rankings, numJudges);
        }
        lowest := threshold;
      } else {
        records, unplaced, nextPlace := PlaceFallback(ids, rankings, numJudges, totalCouples, records, unplaced, nextPlace);
        if Distinct(ids) {
          FallbackInOrder(done, records);
        }
      }
    }
  }

  /**
   * Majority records come by rising threshold and, at one threshold, by non-increasing size of
   * majority.
   */
  ghost predicate MajorityOrder(records: seq<Record>) {
    forall i, j :: 0 <= i < j < |records| && records[i].summary.Majority? && records[j].summary.Majority? ==>
      || records[i].summary.threshold < records[j].summary.threshold
      || (records[i].summary.threshold == records[j].summary.threshold && records[i].summary.count >= records[j].summary.count)
  }

  /** No couple of `unplaced` has a majority at the threshold of any majority record so far. */
  ghost predicate ThresholdsSpent(records: seq<Record>, unplaced: seq<string>, rankings: seq<map<string, int>>, numJudges: nat) {
    forall k :: 0 <= k < |records| && records[k].summary.Majority? ==>
      NoMajority(unplaced, rankings, numJudges, records[k].summary.threshold)
  }

  /**
   * With no start number listed twice, a round leaves no couple with a majority at its
   * threshold: every such couple was a candidate and has been placed.
   */
  lemma RoundSpent(before: seq<string>, rest: seq<string>, candidateCounts: seq<Tally>,
                   rankings: seq<map<string, int>>, numJudges: nat, threshold: nat)
    requires Distinct(before)
    requires multiset(rest) + multiset(Keys(candidateCounts, TallyId)) == multiset(before)
    requires forall e :: e in candidateCounts <==>
      e.id in before && e.count == Count(e.id, rankings, threshold) && HasMajority(e.count, numJudges)
    ensures NoMajority(rest, rankings, numJudges, threshold)
  {
    forall c | c in rest ensures !HasMajority(Count(c, rankings, threshold), numJudges) {
      if HasMajority(Count(c, rankings, threshold), numJudges) {
        assert c in multiset(rest);
        assert c in multiset(before);
        var e := Tally(c, Count(c, rankings, threshold));
        assert e in candidateCounts;
        var k :| 0 <= k < |candidateCounts| && candidateCounts[k] == e;
        assert Keys(candidateCounts, TallyId)[k] == c;
        assert c in multiset(Keys(candidateCounts, TallyId));
        AtMostOnce(before, c, x => x);
        assert false;
      }
    }
  }

  /** A round at a threshold still giving someone a majority comes after every earlier round. */
  lemma RoundInOrder(records: seq<Record>, news: seq<Record>, threshold: nat, unplaced: seq<string>,
                     rankings: seq<map<string, int>>, numJudges: nat)
    requires MajorityOrder(records) && ThresholdsSpent(records, unplaced, rankings, numJudges)
    requires MajoritiesUpTo(records, threshold) && !NoMajority(unplaced, rankings, numJudges, threshold)
    requires CountsDescend(news) && AtThreshold(news, threshold)
    ensures MajorityOrder(records + news)
  {
    var all := records + news;
    forall i, j | 0 <= i < j < |all| && all[i].summary.Majority? && all[j].summary.Majority?
      ensures || all[i].summary.threshold < all[j].summary.threshold
              || (all[i].summary.threshold == all[j].summary.threshold && all[i].summary.count >= all[j].summary.count)
    {
      if j < |records| {
        assert all[i] == records[i] && all[j] == records[j];
      } else if i < |records| {
        assert all[i] == records[i] && all[j] == news[j - |records|];
        assert NoMajority(unplaced, rankings, numJudges, records[i].summary.threshold);
      } else {
        assert all[i] == news[i - |records|] && all[j] == news[j - |records|];
      }
    }
  }

  /** After a round, no remaining couple has a majority at any threshold used so far. */
  lemma SpentAfterRound(records: seq<Record>, news: seq<Record>, threshold: nat, before: seq<string>, rest: seq<string>,
                        rankings: seq<map<string, int>>, numJudges: nat)
    requires ThresholdsSpent(records, before, rankings, numJudges) && multiset(rest) <= multiset(before)
    requires AtThreshold(news, threshold) && NoMajority(rest, rankings, numJudges, threshold)
    ensures ThresholdsSpent(records + news, rest, rankings, numJudges)
  {
    var all := records + news;
    forall k | 0 <= k < |all| && all[k].summary.Majority?
      ensures NoMajority(rest, rankings, numJudges, all[k].summary.threshold)
    {
      if k < |records| {
        assert all[k] == records[k];
        forall c | c in rest ensures !HasMajority(Count(c, rankings, records[k].summary.threshold), numJudges) {
          assert c in multiset(before);
        }
      } else {
        assert all[k] == news[k - |records|];
      }
    }
  }

  /** With distinct start numbers, a majority round keeps the majority order and spends its threshold. */
  lemma RoundOrdered(ids: seq<string>, done: seq<Record>, records: seq<Record>, threshold: nat, before: seq<string>,
                     rest: seq<string>, candidateCounts: seq<Tally>, rankings: seq<map<string, int>>, numJudges: nat)
    requires Distinct(ids) && multiset(before) <= multiset(ids)
    requires MajorityOrder(done) && ThresholdsSpent(done, before, rankings, numJudges)
    requires MajoritiesUpTo(done, threshold) && candidateCounts != []
    requires multiset(rest) + multiset(Keys(candidateCounts, TallyId)) == multiset(before)
    requires forall e :: e in candidateCounts <==>
      e.id in before && e.count == Count(e.id, rankings, threshold) && HasMajority(e.count, numJudges)
    requires |records| >= |done| && records[..|done|] == done
    requires CountsDescend(records[|done|..]) && AtThreshold(records[|done|..], threshold)
    ensures MajorityOrder(records) && ThresholdsSpent(records, rest, rankings, numJudges)
  {
    var news := records[|done|..];
    assert records == done + news;
    DistinctSub(ids, before);
    RoundSpent(before, rest, candidateCounts, rankings, numJudges, threshold);
    assert candidateCounts[0] in candidateCounts;
    assert !NoMajority(before, rankings, numJudges, threshold);
    RoundInOrder(done, news, threshold, before, rankings, numJudges);
    SpentAfterRound(done, news, threshold, before, rest, rankings, numJudges);
  }

  /** Fallback records after the majority records keep the majority order. */
  lemma FallbackInOrder(records: seq<Record>, longer: seq<Record>)
    requires MajorityOrder(records)
    requires |longer| >= |records| && longer[..|records|] == records
    requires forall k :: |records| <= k < |longer| ==> longer[k].summary.FallbackAverage?
    ensures MajorityOrder(longer)
  {
    forall i, j | 0 <= i < j < |longer| && longer[i].summary.Majority? && longer[j].summary.Majority?
      ensures || longer[i].summary.threshold < longer[j].summary.threshold
              || (longer[i].summary.threshold == longer[j].summary.threshold && longer[i].summary.count >= longer[j].summary.count)
    {
      assert longer[i] == records[i] && longer[j] == records[j];
    }
  }

  /** A round's threshold is at least the last one: lower thresholds gave no one a majority. */
  lemma RoundThreshold(unplaced: seq<string>, rankings: seq<map<string, int>>, numJudges: nat, threshold: nat,
                       candidateCounts: seq<Tally>, lowest: nat, records: seq<Record>)
    requires candidateCounts != []
    requires forall e :: e in candidateCounts ==>
      e.id in unplaced && e.count == Count(e.id, rankings, threshold) && HasMajority(e.count, numJudges)
    requires forall t :: 1 <= t < lowest ==> NoMajority(unplaced, rankings, numJudges, t)
    requires 1 <= threshold && MajoritiesUpTo(records, lowest)
    ensures MajoritiesUpTo(records, threshold)
  {
    var e := candidateCounts[0];
    assert e in candidateCounts;
    assert !NoMajority(unplaced, rankings, numJudges, threshold);
  }

  /** Taking a non-empty part away shortens the sequence. */
  lemma Shrinks(rest: seq<string>, part: seq<string>, whole: seq<string>)
    requires multiset(rest) + multiset(part) == multiset(whole) && part != []
    ensures |rest| < |whole| && multiset(rest) <= multiset(whole)
  {
    assert |multiset(rest) + multiset(part)| == |multiset(whole)|;
  }
}
