/**
 * Tie resolution among couples that reach a majority with the same count (`resolve_ties`):
 * two couples are separated head-to-head (how many judges rank one above the other), three or
 * more by how many head-to-head comparisons each wins, recursing into groups still level.
 */
module Ties {
  import opened Sorting

  // ---------------------------------------------------------------------------------------
  // sequences of start numbers

  predicate Distinct(xs: seq<string>) {
    forall i, j :: 0 <= i < j < |xs| ==> xs[i] != xs[j]
  }

  /** A sub-multiset of a sequence without repeats has no repeats. */
  lemma DistinctSub(a: seq<string>, b: seq<string>)
    requires Distinct(a) && multiset(b) <= multiset(a)
    ensures Distinct(b)
  {
    forall i, j | 0 <= i < j < |b| ensures b[i] != b[j] {
      if b[i] == b[j] {
        TwiceCounted(b, i, j);
        AtMostOnce(a, b[i], x => x);
        assert false;
      }
    }
  }

  /** The keys of `m` are exactly the elements of `cs`. */
  ghost predicate KeysAre<T>(m: map<string, T>, cs: seq<string>) {
    forall c :: c in m <==> c in cs
  }

  /** Every key of `m` is an element of `cs`. */
  ghost predicate KeysWithin<T>(m: map<string, T>, cs: seq<string>) {
    forall c :: c in m ==> c in cs
  }

  /** Python's `xs.remove(x)`: the first occurrence goes (the list is unchanged without one). */
  function RemoveFirst(xs: seq<string>, x: string): (r: seq<string>)
    ensures multiset(r) == multiset(xs) - multiset{x}
    ensures x in xs ==> |r| == |xs| - 1
    ensures x !in xs ==> r == xs
  {
    if xs == [] then []
    else if xs[0] == x then
      assert xs == [xs[0]] + xs[1..];
      xs[1..]
    else
      assert xs == [xs[0]] + xs[1..];
      [xs[0]] + RemoveFirst(xs[1..], x)
  }

  /** The groups one after the other. */
  function Flatten(gs: seq<seq<string>>): seq<string>
    decreases |gs|
  {
    if gs == [] then [] else Flatten(gs[..|gs| - 1]) + gs[|gs| - 1]
  }

  lemma FlattenSnoc(gs: seq<seq<string>>, g: seq<string>)
    ensures Flatten(gs + [g]) == Flatten(gs) + g
  {
    assert (gs + [g])[..|gs|] == gs;
  }

  lemma {:induction false} FlattenConcat(gs: seq<seq<string>>, hs: seq<seq<string>>)
    ensures Flatten(gs + hs) == Flatten(gs) + Flatten(hs)
    decreases |hs|
  {
    if hs == [] {
      assert gs + hs == gs;
    } else {
      var init := hs[..|hs| - 1];
      assert gs + hs == (gs + init) + [hs[|hs| - 1]];
      FlattenSnoc(gs + init, hs[|hs| - 1]);
      FlattenConcat(gs, init);
    }
  }

  // ---------------------------------------------------------------------------------------
  // head to head

  /** A judge's rank of a couple; a couple the judge did not rank sits behind every rank. */
  datatype RankAt = At(rank: int) | Missing

  function RankIn(ranking: map<string, int>, c: string): RankAt {
    if c in ranking then At(ranking[c]) else Missing
  }

  /** `rank_a < rank_b` with a missing rank read as infinity. */
  predicate Better(x: RankAt, y: RankAt) {
    match (x, y)
    case (At(p), At(q)) => p < q
    case (At(_), Missing) => true
    case (Missing, _) => false
  }

  /** How many judges rank `a` strictly above `b`. */
  function Wins(a: string, b: string, rankings: seq<map<string, int>>): (n: nat)
    ensures n <= |rankings|
    decreases |rankings|
  {
    if rankings == [] then 0
    else
      var last := rankings[|rankings| - 1];
      Wins(a, b, rankings[..|rankings| - 1]) + (if Better(RankIn(last, a), RankIn(last, b)) then 1 else 0)
  }

  /** The inner `head_to_head` loop over the judges' rankings. */
  method HeadToHead(a: string, b: string, rankings: seq<map<string, int>>) returns (winsA: nat, winsB: nat)
    ensures winsA == Wins(a, b, rankings) && winsB == Wins(b, a, rankings)
  {
    winsA, winsB := 0, 0;
    for k := 0 to |rankings|
      invariant winsA == Wins(a, b, rankings[..k]) && winsB == Wins(b, a, rankings[..k])
    {
      assert rankings[..k + 1][..k] == rankings[..k];
      var rankA := RankIn(rankings[k], a);
      var rankB := RankIn(rankings[k], b);
      if Better(rankA, rankB) {
        winsA := winsA + 1;
      } else if Better(rankB, rankA) {
        winsB := winsB + 1;
      }
    }
    assert rankings[..|rankings|] == rankings;
  }

  /** No judge ranks a couple both above and below another, so the two counts share the judges. */
  lemma {:induction false} WinsShareJudges(a: string, b: string, rankings: seq<map<string, int>>)
    ensures Wins(a, b, rankings) + Wins(b, a, rankings) <= |rankings|
    decreases |rankings|
  {
    if rankings != [] {
      WinsShareJudges(a, b, rankings[..|rankings| - 1]);
    }
  }

  /** A couple never beats itself. */
  lemma {:induction false} WinsSelf(a: string, rankings: seq<map<string, int>>)
    ensures Wins(a, a, rankings) == 0
    decreases |rankings|
  {
    if rankings != [] {
      WinsSelf(a, rankings[..|rankings| - 1]);
    }
  }

  /** A couple every judge ranks above another wins with every judge and loses with none. */
  lemma {:induction false} WinsUnanimous(a: string, b: string, rankings: seq<map<string, int>>)
    requires forall k :: 0 <= k < |rankings| ==> Better(RankIn(rankings[k], a), RankIn(rankings[k], b))
    ensures Wins(a, b, rankings) == |rankings| && Wins(b, a, rankings) == 0
    decreases |rankings|
  {
    if rankings != [] {
      var init := rankings[..|rankings| - 1];
      assert forall k :: 0 <= k < |init| ==> init[k] == rankings[k];
      WinsUnanimous(a, b, init);
    }
  }

  /** In particular a couple every judge ranked beats, with every judge, one that no judge ranked. */
  lemma WinsOverUnranked(a: string, b: string, rankings: seq<map<string, int>>)
    requires forall k :: 0 <= k < |rankings| ==> a in rankings[k] && b !in rankings[k]
    ensures Wins(a, b, rankings) == |rankings| && Wins(b, a, rankings) == 0
  {
    WinsUnanimous(a, b, rankings);
  }

  /** `a` wins the head-to-head comparison with `b`. */
  predicate Beats(a: string, b: string, rankings: seq<map<string, int>>) {
    Wins(a, b, rankings) > Wins(b, a, rankings)
  }

  // ---------------------------------------------------------------------------------------
  // pairwise scorecard

  /** How many of the first `k` of `xs` the couple `c` beats head-to-head. */
  function CountBeaten(c: string, xs: seq<string>, k: nat, rankings: seq<map<string, int>>): (n: nat)
    requires k <= |xs|
    ensures n <= k
  {
    if k == 0 then 0
    else CountBeaten(c, xs, k - 1, rankings) + (if Beats(c, xs[k - 1], rankings) then 1 else 0)
  }

  lemma CountBeatenStep(c: string, xs: seq<string>, k: nat, rankings: seq<map<string, int>>)
    requires k < |xs|
    ensures CountBeaten(c, xs, k + 1, rankings) == CountBeaten(c, xs, k, rankings) + (if Beats(c, xs[k], rankings) then 1 else 0)
  {
  }

  /** The pairwise score of a candidate: how many of the other candidates it beats. */
  function PairScore(c: string, candidates: seq<string>, rankings: seq<map<string, int>>): nat {
    CountBeaten(c, candidates, |candidates|, rankings)
  }

  /** One head-to-head note of the scorecard: the opponent and the two win counts. */
  datatype Versus = Versus(opponent: string, wins: nat, losses: nat)

  /**
   * The scores once row `i` of the pair table is done up to column `j`: the rows before `i`
   * are complete, candidate `i` has met the columns before `j`, the candidates between `i`
   * and `j` have met the rows up to `i` included, and the later ones the rows before `i`.
   */
  predicate ScoredUpTo(candidates: seq<string>, rankings: seq<map<string, int>>, scores: map<string, nat>, i: nat, j: nat)
    requires i <= j <= |candidates|
  {
    var n := |candidates|;
    && (forall p :: 0 <= p < n ==> candidates[p] in scores)
    && (forall p :: 0 <= p < i ==>
          candidates[p] in scores && scores[candidates[p]] == CountBeaten(candidates[p], candidates, n, rankings))
    && (i < n ==>
          candidates[i] in scores && scores[candidates[i]] == CountBeaten(candidates[i], candidates, j, rankings))
    && (forall p :: i < p < j ==>
          candidates[p] in scores && scores[candidates[p]] == CountBeaten(candidates[p], candidates, i + 1, rankings))
    && (forall p :: j <= p < n ==>
          candidates[p] in scores && scores[candidates[p]] == CountBeaten(candidates[p], candidates, i, rankings))
  }

  lemma RowStart(candidates: seq<string>, rankings: seq<map<string, int>>, scores: map<string, nat>, i: nat)
    requires i < |candidates| && ScoredUpTo(candidates, rankings, scores, i, i)
    ensures ScoredUpTo(candidates, rankings, scores, i, i + 1)
  {
    WinsSelf(candidates[i], rankings);
    CountBeatenStep(candidates[i], candidates, i, rankings);
  }

  lemma RowEnd(candidates: seq<string>, rankings: seq<map<string, int>>, scores: map<string, nat>, i: nat)
    requires i < |candidates| && ScoredUpTo(candidates, rankings, scores, i, |candidates|)
    ensures ScoredUpTo(candidates, rankings, scores, i + 1, i + 1)
  {
  }

  /** Scoring the pair (i, j) credits whichever of the two wins the head-to-head. */
  lemma PairStep(candidates: seq<string>, rankings: seq<map<string, int>>, scores: map<string, nat>,
                 i: nat, j: nat, updated: map<string, nat>)
    requires Distinct(candidates) && i < j < |candidates|
    requires ScoredUpTo(candidates, rankings, scores, i, j)
    requires var a, b := candidates[i], candidates[j];
      updated == if Beats(a, b, rankings) then scores[a := scores[a] + 1]
                 else if Beats(b, a, rankings) then scores[b := scores[b] + 1]
                 else scores
    ensures ScoredUpTo(candidates, rankings, updated, i, j + 1)
  {
    var n := |candidates|;
    var a, b := candidates[i], candidates[j];
    CountBeatenStep(a, candidates, j, rankings);
    CountBeatenStep(b, candidates, i, rankings);
    assert updated[a] == scores[a] + (if Beats(a, b, rankings) then 1 else 0);
    assert updated[b] == scores[b] + (if Beats(b, a, rankings) then 1 else 0);
    forall p | 0 <= p < n && p != i && p != j ensures updated[candidates[p]] == scores[candidates[p]] {
      assert candidates[p] != a && candidates[p] != b;
    }
  }

  /** One pair of the scorecard: the head-to-head winner scores a point, both get a note. */
  method ScorePair(candidates: seq<string>, rankings: seq<map<string, int>>,
                   scores: map<string, nat>, notes: map<string, seq<Versus>>, i: nat, j: nat)
    returns (scores': map<string, nat>, notes': map<string, seq<Versus>>)
    requires Distinct(candidates) && i < j < |candidates|
    requires ScoredUpTo(candidates, rankings, scores, i, j)
    requires candidates[i] in notes && candidates[j] in notes
    ensures ScoredUpTo(candidates, rankings, scores', i, j + 1)
    ensures notes'.Keys == notes.Keys
  {
    var a, b := candidates[i], candidates[j];
    var winsA, winsB := HeadToHead(a, b, rankings);
    scores' := scores;
    if winsA > winsB {
      scores' := scores[a := scores[a] + 1];
    } else if winsB > winsA {
      scores' := scores[b := scores[b] + 1];
    }
    PairStep(candidates, rankings, scores, i, j, scores');
    notes' := notes[a := notes[a] + [Versus(b, winsA, winsB)]];
    notes' := notes'[b := notes'[b] + [Versus(a, winsB, winsA)]];
  }

  /** Row `i` of the pair table: the pairs (i, j) for every j > i. */
  method ScoreRow(candidates: seq<string>, rankings: seq<map<string, int>>,
                  scores: map<string, nat>, notes: map<string, seq<Versus>>, i: nat)
    returns (scores': map<string, nat>, notes': map<string, seq<Versus>>)
    requires Distinct(candidates) && i < |candidates|
    requires ScoredUpTo(candidates, rankings, scores, i, i)
    requires forall c :: c in candidates ==> c in notes
    ensures ScoredUpTo(candidates, rankings, scores', i + 1, i + 1)
    ensures notes'.Keys == notes.Keys
  {
    RowStart(candidates, rankings, scores, i);
    scores', notes' := scores, notes;
    for j := i + 1 to |candidates|
      invariant ScoredUpTo(candidates, rankings, scores', i, j)
      invariant notes'.Keys == notes.Keys
    {
      scores', notes' := ScorePair(candidates, rankings, scores', notes', i, j);
    }
    RowEnd(candidates, rankings, scores', i);
  }

  lemma ScoredNone(candidates: seq<string>, rankings: seq<map<string, int>>)
    ensures ScoredUpTo(candidates, rankings, map c | c in candidates :: 0, 0, 0)
  {
  }

  lemma ScoredAll(candidates: seq<string>, rankings: seq<map<string, int>>, scores: map<string, nat>)
    requires ScoredUpTo(candidates, rankings, scores, |candidates|, |candidates|)
    ensures forall c :: c in candidates ==> c in scores && scores[c] == PairScore(c, candidates, rankings)
  {
    forall c | c in candidates ensures c in scores && scores[c] == PairScore(c, candidates, rankings) {
      var p :| 0 <= p < |candidates| && candidates[p] == c;
    }
  }

  /** The scorecard loop over all pairs i < j. */
  method PairwiseScores(candidates: seq<string>, rankings: seq<map<string, int>>)
    returns (scores: map<string, nat>, notes: map<string, seq<Versus>>)
    requires Distinct(candidates)
    ensures forall c :: c in candidates ==> c in scores && scores[c] == PairScore(c, candidates, rankings)
    ensures KeysAre(notes, candidates)
  {
    scores := map c | c in candidates :: 0;
    notes := map c | c in candidates :: [];
    ScoredNone(candidates, rankings);
    for i := 0 to |candidates|
      invariant ScoredUpTo(candidates, rankings, scores, i, i)
      invariant KeysAre(notes, candidates)
    {
      scores, notes := ScoreRow(candidates, rankings, scores, notes, i);
    }
    ScoredAll(candidates, rankings, scores);
  }

  // ---------------------------------------------------------------------------------------
  // top of the scorecard

  /** `max(scores[x] for x in xs)`. */
  function MaxScore(xs: seq<string>, scores: map<string, nat>): (m: nat)
    requires xs != [] && forall x :: x in xs ==> x in scores
    ensures forall x :: x in xs ==> scores[x] <= m
    ensures exists x :: x in xs && scores[x] == m
    decreases |xs|
  {
    if |xs| == 1 then scores[xs[0]]
    else
      var m := MaxScore(xs[1..], scores);
      assert forall x :: x in xs[1..] ==> x in xs;
      assert forall x :: x in xs ==> x == xs[0] || x in xs[1..];
      if scores[xs[0]] >= m then scores[xs[0]] else m
  }

  /** `[x for x in xs if scores[x] == m]`. */
  function TopOf(xs: seq<string>, scores: map<string, nat>, m: nat): (top: seq<string>)
    requires forall x :: x in xs ==> x in scores
    ensures multiset(top) <= multiset(xs)
    ensures forall x :: x in top <==> x in xs && scores[x] == m
    ensures |top| <= |xs|
    decreases |xs|
  {
    if xs == [] then []
    else
      assert xs == [xs[0]] + xs[1..];
      var rest := TopOf(xs[1..], scores, m);
      if scores[xs[0]] == m then [xs[0]] + rest else rest
  }

  /** A filter on the score that keeps as many elements as there are keeps every one. */
  lemma {:induction false} TopOfFull(xs: seq<string>, scores: map<string, nat>, m: nat)
    requires forall x :: x in xs ==> x in scores
    requires |TopOf(xs, scores, m)| == |xs|
    ensures forall x :: x in xs ==> scores[x] == m
    decreases |xs|
  {
    if xs != [] {
      assert xs == [xs[0]] + xs[1..];
      assert forall x :: x in xs[1..] ==> x in xs;
      var rest := TopOf(xs[1..], scores, m);
      assert |rest| <= |xs[1..]|;
      TopOfFull(xs[1..], scores, m);
    }
  }

  /** Filtering on a score every element has keeps the whole sequence. */
  lemma {:induction false} TopOfEqual(xs: seq<string>, scores: map<string, nat>, m: nat)
    requires forall x :: x in xs ==> x in scores && scores[x] == m
    ensures TopOf(xs, scores, m) == xs
    decreases |xs|
  {
    if xs != [] {
      assert xs == [xs[0]] + xs[1..];
      TopOfEqual(xs[1..], scores, m);
    }
  }

  // ---------------------------------------------------------------------------------------
  // resolve_ties

  /** What a couple's tie note records. */
  datatype TieNote =
    | HeadToHeadNote(wins: nat, losses: nat)
    | HeadToHeadTie(winsFirst: nat, winsSecond: nat)
    | PairwiseNote(notes: seq<Versus>)

  /** Every couple of an earlier group scores at least as high as every couple of a later one. */
  predicate GroupsDescend(gs: seq<seq<string>>, candidates: seq<string>, rankings: seq<map<string, int>>) {
    forall i, j, x, y :: 0 <= i < j < |gs| && x in gs[i] && y in gs[j] ==>
      PairScore(x, candidates, rankings) >= PairScore(y, candidates, rankings)
  }

  /** The couples of one group share their pairwise score. */
  predicate GroupsLevel(gs: seq<seq<string>>, candidates: seq<string>, rankings: seq<map<string, int>>) {
    forall i, x, y :: 0 <= i < |gs| && x in gs[i] && y in gs[i] ==>
      PairScore(x, candidates, rankings) == PairScore(y, candidates, rankings)
  }

  predicate NonEmptyGroups(gs: seq<seq<string>>) {
    forall i :: 0 <= i < |gs| ==> gs[i] != []
  }

  /** The inner loop: every couple of one group that is still there leaves `remaining`. */
  method RemoveGroup(remaining: seq<string>, group: seq<string>) returns (rest: seq<string>)
    ensures multiset(rest) == multiset(remaining) - multiset(group)
  {
    rest := remaining;
    for k := 0 to |group|
      invariant multiset(rest) == multiset(remaining) - multiset(group[..k])
    {
      var candidate := group[k];
      TakeSnoc(group, k);
      if candidate in rest {
        rest := RemoveFirst(rest, candidate);
      } else {
        assert multiset(rest)[candidate] == 0;
      }
    }
    assert group[..|group|] == group;
  }

  /** The nested loop that takes every couple of `groups` out of `remaining`. */
  method RemoveGroups(remaining: seq<string>, groups: seq<seq<string>>) returns (rest: seq<string>)
    ensures multiset(rest) == multiset(remaining) - multiset(Flatten(groups))
  {
    rest := remaining;
    for g := 0 to |groups|
      invariant multiset(rest) == multiset(remaining) - multiset(Flatten(groups[..g]))
    {
      TakeSnoc(groups, g);
      FlattenSnoc(groups[..g], groups[g]);
      rest := RemoveGroup(rest, groups[g]);
      assert multiset(rest) == multiset(remaining) - (multiset(Flatten(groups[..g])) + multiset(groups[g]));
    }
    assert groups[..|groups|] == groups;
  }

  /**
   * The tie resolution. For distinct candidates the groups partition them (none empty when
   * there are candidates); one or no candidate is one group without notes; two are split by
   * head-to-head wins or left together on a head-to-head tie; more are grouped by pairwise
   * score, best first, each group holding couples of one score, and left together when every
   * score is equal. Every candidate of a
   * resolution among two or more gets a note.
   */
  method ResolveTies(candidates: seq<string>, rankings: seq<map<string, int>>)
    returns (groups: seq<seq<string>>, tieInfo: map<string, TieNote>)
    requires Distinct(candidates)
    ensures multiset(Flatten(groups)) == multiset(candidates)
    ensures candidates != [] ==> NonEmptyGroups(groups)
    ensures |candidates| <= 1 ==> groups == [candidates] && tieInfo == map[]
    ensures |candidates| >= 2 ==> KeysAre(tieInfo, candidates)
    ensures |candidates| == 2 ==>
      var a, b := candidates[0], candidates[1];
      groups == (if Beats(a, b, rankings) then [[a], [b]] else if Beats(b, a, rankings) then [[b], [a]] else [candidates])
    ensures |candidates| > 2 ==> GroupsDescend(groups, candidates, rankings)
    ensures |candidates| > 2 ==> GroupsLevel(groups, candidates, rankings)
    ensures (|candidates| > 2 && forall x, y :: x in candidates && y in candidates ==>
              PairScore(x, candidates, rankings) == PairScore(y, candidates, rankings))
            ==> groups == [candidates]
    decreases |candidates|, 3
  {
    if |candidates| <= 1 {
      FlattenOne(candidates);
      return [candidates], map[];
    }
    if |candidates| == 2 {
      assert candidates == [candidates[0], candidates[1]];
      groups, tieInfo := ResolvePair(candidates[0], candidates[1], rankings);
      return;
    }
    groups, tieInfo := ResolveMany(candidates, rankings);
  }

  /** What the tie resolution of `candidates` promises about the groups and notes it returns. */
  ghost predicate Resolved(candidates: seq<string>, rankings: seq<map<string, int>>,
                           groups: seq<seq<string>>, tieInfo: map<string, TieNote>) {
    && multiset(Flatten(groups)) == multiset(candidates)
    && (candidates != [] ==> NonEmptyGroups(groups))
    && (|candidates| <= 1 ==> groups == [candidates] && tieInfo == map[])
    && (|candidates| >= 2 ==> KeysAre(tieInfo, candidates))
    && (|candidates| == 2 ==>
          var a, b := candidates[0], candidates[1];
          groups == (if Beats(a, b, rankings) then [[a], [b]] else if Beats(b, a, rankings) then [[b], [a]] else [candidates]))
    && (|candidates| > 2 ==> GroupsDescend(groups, candidates, rankings))
    && (|candidates| > 2 ==> GroupsLevel(groups, candidates, rankings))
    && ((|candidates| > 2 && forall x, y :: x in candidates && y in candidates ==>
           PairScore(x, candidates, rankings) == PairScore(y, candidates, rankings))
        ==> groups == [candidates])
  }

  /**
   * Three or more couples stay in one group exactly when every pairwise score is the same:
   * a resolution never leaves couples of different scores together.
   */
  lemma OneGroupIffLevel(candidates: seq<string>, rankings: seq<map<string, int>>,
                         groups: seq<seq<string>>, tieInfo: map<string, TieNote>)
    requires |candidates| > 2 && Resolved(candidates, rankings, groups, tieInfo)
    ensures groups == [candidates] <==> forall x, y :: x in candidates && y in candidates ==>
      PairScore(x, candidates, rankings) == PairScore(y, candidates, rankings)
  {
    if groups == [candidates] {
      forall x, y | x in candidates && y in candidates
        ensures PairScore(x, candidates, rankings) == PairScore(y, candidates, rankings)
      {
        assert x in groups[0] && y in groups[0];
      }
    }
  }

  /** Two tied couples: the head-to-head winner goes first; on a head-to-head tie they stay together. */
  method ResolvePair(a: string, b: string, rankings: seq<map<string, int>>)
    returns (groups: seq<seq<string>>, tieInfo: map<string, TieNote>)
    ensures multiset(Flatten(groups)) == multiset([a, b])
    ensures NonEmptyGroups(groups)
    ensures KeysAre(tieInfo, [a, b])
    ensures groups == (if Beats(a, b, rankings) then [[a], [b]] else if Beats(b, a, rankings) then [[b], [a]] else [[a, b]])
  {
    var winsA, winsB := HeadToHead(a, b, rankings);
    if winsA > winsB {
      groups := [[a], [b]];
      TwoGroups(a, b);
    } else if winsB > winsA {
      groups := [[b], [a]];
      TwoGroups(b, a);
    } else {
      groups := [[a, b]];
      FlattenSnoc([], [a, b]);
    }
    if winsA != winsB {
      tieInfo := map[a := HeadToHeadNote(winsA, winsB), b := HeadToHeadNote(winsB, winsA)];
    } else {
      tieInfo := map[a := HeadToHeadTie(winsA, winsB), b := HeadToHeadTie(winsA, winsB)];
    }
  }

  lemma TwoGroups(x: string, y: string)
    ensures multiset(Flatten([[x], [y]])) == multiset([x, y]) && NonEmptyGroups([[x], [y]])
  {
    FlattenSnoc([[x]], [y]);
    FlattenSnoc([], [x]);
    assert [[x]] + [[y]] == [[x], [y]];
    assert [] + [[x]] == [[x]];
  }

  /** Three or more tied couples: grouped by pairwise score, best first. */
  method ResolveMany(candidates: seq<string>, rankings: seq<map<string, int>>)
    returns (groups: seq<seq<string>>, tieInfo: map<string, TieNote>)
    requires Distinct(candidates) && |candidates| > 2
    ensures multiset(Flatten(groups)) == multiset(candidates)
    ensures NonEmptyGroups(groups)
    ensures KeysAre(tieInfo, candidates)
    ensures GroupsDescend(groups, candidates, rankings)
    ensures GroupsLevel(groups, candidates, rankings)
    ensures (forall x, y :: x in candidates && y in candidates ==>
              PairScore(x, candidates, rankings) == PairScore(y, candidates, rankings))
            ==> groups == [candidates]
    decreases |candidates|, 2
  {
    var scores, notes := PairwiseScores(candidates, rankings);
    var maxScore := MaxScore(candidates, scores);
    var topCandidates := TopOf(candidates, scores, maxScore);
    AllEqualTop(candidates, rankings, scores, maxScore);
    tieInfo := map[];
    if |topCandidates| == |candidates| {
      groups := [candidates];
      OneGroup(candidates, rankings);
      TopOfFull(candidates, scores, maxScore);
      tieInfo := AllNotes(candidates, notes, tieInfo);
    } else {
      groups, tieInfo := SeparateByScore(candidates, rankings, scores, notes);
      DescendByPairScore(candidates, rankings, scores, groups);
      LevelByPairScore(candidates, rankings, scores, groups);
      tieInfo := FillNotes(candidates, notes, tieInfo);
    }
  }

  lemma FlattenOne(g: seq<string>)
    ensures Flatten([g]) == g
  {
    FlattenSnoc([], g);
    assert [] + [g] == [g];
  }

  lemma OneGroup(g: seq<string>, rankings: seq<map<string, int>>)
    requires g != []
    ensures Flatten([g]) == g && NonEmptyGroups([g]) && GroupsDescend([g], g, rankings)
  {
    FlattenOne(g);
  }

  /** When every candidate has the same pairwise score, every candidate is at the top. */
  lemma AllEqualTop(candidates: seq<string>, rankings: seq<map<string, int>>, scores: map<string, nat>, m: nat)
    requires candidates != []
    requires forall c :: c in candidates ==> c in scores && scores[c] == PairScore(c, candidates, rankings)
    requires m == MaxScore(candidates, scores)
    ensures (forall x, y :: x in candidates && y in candidates ==>
              PairScore(x, candidates, rankings) == PairScore(y, candidates, rankings))
            ==> TopOf(candidates, scores, m) == candidates
  {
    if forall x, y :: x in candidates && y in candidates ==>
        PairScore(x, candidates, rankings) == PairScore(y, candidates, rankings) {
      var w :| w in candidates && scores[w] == m;
      assert forall x :: x in candidates ==> scores[x] == PairScore(w, candidates, rankings);
      TopOfEqual(candidates, scores, m);
    }
  }

  /** `tie_info[c] = "; ".join(pairwise_notes[c])` for each of `cs`. */
  method AllNotes(cs: seq<string>, notes: map<string, seq<Versus>>, tieInfo: map<string, TieNote>)
    returns (updated: map<string, TieNote>)
    requires forall c :: c in cs ==> c in notes
    ensures forall c :: c in updated <==> c in tieInfo || c in cs
  {
    updated := tieInfo;
    for k := 0 to |cs|
      invariant forall c :: c in updated <==> c in tieInfo || c in cs[..k]
    {
      TakeSnoc(cs, k);
      updated := updated[cs[k] := PairwiseNote(notes[cs[k]])];
    }
    assert cs[..|cs|] == cs;
  }

  /** `tie_info.setdefault(c, ...)` for each candidate. */
  method FillNotes(cs: seq<string>, notes: map<string, seq<Versus>>, tieInfo: map<string, TieNote>)
    returns (updated: map<string, TieNote>)
    requires forall c :: c in cs ==> c in notes
    requires KeysWithin(tieInfo, cs)
    ensures KeysAre(updated, cs)
  {
    updated := tieInfo;
    for k := 0 to |cs|
      invariant forall c :: c in updated <==> c in tieInfo || c in cs[..k]
    {
      TakeSnoc(cs, k);
      if cs[k] !in updated {
        updated := updated[cs[k] := PairwiseNote(notes[cs[k]])];
      }
    }
    assert cs[..|cs|] == cs;
  }

  /** `GroupsDescend` read on a score map rather than on the pairwise scores. */
  predicate ScoresDescend(gs: seq<seq<string>>, scores: map<string, nat>) {
    forall i, j, x, y :: 0 <= i < j < |gs| && x in gs[i] && y in gs[j] && x in scores && y in scores ==>
      scores[x] >= scores[y]
  }

  /** `GroupsLevel` read on a score map: the couples of one group have the same score. */
  predicate ScoresLevel(gs: seq<seq<string>>, scores: map<string, nat>) {
    forall i, x, y :: 0 <= i < |gs| && x in gs[i] && y in gs[i] && x in scores && y in scores ==>
      scores[x] == scores[y]
  }

  /** Every couple already placed in a group scores at least as high as every couple left. */
  predicate ScoresAbove(gs: seq<seq<string>>, rest: seq<string>, scores: map<string, nat>) {
    forall i, x, y :: 0 <= i < |gs| && x in gs[i] && y in rest && x in scores && y in scores ==>
      scores[x] >= scores[y]
  }

  /** The invariant of the `while remaining` loop. */
  predicate Separating(candidates: seq<string>, scores: map<string, nat>, groups: seq<seq<string>>, remaining: seq<string>) {
    && multiset(Flatten(groups)) + multiset(remaining) == multiset(candidates)
    && Distinct(remaining)
    && NonEmptyGroups(groups)
    && ScoresDescend(groups, scores)
    && ScoresLevel(groups, scores)
    && ScoresAbove(groups, remaining, scores)
  }

  /** The `while remaining` loop of a resolution among three or more candidates. */
  method SeparateByScore(candidates: seq<string>, rankings: seq<map<string, int>>,
                         scores: map<string, nat>, notes: map<string, seq<Versus>>)
    returns (groups: seq<seq<string>>, tieInfo: map<string, TieNote>)
    requires Distinct(candidates) && |candidates| > 2
    requires forall c :: c in candidates ==> c in scores && c in notes
    ensures multiset(Flatten(groups)) == multiset(candidates)
    ensures NonEmptyGroups(groups)
    ensures ScoresDescend(groups, scores) && ScoresLevel(groups, scores)
    ensures KeysWithin(tieInfo, candidates)
    decreases |candidates|, 1
  {
    groups := [];
    tieInfo := map[];
    var remaining := candidates;
    while remaining != []
      invariant Separating(candidates, scores, groups, remaining)
      invariant KeysWithin(tieInfo, candidates)
      decreases |remaining|
    {
      groups, remaining, tieInfo := SeparateStep(candidates, rankings, scores, notes, groups, remaining, tieInfo);
    }
  }

  /**
   * One pass of the loop: the couples of `remaining` with the highest score are placed, as one
   * group when that is all of them (the loop's `break`: nothing remains), alone when there
   * is one, and as the groups of a recursive resolution otherwise.
   */
  method SeparateStep(candidates: seq<string>, rankings: seq<map<string, int>>,
                      scores: map<string, nat>, notes: map<string, seq<Versus>>,
                      groups: seq<seq<string>>, remaining: seq<string>, tieInfo: map<string, TieNote>)
    returns (groups': seq<seq<string>>, remaining': seq<string>, tieInfo': map<string, TieNote>)
    requires Distinct(candidates) && |candidates| > 2
    requires forall c :: c in candidates ==> c in scores && c in notes
    requires Separating(candidates, scores, groups, remaining) && remaining != []
    requires KeysWithin(tieInfo, candidates)
    ensures Separating(candidates, scores, groups', remaining')
    ensures |remaining'| < |remaining|
    ensures KeysWithin(tieInfo', candidates)
    decreases |candidates|, 0
  {
    InCandidates(candidates, groups, remaining);
    var maxScore := MaxScore(remaining, scores);
    var currentTop := TopOf(remaining, scores, maxScore);
    if |currentTop| == |remaining| {
      tieInfo' := AllNotes(remaining, notes, tieInfo);
      TopOfFull(remaining, scores, maxScore);
      LastStep(candidates, scores, groups, remaining, maxScore);
      return groups + [remaining], [], tieInfo';
    }
    if |currentTop| == 1 {
      var winner := currentTop[0];
      assert winner in currentTop;
      tieInfo' := tieInfo[winner := PairwiseNote(notes[winner])];
      remaining' := RemoveFirst(remaining, winner);
      WinnerStep(candidates, scores, groups, remaining, maxScore, winner, remaining');
      return groups + [[winner]], remaining', tieInfo';
    }
    DistinctSub(remaining, currentTop);
    SmallerTop(candidates, groups, remaining, currentTop);
    var subGroups, subInfo := ResolveTies(currentTop, rankings);
    remaining' := RemoveGroups(remaining, subGroups);
    SubStep(candidates, scores, groups, remaining, currentTop, maxScore, subGroups, remaining');
    groups' := groups + subGroups;
    tieInfo' := tieInfo + subInfo;
  }

  /** Placing all that remains as one group leaves nothing. */
  lemma LastStep(candidates: seq<string>, scores: map<string, nat>, groups: seq<seq<string>>, remaining: seq<string>, m: nat)
    requires Separating(candidates, scores, groups, remaining) && remaining != []
    requires forall x :: x in remaining ==> x in scores && scores[x] == m
    ensures Separating(candidates, scores, groups + [remaining], [])
  {
    AppendGroup(scores, groups, remaining, remaining, []);
    FlattenSnoc(groups, remaining);
    LevelSnoc(scores, groups, remaining);
  }

  /** A group whose couples share one score keeps the groups level. */
  lemma LevelSnoc(scores: map<string, nat>, groups: seq<seq<string>>, g: seq<string>)
    requires ScoresLevel(groups, scores)
    requires forall x, y :: x in g && y in g && x in scores && y in scores ==> scores[x] == scores[y]
    ensures ScoresLevel(groups + [g], scores)
  {
    var all := groups + [g];
    forall i, x, y | 0 <= i < |all| && x in all[i] && y in all[i] && x in scores && y in scores
      ensures scores[x] == scores[y]
    {
      if i < |groups| {
        assert all[i] == groups[i];
      }
    }
  }

  /** Placing the lone top couple keeps the invariant. */
  lemma WinnerStep(candidates: seq<string>, scores: map<string, nat>, groups: seq<seq<string>>,
                   remaining: seq<string>, m: nat, winner: string, rest: seq<string>)
    requires Separating(candidates, scores, groups, remaining)
    requires forall x :: x in remaining ==> x in scores && scores[x] <= m
    requires winner in remaining && scores[winner] == m
    requires rest == RemoveFirst(remaining, winner)
    ensures Separating(candidates, scores, groups + [[winner]], rest)
  {
    assert multiset(rest) == multiset(remaining) - multiset{winner};
    DistinctSub(remaining, rest);
    NonEmptySnoc(groups, [winner]);
    LevelSnoc(scores, groups, [winner]);
    WinnerOrder(scores, groups, remaining, m, winner, rest);
    WinnerCount(candidates, groups, remaining, winner, rest);
  }

  lemma WinnerOrder(scores: map<string, nat>, groups: seq<seq<string>>, remaining: seq<string>, m: nat,
                    winner: string, rest: seq<string>)
    requires ScoresDescend(groups, scores) && ScoresAbove(groups, remaining, scores)
    requires forall x :: x in remaining ==> x in scores && scores[x] <= m
    requires winner in remaining && scores[winner] == m
    requires multiset(rest) <= multiset(remaining)
    ensures ScoresDescend(groups + [[winner]], scores) && ScoresAbove(groups + [[winner]], rest, scores)
  {
    RestRemains(remaining, rest);
    AppendGroup(scores, groups, remaining, [winner], rest);
  }

  lemma WinnerCount(candidates: seq<string>, groups: seq<seq<string>>, remaining: seq<string>,
                    winner: string, rest: seq<string>)
    requires multiset(Flatten(groups)) + multiset(remaining) == multiset(candidates)
    requires winner in remaining && multiset(rest) == multiset(remaining) - multiset{winner}
    ensures multiset(Flatten(groups + [[winner]])) + multiset(rest) == multiset(candidates)
  {
    FlattenSnoc(groups, [winner]);
    assert multiset(Flatten(groups + [[winner]])) == multiset(Flatten(groups)) + multiset{winner};
    assert multiset(remaining) == multiset(rest) + multiset{winner};
  }

  lemma NonEmptySnoc(gs: seq<seq<string>>, g: seq<string>)
    requires NonEmptyGroups(gs) && g != []
    ensures NonEmptyGroups(gs + [g])
  {
  }

  /** Placing the groups of the recursive resolution keeps the invariant. */
  lemma SubStep(candidates: seq<string>, scores: map<string, nat>, groups: seq<seq<string>>,
                remaining: seq<string>, top: seq<string>, m: nat, sub: seq<seq<string>>, rest: seq<string>)
    requires Separating(candidates, scores, groups, remaining)
    requires forall x :: x in remaining ==> x in scores && scores[x] <= m
    requires forall x :: x in top ==> x in remaining && x in scores && scores[x] == m
    requires multiset(top) <= multiset(remaining) && |top| >= 2
    requires multiset(Flatten(sub)) == multiset(top) && NonEmptyGroups(sub)
    requires multiset(rest) == multiset(remaining) - multiset(Flatten(sub))
    ensures Separating(candidates, scores, groups + sub, rest)
    ensures |rest| < |remaining|
  {
    assert multiset(rest) <= multiset(remaining);
    DistinctSub(remaining, rest);
    ExtendGroups(candidates, groups, remaining, top, sub, rest);
    SubOrder(scores, groups, remaining, top, m, sub, rest);
    SubLevel(scores, groups, remaining, top, m, sub);
    NonEmptyConcat(groups, sub);
  }

  /** The groups of the recursive call all lie in the current top, so each is level. */
  lemma SubLevel(scores: map<string, nat>, groups: seq<seq<string>>, remaining: seq<string>,
                 top: seq<string>, m: nat, sub: seq<seq<string>>)
    requires ScoresLevel(groups, scores)
    requires forall x :: x in top ==> x in remaining && x in scores && scores[x] == m
    requires multiset(Flatten(sub)) == multiset(top)
    ensures ScoresLevel(groups + sub, scores)
  {
    SubGroupsAtTop(scores, remaining, top, m, sub);
    var all := groups + sub;
    forall i, x, y | 0 <= i < |all| && x in all[i] && y in all[i] && x in scores && y in scores
      ensures scores[x] == scores[y]
    {
      if i < |groups| {
        assert all[i] == groups[i];
      } else {
        assert all[i] == sub[i - |groups|];
      }
    }
  }

  lemma SubOrder(scores: map<string, nat>, groups: seq<seq<string>>, remaining: seq<string>,
                 top: seq<string>, m: nat, sub: seq<seq<string>>, rest: seq<string>)
    requires ScoresDescend(groups, scores) && ScoresAbove(groups, remaining, scores)
    requires forall x :: x in remaining ==> x in scores && scores[x] <= m
    requires forall x :: x in top ==> x in remaining && x in scores && scores[x] == m
    requires multiset(Flatten(sub)) == multiset(top)
    requires multiset(rest) <= multiset(remaining)
    ensures ScoresDescend(groups + sub, scores) && ScoresAbove(groups + sub, rest, scores)
  {
    RestRemains(remaining, rest);
    SubGroupsAtTop(scores, remaining, top, m, sub);
    ExtendOrder(scores, groups, remaining, m, sub, rest);
  }

  lemma NonEmptyConcat(gs: seq<seq<string>>, hs: seq<seq<string>>)
    requires NonEmptyGroups(gs) && NonEmptyGroups(hs)
    ensures NonEmptyGroups(gs + hs)
  {
  }

  lemma InCandidates(candidates: seq<string>, groups: seq<seq<string>>, remaining: seq<string>)
    requires multiset(Flatten(groups)) + multiset(remaining) == multiset(candidates)
    ensures forall x :: x in remaining ==> x in candidates
  {
    forall x | x in remaining ensures x in candidates {
      assert x in multiset(remaining);
      assert x in multiset(candidates);
    }
  }

  lemma RestRemains(remaining: seq<string>, rest: seq<string>)
    requires multiset(rest) <= multiset(remaining)
    ensures forall y :: y in rest ==> y in remaining
  {
    forall y | y in rest ensures y in remaining {
      assert y in multiset(rest);
    }
  }

  /** The current top is a strictly smaller sub-multiset of the candidates. */
  lemma SmallerTop(candidates: seq<string>, groups: seq<seq<string>>, remaining: seq<string>, top: seq<string>)
    requires multiset(Flatten(groups)) + multiset(remaining) == multiset(candidates)
    requires multiset(top) <= multiset(remaining) && |top| < |remaining|
    ensures |top| < |candidates|
  {
    assert |multiset(remaining)| <= |multiset(candidates)|;
  }

  /** Appending a group taken from `remaining` keeps the loop's invariants. */
  lemma AppendGroup(scores: map<string, nat>, groups: seq<seq<string>>,
                    remaining: seq<string>, g: seq<string>, rest: seq<string>)
    requires ScoresDescend(groups, scores) && ScoresAbove(groups, remaining, scores)
    requires forall x :: x in g ==> x in remaining
    requires forall y :: y in rest ==> y in remaining
    requires forall x, y :: x in g && y in rest && x in scores && y in scores ==> scores[x] >= scores[y]
    ensures ScoresDescend(groups + [g], scores)
    ensures ScoresAbove(groups + [g], rest, scores)
  {
  }

  /** Extending by the groups of the recursive call keeps the partition and shrinks what remains. */
  lemma ExtendGroups(candidates: seq<string>, groups: seq<seq<string>>, remaining: seq<string>,
                     top: seq<string>, sub: seq<seq<string>>, rest: seq<string>)
    requires multiset(Flatten(groups)) + multiset(remaining) == multiset(candidates)
    requires multiset(top) <= multiset(remaining) && |top| >= 2
    requires multiset(Flatten(sub)) == multiset(top)
    requires multiset(rest) == multiset(remaining) - multiset(Flatten(sub))
    ensures multiset(Flatten(groups + sub)) + multiset(rest) == multiset(candidates)
    ensures |rest| < |remaining|
  {
    FlattenConcat(groups, sub);
    assert multiset(remaining) == multiset(rest) + multiset(top);
    assert |multiset(remaining)| == |multiset(rest)| + |multiset(top)|;
  }

  /** Every couple the recursive call placed comes from the current top. */
  lemma SubGroupsAtTop(scores: map<string, nat>, remaining: seq<string>, top: seq<string>, m: nat, sub: seq<seq<string>>)
    requires forall x :: x in top ==> x in remaining && x in scores && scores[x] == m
    requires multiset(Flatten(sub)) == multiset(top)
    ensures forall i, x :: 0 <= i < |sub| && x in sub[i] ==> x in remaining && x in scores && scores[x] == m
  {
    forall i, x | 0 <= i < |sub| && x in sub[i] ensures x in top {
      GroupMember(sub, top, i, x);
    }
  }

  lemma GroupMember(sub: seq<seq<string>>, top: seq<string>, i: nat, x: string)
    requires multiset(Flatten(sub)) == multiset(top)
    requires i < |sub| && x in sub[i]
    ensures x in top
  {
    FlattenMember(sub, i, x);
    assert x in multiset(Flatten(sub));
  }

  /** The ordering half of `ExtendGroups`: the new groups sit at the top of what remained. */
  lemma ExtendOrder(scores: map<string, nat>, groups: seq<seq<string>>, remaining: seq<string>, m: nat,
                    sub: seq<seq<string>>, rest: seq<string>)
    requires ScoresDescend(groups, scores) && ScoresAbove(groups, remaining, scores)
    requires forall x :: x in remaining ==> x in scores && scores[x] <= m
    requires forall i, x :: 0 <= i < |sub| && x in sub[i] ==> x in remaining && x in scores && scores[x] == m
    requires forall y :: y in rest ==> y in remaining
    ensures ScoresDescend(groups + sub, scores)
    ensures ScoresAbove(groups + sub, rest, scores)
  {
    var all := groups + sub;
    forall i, j, x, y | 0 <= i < j < |all| && x in all[i] && y in all[j] && x in scores && y in scores
      ensures scores[x] >= scores[y]
    {
      if j >= |groups| {
        assert y in sub[j - |groups|];
        if i < |groups| {
          assert x in groups[i];
        } else {
          assert x in sub[i - |groups|];
        }
      } else {
        assert x in groups[i] && y in groups[j];
      }
    }
    forall i, x, y | 0 <= i < |all| && x in all[i] && y in rest && x in scores && y in scores
      ensures scores[x] >= scores[y]
    {
      if i >= |groups| {
        assert x in sub[i - |groups|];
      } else {
        assert x in groups[i];
      }
    }
  }

  /** Ordering by the score map is ordering by pairwise score when the map holds those scores. */
  lemma DescendByPairScore(candidates: seq<string>, rankings: seq<map<string, int>>,
                           scores: map<string, nat>, groups: seq<seq<string>>)
    requires forall c :: c in candidates ==> c in scores && scores[c] == PairScore(c, candidates, rankings)
    requires multiset(Flatten(groups)) == multiset(candidates)
    requires ScoresDescend(groups, scores)
    ensures GroupsDescend(groups, candidates, rankings)
  {
    forall i, x | 0 <= i < |groups| && x in groups[i] ensures x in candidates {
      FlattenMember(groups, i, x);
      assert x in multiset(Flatten(groups));
    }
  }

  lemma LevelByPairScore(candidates: seq<string>, rankings: seq<map<string, int>>,
                         scores: map<string, nat>, groups: seq<seq<string>>)
    requires forall c :: c in candidates ==> c in scores && scores[c] == PairScore(c, candidates, rankings)
    requires multiset(Flatten(groups)) == multiset(candidates)
    requires ScoresLevel(groups, scores)
    ensures GroupsLevel(groups, candidates, rankings)
  {
    forall i, x | 0 <= i < |groups| && x in groups[i] ensures x in candidates {
      FlattenMember(groups, i, x);
      assert x in multiset(Flatten(groups));
    }
  }

  lemma {:induction false} FlattenMember(gs: seq<seq<string>>, i: nat, x: string)
    requires i < |gs| && x in gs[i]
    ensures x in Flatten(gs)
    decreases |gs|
  {
    if i < |gs| - 1 {
      assert gs[..|gs| - 1][i] == gs[i];
      FlattenMember(gs[..|gs| - 1], i, x);
    }
  }
}
