/**
 * A stable sort by a strict "goes before" relation, the shape of Python's `sorted(xs, key=k)`
 * (elements whose keys compare equal keep their original order).
 */
module Sorting {

  /** `lt` is a strict weak order: irreflexive, transitive, and incomparability is transitive. */
  ghost predicate StrictWeakOrder<T(!new)>(lt: (T, T) -> bool) {
    && (forall a :: !lt(a, a))
    && (forall a, b, c :: lt(a, b) && lt(b, c) ==> lt(a, c))
    && (forall a, b, c :: lt(a, c) ==> lt(a, b) || lt(b, c))
  }

  /** Any two distinct elements are ordered one way or the other (a strict total order). */
  ghost predicate Connected<T(!new)>(lt: (T, T) -> bool) {
    forall a, b :: a != b ==> lt(a, b) || lt(b, a)
  }

  ghost predicate SortedBy<T>(s: seq<T>, lt: (T, T) -> bool) {
    forall i, j :: 0 <= i < j < |s| ==> !lt(s[j], s[i])
  }

  /** Insert `x` before the first element that does not go strictly before it. */
  function Insert<T>(x: T, s: seq<T>, lt: (T, T) -> bool): (r: seq<T>)
    ensures multiset(r) == multiset(s) + multiset{x}
    ensures |r| == |s| + 1
  {
    if s == [] then [x]
    else if lt(s[0], x) then
      assert s == [s[0]] + s[1..];
      [s[0]] + Insert(x, s[1..], lt)
    else [x] + s
  }

  function Sort<T>(s: seq<T>, lt: (T, T) -> bool): (r: seq<T>)
    ensures multiset(r) == multiset(s)
    ensures |r| == |s|
  {
    if s == [] then []
    else
      assert s == [s[0]] + s[1..];
      Insert(s[0], Sort(s[1..], lt), lt)
  }

  /** Elements none of which goes strictly before another keep their order, as in a stable sort. */
  lemma {:induction false} SortKeepsTies<T>(s: seq<T>, lt: (T, T) -> bool)
    requires forall i, j :: 0 <= i < |s| && 0 <= j < |s| ==> !lt(s[i], s[j])
    ensures Sort(s, lt) == s
  {
    if s != [] {
      assert s == [s[0]] + s[1..];
      SortKeepsTies(s[1..], lt);
      if s[1..] != [] {
        assert !lt(s[1], s[0]);
      }
    }
  }

  lemma {:induction false} InsertSorted<T(!new)>(x: T, s: seq<T>, lt: (T, T) -> bool)
    requires StrictWeakOrder(lt)
    requires SortedBy(s, lt)
    ensures SortedBy(Insert(x, s, lt), lt)
    decreases |s|
  {
    if s != [] {
      if lt(s[0], x) {
        InsertSorted(x, s[1..], lt);
        var r := Insert(x, s[1..], lt);
        forall k | 0 <= k < |r| ensures !lt(r[k], s[0]) {
          assert r[k] in multiset(s[1..]) + multiset{x};
          if r[k] != x {
            assert r[k] in s[1..];
          }
        }
      } else {
        forall k | 0 <= k < |s| ensures !lt(s[k], x) {
          assert !lt(s[k], s[0]) || k == 0;
        }
      }
    }
  }

  lemma {:induction false} SortSorted<T(!new)>(s: seq<T>, lt: (T, T) -> bool)
    requires StrictWeakOrder(lt)
    ensures SortedBy(Sort(s, lt), lt)
    decreases |s|
  {
    if s != [] {
      SortSorted(s[1..], lt);
      InsertSorted(s[0], Sort(s[1..], lt), lt);
    }
  }

  /** Under a strict total order a sorted arrangement of a multiset is unique. */
  lemma {:induction false} SortedUnique<T(!new)>(r: seq<T>, q: seq<T>, lt: (T, T) -> bool)
    requires Connected(lt)
    requires SortedBy(r, lt) && SortedBy(q, lt)
    requires multiset(r) == multiset(q)
    ensures r == q
    decreases |r|
  {
    if r != [] {
      assert |q| == |r| by {
        assert |multiset(q)| == |multiset(r)|;
      }
      assert r[0] in multiset(q);
      assert q[0] in multiset(r);
      HeadsEqual(r, q, lt);
      DropFirst(r);
      DropFirst(q);
      SortedTail(r, lt);
      SortedTail(q, lt);
      SortedUnique(r[1..], q[1..], lt);
      assert r == [r[0]] + r[1..];
      assert q == [q[0]] + q[1..];
    }
  }

  /** Two sorted arrangements of one multiset under a strict total order start alike. */
  lemma HeadsEqual<T(!new)>(r: seq<T>, q: seq<T>, lt: (T, T) -> bool)
    requires Connected(lt)
    requires SortedBy(r, lt) && SortedBy(q, lt)
    requires r != [] && multiset(r) == multiset(q)
    ensures r[0] == q[0]
  {
    assert r[0] in multiset(q);
    assert q != [] && q[0] in multiset(r);
    var k :| 0 <= k < |q| && q[k] == r[0];
    var m :| 0 <= m < |r| && r[m] == q[0];
    assert k == 0 || !lt(q[k], q[0]);
    assert m == 0 || !lt(r[m], r[0]);
  }

  lemma DropFirst<T>(s: seq<T>)
    requires s != []
    ensures multiset(s[1..]) == multiset(s) - multiset{s[0]}
  {
    assert s == [s[0]] + s[1..];
  }

  lemma SortedTail<T>(s: seq<T>, lt: (T, T) -> bool)
    requires s != [] && SortedBy(s, lt)
    ensures SortedBy(s[1..], lt)
  {
    forall i, j | 0 <= i < j < |s| - 1 ensures !lt(s[1..][j], s[1..][i]) {
      assert s[1..][j] == s[j + 1] && s[1..][i] == s[i + 1];
    }
  }

  /** Sorting two permutations of each other under a strict total order gives one result. */
  lemma SortPermutationInvariant<T(!new)>(s: seq<T>, t: seq<T>, lt: (T, T) -> bool)
    requires StrictWeakOrder(lt) && Connected(lt)
    requires multiset(s) == multiset(t)
    ensures Sort(s, lt) == Sort(t, lt)
  {
    SortSorted(s, lt);
    SortSorted(t, lt);
    SortedUnique(Sort(s, lt), Sort(t, lt), lt);
  }

  /** The key of every element, in order (`[key(x) for x in s]`). */
  function Keys<T, K>(s: seq<T>, key: T -> K): (r: seq<K>)
    ensures |r| == |s| && forall k :: 0 <= k < |s| ==> r[k] == key(s[k])
  {
    seq(|s|, k requires 0 <= k < |s| => key(s[k]))
  }

  lemma KeysCons<T, K>(x: T, s: seq<T>, key: T -> K)
    ensures Keys([x] + s, key) == [key(x)] + Keys(s, key)
  {
  }

  lemma {:induction false} InsertKeys<T, K>(x: T, s: seq<T>, lt: (T, T) -> bool, key: T -> K)
    ensures multiset(Keys(Insert(x, s, lt), key)) == multiset(Keys(s, key)) + multiset{key(x)}
    decreases |s|
  {
    if s == [] {
      KeysCons(x, s, key);
    } else if lt(s[0], x) {
      var tail := Insert(x, s[1..], lt);
      InsertKeys(x, s[1..], lt, key);
      KeysCons(s[0], tail, key);
      assert s == [s[0]] + s[1..];
      KeysCons(s[0], s[1..], key);
      assert Insert(x, s, lt) == [s[0]] + tail;
      ConsMultiset(key(s[0]), Keys(tail, key), Keys(s[1..], key), key(x));
    } else {
      KeysCons(x, s, key);
    }
  }

  lemma ConsMultiset<K>(a: K, ks: seq<K>, ks1: seq<K>, kx: K)
    requires multiset(ks) == multiset(ks1) + multiset{kx}
    ensures multiset([a] + ks) == multiset([a] + ks1) + multiset{kx}
  {
  }

  /** Sorting rearranges the keys too. */
  lemma {:induction false} SortKeys<T, K>(s: seq<T>, lt: (T, T) -> bool, key: T -> K)
    ensures multiset(Keys(Sort(s, lt), key)) == multiset(Keys(s, key))
    decreases |s|
  {
    if s != [] {
      SortKeys(s[1..], lt, key);
      InsertKeys(s[0], Sort(s[1..], lt), lt, key);
      assert s == [s[0]] + s[1..];
      KeysCons(s[0], s[1..], key);
    }
  }

  /** A prefix grows by the next element. */
  lemma TakeSnoc<T>(s: seq<T>, i: nat)
    requires i < |s|
    ensures s[..i + 1] == s[..i] + [s[i]]
  {
  }

  /** Removing matching elements from two permutations of each other leaves permutations. */
  lemma MultisetRemove<T>(a: seq<T>, b: seq<T>, k: nat)
    requires a != [] && k < |b| && b[k] == a[0] && multiset(a) == multiset(b)
    ensures multiset(a[1..]) == multiset(b[..k] + b[k + 1..])
  {
    assert b == b[..k] + [b[k]] + b[k + 1..];
    assert a == [a[0]] + a[1..];
    assert multiset(a) == multiset{a[0]} + multiset(a[1..]);
    assert multiset(b) == multiset(b[..k]) + multiset{b[k]} + multiset(b[k + 1..]);
    assert multiset(b[..k] + b[k + 1..]) == multiset(b[..k]) + multiset(b[k + 1..]);
    assert multiset(a[1..]) == multiset(a) - multiset{a[0]};
  }

  /** An element at two positions occurs at least twice. */
  lemma TwiceCounted<T>(s: seq<T>, i: nat, j: nat)
    requires i < j < |s| && s[i] == s[j]
    ensures multiset(s)[s[i]] >= 2
  {
    assert s == s[..j] + s[j..];
    assert s[i] in s[..j];
    assert s[j] in s[j..];
    assert multiset(s) == multiset(s[..j]) + multiset(s[j..]);
  }

  /** An element occurring at least twice sits at two positions. */
  lemma TwoPositions<T>(s: seq<T>, x: T) returns (i: nat, j: nat)
    requires multiset(s)[x] >= 2
    ensures i < j < |s| && s[i] == x && s[j] == x
  {
    assert x in multiset(s);
    var k :| 0 <= k < |s| && s[k] == x;
    var rest := s[..k] + s[k + 1..];
    RemoveAt(s, k);
    assert x in multiset(rest);
    var m :| 0 <= m < |rest| && rest[m] == x;
    if m < k {
      assert rest[m] == s[m];
      i, j := m, k;
    } else {
      assert rest[m] == s[m + 1];
      i, j := k, m + 1;
    }
  }

  /** Removing the element at `k`. */
  lemma RemoveAt<T>(s: seq<T>, k: nat)
    requires k < |s|
    ensures multiset(s[..k] + s[k + 1..]) == multiset(s) - multiset{s[k]}
  {
    assert s == s[..k] + [s[k]] + s[k + 1..];
  }

  /** With pairwise distinct keys no element occurs twice. */
  lemma AtMostOnce<T, K>(a: seq<T>, x: T, key: T -> K)
    requires forall i, j :: 0 <= i < j < |a| ==> key(a[i]) != key(a[j])
    ensures multiset(a)[x] <= 1
  {
    if multiset(a)[x] >= 2 {
      var p, q := TwoPositions(a, x);
      assert false;
    }
  }

  /** Two different elements of a sequence with pairwise distinct keys have different keys. */
  lemma KeysOfDistinct<T, K>(a: seq<T>, x: T, y: T, key: T -> K)
    requires forall i, j :: 0 <= i < j < |a| ==> key(a[i]) != key(a[j])
    requires x in a && y in a && x != y
    ensures key(x) != key(y)
  {
    var p :| 0 <= p < |a| && a[p] == x;
    var q :| 0 <= q < |a| && a[q] == y;
    if p < q {
      assert key(a[p]) != key(a[q]);
    } else {
      assert key(a[q]) != key(a[p]);
    }
  }

  /** Rearranging a sequence whose elements have pairwise distinct keys keeps them distinct. */
  lemma PermutationKeepsDistinct<T, K>(a: seq<T>, b: seq<T>, key: T -> K)
    requires multiset(a) == multiset(b)
    requires forall i, j :: 0 <= i < j < |a| ==> key(a[i]) != key(a[j])
    ensures forall i, j :: 0 <= i < j < |b| ==> key(b[i]) != key(b[j])
  {
    forall i, j | 0 <= i < j < |b| ensures key(b[i]) != key(b[j]) {
      assert b[i] in multiset(a) && b[j] in multiset(a);
      if b[i] == b[j] {
        TwiceCounted(b, i, j);
        AtMostOnce(a, b[i], key);
        assert false;
      } else {
        KeysOfDistinct(a, b[i], b[j], key);
      }
    }
  }
}
