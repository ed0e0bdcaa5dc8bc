/**
 * The Kotlin collection operations the stores rely on, over sequences: `filter`, and the
 * stable sorts `sortedBy` and `sortedByDescending`.
 */
module Sequences {

  /** No element occurs twice. */
  ghost predicate Distinct<T>(s: seq<T>) {
    forall i, j :: 0 <= i < j < |s| ==> s[i] != s[j]
  }

  /** `s.filter(p)`: the elements satisfying `p`, in their order in `s`. */
  function Filter<T>(s: seq<T>, p: T -> bool): (r: seq<T>)
    ensures |r| <= |s|
    ensures forall i :: 0 <= i < |r| ==> r[i] in s && p(r[i])
    ensures forall i :: 0 <= i < |s| && p(s[i]) ==> s[i] in r
  {
    if s == [] then [] else (if p(s[0]) then [s[0]] else []) + Filter(s[1..], p)
  }

  /** `s.filter { it !in ks }` on keys: what a run of removals leaves, in the original order. */
  function Without(s: seq<int>, ks: set<int>): (r: seq<int>)
    ensures forall x :: x in r <==> x in s && x !in ks
    ensures forall i :: 0 <= i < |r| ==> r[i] in s && r[i] !in ks
    ensures Distinct(s) ==> Distinct(r)
    ensures (forall i :: 0 <= i < |s| ==> s[i] !in ks) ==> r == s
  {
    if s == [] then []
    else if s[0] in ks then Without(s[1..], ks)
    else [s[0]] + Without(s[1..], ks)
  }

  /**
   * `idx` lists, in increasing order, every position of `s` whose element satisfies `p`, and `r`
   * holds the elements at those positions.
   */
  ghost predicate PicksAt<T>(r: seq<T>, s: seq<T>, p: T -> bool, idx: seq<int>) {
    && |idx| == |r|
    && (forall k :: 0 <= k < |idx| ==> 0 <= idx[k] < |s| && r[k] == s[idx[k]] && p(r[k]))
    && (forall k, l :: 0 <= k < l < |idx| ==> idx[k] < idx[l])
    && (forall i :: 0 <= i < |s| && p(s[i]) ==> i in idx)
  }

  /** `r` is the elements of `s` satisfying `p`, each as often as in `s` and in the order of `s`. */
  ghost predicate IsFilterOf<T>(r: seq<T>, s: seq<T>, p: T -> bool) {
    exists idx :: PicksAt(r, s, p, idx)
  }

  /** Every position of `idx` moved by `d`. */
  function Shift(idx: seq<int>, d: int): seq<int> {
    seq(|idx|, k requires 0 <= k < |idx| => idx[k] + d)
  }

  /** Positions of `s` satisfying `p` are, moved by one, positions of `[x] + s`. */
  lemma ShiftedCovers<T>(x: T, s: seq<T>, p: T -> bool, r: seq<T>, idx: seq<int>)
    requires PicksAt(r, s, p, idx)
    ensures forall i :: 1 <= i < |s| + 1 && p(([x] + s)[i]) ==> i in Shift(idx, 1)
  {
    var shifted := Shift(idx, 1);
    forall i | 1 <= i < |s| + 1 && p(([x] + s)[i]) ensures i in shifted {
      assert ([x] + s)[i] == s[i - 1];
      var k :| 0 <= k < |idx| && idx[k] == i - 1;
      assert shifted[k] == i;
    }
  }

  /** Putting `x`, which satisfies `p`, in front of `s` puts it in front of the selection. */
  lemma PicksConsKept<T>(x: T, s: seq<T>, p: T -> bool, r: seq<T>, idx: seq<int>)
    requires PicksAt(r, s, p, idx) && p(x)
    ensures PicksAt([x] + r, [x] + s, p, [0] + Shift(idx, 1))
  {
    ShiftedCovers(x, s, p, r, idx);
    var t, r', idx' := [x] + s, [x] + r, [0] + Shift(idx, 1);
    forall k | 1 <= k < |idx'| ensures 0 <= idx'[k] < |t| && r'[k] == t[idx'[k]] && p(r'[k]) {
      assert r'[k] == r[k - 1] && idx'[k] == idx[k - 1] + 1;
      assert t[idx'[k]] == s[idx[k - 1]];
    }
    forall i | 0 <= i < |t| && p(t[i]) ensures i in idx' {
      if i > 0 {
        assert i in Shift(idx, 1);
      }
    }
  }

  /** Putting `x`, which fails `p`, in front of `s` leaves the selection as it is. */
  lemma PicksConsSkipped<T>(x: T, s: seq<T>, p: T -> bool, r: seq<T>, idx: seq<int>)
    requires PicksAt(r, s, p, idx) && !p(x)
    ensures PicksAt(r, [x] + s, p, Shift(idx, 1))
  {
    ShiftedCovers(x, s, p, r, idx);
    var t := [x] + s;
    forall k | 0 <= k < |idx| ensures r[k] == t[Shift(idx, 1)[k]] {
      assert t[idx[k] + 1] == s[idx[k]];
    }
  }

  /** A selection from `[x] + s` with `x` satisfying `p` starts with `x`; the rest is a selection from `s`. */
  lemma PicksUnconsKept<T>(x: T, s: seq<T>, p: T -> bool, r: seq<T>, idx: seq<int>)
    requires PicksAt(r, [x] + s, p, idx) && p(x)
    ensures r != [] && r[0] == x && PicksAt(r[1..], s, p, Shift(idx[1..], -1))
  {
    var t := [x] + s;
    assert t[0] == x;
    assert 0 in idx;
    assert idx[0] == 0;
    var rest := Shift(idx[1..], -1);
    forall k | 0 <= k < |rest| ensures 0 <= rest[k] < |s| && r[1..][k] == s[rest[k]] && p(r[1..][k]) {
      assert idx[0] < idx[k + 1];
      assert t[idx[k + 1]] == s[idx[k + 1] - 1];
    }
    forall i | 0 <= i < |s| && p(s[i]) ensures i in rest {
      assert t[i + 1] == s[i];
      assert i + 1 in idx;
      var k :| 0 <= k < |idx| && idx[k] == i + 1;
      assert rest[k - 1] == i;
    }
  }

  /** A selection from `[x] + s` with `x` failing `p` is, moved back by one, a selection from `s`. */
  lemma PicksUnconsSkipped<T>(x: T, s: seq<T>, p: T -> bool, r: seq<T>, idx: seq<int>)
    requires PicksAt(r, [x] + s, p, idx) && !p(x)
    ensures PicksAt(r, s, p, Shift(idx, -1))
  {
    var t := [x] + s;
    assert forall k :: 0 <= k < |idx| ==> idx[k] != 0;
    var rest := Shift(idx, -1);
    forall k | 0 <= k < |rest| ensures 0 <= rest[k] < |s| && r[k] == s[rest[k]] {
      assert t[idx[k]] == s[idx[k] - 1];
    }
    forall i | 0 <= i < |s| && p(s[i]) ensures i in rest {
      assert t[i + 1] == s[i];
      assert i + 1 in idx;
      var k :| 0 <= k < |idx| && idx[k] == i + 1;
      assert rest[k] == i;
    }
  }

  /** The positions `Filter` keeps. */
  lemma {:induction false} FilterPositions<T>(s: seq<T>, p: T -> bool) returns (idx: seq<int>)
    ensures PicksAt(Filter(s, p), s, p, idx)
  {
    if s == [] {
      idx := [];
    } else {
      var x, t := s[0], s[1..];
      var rest := FilterPositions(t, p);
      var tail := Filter(t, p);
      assert s == [x] + t;
      if p(x) {
        PicksConsKept(x, t, p, tail, rest);
        idx := [0] + Shift(rest, 1);
        assert Filter(s, p) == [x] + tail;
      } else {
        PicksConsSkipped(x, t, p, tail, rest);
        idx := Shift(rest, 1);
        assert Filter(s, p) == tail;
      }
    }
  }

  /** `Filter` keeps the elements satisfying `p` in their order and multiplicity. */
  lemma FilterIsFilterOf<T>(s: seq<T>, p: T -> bool)
    ensures IsFilterOf(Filter(s, p), s, p)
  {
    var idx := FilterPositions(s, p);
  }

  /** A selection of the positions satisfying `p` is the one `Filter` makes. */
  lemma {:induction false} PicksAtIsFilter<T>(r: seq<T>, s: seq<T>, p: T -> bool, idx: seq<int>)
    requires PicksAt(r, s, p, idx)
    ensures r == Filter(s, p)
  {
    assert |idx| > 0 ==> 0 <= idx[0] < |s|;
    if s != [] {
      var x, t := s[0], s[1..];
      assert s == [x] + t;
      if p(x) {
        PicksUnconsKept(x, t, p, r, idx);
        PicksAtIsFilter(r[1..], t, p, Shift(idx[1..], -1));
        assert r == [x] + r[1..];
      } else {
        PicksUnconsSkipped(x, t, p, r, idx);
        PicksAtIsFilter(r, t, p, Shift(idx, -1));
      }
    }
  }

  /** Whatever keeps exactly the elements satisfying `p`, in order, is `Filter`. */
  lemma FilterOfIsUnique<T>(r: seq<T>, s: seq<T>, p: T -> bool)
    requires IsFilterOf(r, s, p)
    ensures r == Filter(s, p)
  {
    var idx :| PicksAt(r, s, p, idx);
    PicksAtIsFilter(r, s, p, idx);
  }

  /** The keys outside `ks`. */
  function Outside(ks: set<int>): int -> bool {
    x => x !in ks
  }

  /** A run of removals keeps the remaining keys in their order: it is a filter. */
  lemma {:induction false} WithoutIsFilter(s: seq<int>, ks: set<int>)
    ensures Without(s, ks) == Filter(s, Outside(ks))
    ensures IsFilterOf(Without(s, ks), s, Outside(ks))
  {
    if s != [] {
      WithoutIsFilter(s[1..], ks);
    }
    FilterIsFilterOf(s, Outside(ks));
  }

  /** Removing `a`, then `b`, is removing both at once. */
  lemma {:induction false} WithoutTwice(s: seq<int>, a: set<int>, b: set<int>)
    ensures Without(Without(s, a), b) == Without(s, a + b)
  {
    if s != [] {
      WithoutTwice(s[1..], a, b);
    }
  }

  /** A sequence without repetitions has as many elements as the set of its elements. */
  lemma {:induction false} DistinctCardinality<T>(s: seq<T>)
    requires Distinct(s)
    ensures |set x | x in s| == |s|
  {
    if s != [] {
      DistinctCardinality(s[1..]);
      assert (set x | x in s) == (set x | x in s[1..]) + {s[0]};
      assert s[0] !in s[1..] by {
        forall i | 0 <= i < |s[1..]| ensures s[1..][i] != s[0] {
          assert s[1..][i] == s[i + 1];
        }
      }
    }
  }

  // ---------------------------------------------------------------------------------------
  // Stable sorting

  /** `s` is in non-decreasing order of `key`. */
  ghost predicate Ascending<T>(s: seq<T>, key: T -> int) {
    forall i, j :: 0 <= i < j < |s| ==> key(s[i]) <= key(s[j])
  }

  /** `s` is in non-increasing order of `key`. */
  ghost predicate Descending<T>(s: seq<T>, key: T -> int) {
    forall i, j :: 0 <= i < j < |s| ==> key(s[i]) >= key(s[j])
  }

  /** The elements of `s` whose key is `k`, in their order in `s`. */
  function KeyRun<T>(s: seq<T>, key: T -> int, k: int): seq<T> {
    if s == [] then [] else (if key(s[0]) == k then [s[0]] else []) + KeyRun(s[1..], key, k)
  }

  /**
   * `r` is what a stable sort of `s` by ascending `key` yields: `r` is ordered, and elements with
   * equal keys keep their relative order (every run of equal keys is the same in `r` and `s`).
   */
  ghost predicate StableSortOf<T>(r: seq<T>, s: seq<T>, key: T -> int) {
    Ascending(r, key) && forall k :: KeyRun(r, key, k) == KeyRun(s, key, k)
  }

  /** The same for a sort by descending `key`. */
  ghost predicate StableSortDescendingOf<T>(r: seq<T>, s: seq<T>, key: T -> int) {
    Descending(r, key) && forall k :: KeyRun(r, key, k) == KeyRun(s, key, k)
  }

  /** Places `x` before the first element of `r` whose key is not smaller. */
  function Insert<T>(x: T, r: seq<T>, key: T -> int): seq<T> {
    if r == [] || key(x) <= key(r[0]) then [x] + r else [r[0]] + Insert(x, r[1..], key)
  }

  /** `s.sortedBy(key)`: insertion sort, which is stable. */
  function SortBy<T>(s: seq<T>, key: T -> int): (r: seq<T>)
    ensures multiset(r) == multiset(s)
  {
    if s == [] then []
    else
      InsertPermutes(s[0], SortBy(s[1..], key), key);
      assert s == [s[0]] + s[1..];
      Insert(s[0], SortBy(s[1..], key), key)
  }

  /** The key that orders by descending `key`. */
  function Negated<T>(key: T -> int): T -> int {
    x => -key(x)
  }

  /** `s.sortedByDescending(key)`: a stable sort on the negated key. */
  function SortByDescending<T>(s: seq<T>, key: T -> int): (r: seq<T>)
    ensures multiset(r) == multiset(s)
  {
    SortBy(s, Negated(key))
  }

  lemma {:induction false} InsertPermutes<T>(x: T, r: seq<T>, key: T -> int)
    ensures multiset(Insert(x, r, key)) == multiset(r) + multiset{x}
  {
    if r != [] && key(x) > key(r[0]) {
      InsertPermutes(x, r[1..], key);
      assert r == [r[0]] + r[1..];
    }
  }

  /** Inserting `x` keeps a lower bound that both `x` and every element of `r` respect. */
  lemma {:induction false} InsertLowerBound<T>(x: T, r: seq<T>, key: T -> int, b: int)
    requires b <= key(x)
    requires forall i :: 0 <= i < |r| ==> b <= key(r[i])
    ensures forall i :: 0 <= i < |Insert(x, r, key)| ==> b <= key(Insert(x, r, key)[i])
  {
    if r == [] || key(x) <= key(r[0]) {
      var t := [x] + r;
      forall i | 0 <= i < |t| ensures b <= key(t[i]) {
        if i > 0 {
          assert t[i] == r[i - 1];
        }
      }
    } else {
      var tail := r[1..];
      assert forall i :: 0 <= i < |tail| ==> tail[i] == r[i + 1];
      InsertLowerBound(x, tail, key, b);
      var t := [r[0]] + Insert(x, tail, key);
      forall i | 0 <= i < |t| ensures b <= key(t[i]) {
        if i > 0 {
          assert t[i] == Insert(x, tail, key)[i - 1];
        }
      }
    }
  }

  lemma {:induction false} InsertKeepsAscending<T>(x: T, r: seq<T>, key: T -> int)
    requires Ascending(r, key)
    ensures Ascending(Insert(x, r, key), key)
  {
    if r != [] && key(x) > key(r[0]) {
      var tail := r[1..];
      assert forall i :: 0 <= i < |tail| ==> tail[i] == r[i + 1];
      assert Ascending(tail, key);
      InsertKeepsAscending(x, tail, key);
      InsertLowerBound(x, tail, key, key(r[0]));
      var t := Insert(x, tail, key);
      forall i, j | 0 <= i < j < |[r[0]] + t| ensures key(([r[0]] + t)[i]) <= key(([r[0]] + t)[j]) {
        assert ([r[0]] + t)[j] == t[j - 1];
        if i > 0 {
          assert ([r[0]] + t)[i] == t[i - 1];
        }
      }
    }
  }

  /** The skipped prefix holds only smaller keys, so `x` joins its run ahead of the rest. */
  lemma {:induction false} InsertKeyRun<T>(x: T, r: seq<T>, key: T -> int, k: int)
    ensures KeyRun(Insert(x, r, key), key, k) == (if key(x) == k then [x] else []) + KeyRun(r, key, k)
  {
    if r == [] || key(x) <= key(r[0]) {
      KeyRunCons(x, r, key, k);
    } else {
      InsertKeyRun(x, r[1..], key, k);
      KeyRunCons(r[0], Insert(x, r[1..], key), key, k);
      KeyRunCons(r[0], r[1..], key, k);
      assert r == [r[0]] + r[1..];
    }
  }

  /** The run of `[y] + t` is `y`'s contribution followed by the run of `t`. */
  lemma KeyRunCons<T>(y: T, t: seq<T>, key: T -> int, k: int)
    ensures KeyRun([y] + t, key, k) == (if key(y) == k then [y] else []) + KeyRun(t, key, k)
  {
    assert ([y] + t)[1..] == t;
  }

  /** `SortBy` is a stable sort and a permutation of its input. */
  lemma {:induction false} SortByIsStableSort<T>(s: seq<T>, key: T -> int)
    ensures StableSortOf(SortBy(s, key), s, key)
    ensures multiset(SortBy(s, key)) == multiset(s)
  {
    if s != [] {
      SortByIsStableSort(s[1..], key);
      InsertKeepsAscending(s[0], SortBy(s[1..], key), key);
      InsertPermutes(s[0], SortBy(s[1..], key), key);
      assert s == [s[0]] + s[1..];
      forall k ensures KeyRun(SortBy(s, key), key, k) == KeyRun(s, key, k) {
        InsertKeyRun(s[0], SortBy(s[1..], key), key, k);
      }
    }
  }

  lemma {:induction false} KeyRunNegated<T>(s: seq<T>, key: T -> int, k: int)
    ensures KeyRun(s, Negated(key), -k) == KeyRun(s, key, k)
  {
    if s != [] {
      KeyRunNegated(s[1..], key, k);
    }
  }

  /** `SortByDescending` is a stable sort by descending key and a permutation of its input. */
  lemma SortByDescendingIsStableSort<T>(s: seq<T>, key: T -> int)
    ensures StableSortDescendingOf(SortByDescending(s, key), s, key)
    ensures multiset(SortByDescending(s, key)) == multiset(s)
  {
    var r := SortByDescending(s, key);
    SortByIsStableSort(s, Negated(key));
    forall k ensures KeyRun(r, key, k) == KeyRun(s, key, k) {
      KeyRunNegated(r, key, k);
      KeyRunNegated(s, key, k);
    }
  }

  lemma KeyRunOfFirst<T>(s: seq<T>, key: T -> int)
    requires s != []
    ensures KeyRun(s, key, key(s[0])) != []
  {
  }

  /** Two ordered sequences with the same run for every key are equal. */
  lemma {:induction false} SameRunsSame<T>(r1: seq<T>, r2: seq<T>, key: T -> int)
    requires Ascending(r1, key) && Ascending(r2, key)
    requires forall k :: KeyRun(r1, key, k) == KeyRun(r2, key, k)
    ensures r1 == r2
  {
    if r1 == [] {
      if r2 != [] {
        KeyRunOfFirst(r2, key);
        assert false;
      }
    } else if r2 == [] {
      KeyRunOfFirst(r1, key);
      assert false;
    } else {
      var k1, k2 := key(r1[0]), key(r2[0]);
      assert KeyRun(r1, key, k1) != [] && KeyRun(r2, key, k2) != [];
      KeyRunHasKey(r2, key, k1);
      KeyRunHasKey(r1, key, k2);
      assert k1 == k2;
      assert KeyRun(r1, key, k1)[0] == r1[0] && KeyRun(r2, key, k1)[0] == r2[0];
      assert r1[0] == r2[0];
      forall k ensures KeyRun(r1[1..], key, k) == KeyRun(r2[1..], key, k) {
        var a, b := KeyRun(r1, key, k), KeyRun(r2, key, k);
        assert a == b;
        assert a == (if k1 == k then [r1[0]] else []) + KeyRun(r1[1..], key, k);
        assert b == (if k1 == k then [r2[0]] else []) + KeyRun(r2[1..], key, k);
        if k == k1 {
          assert a[1..] == KeyRun(r1[1..], key, k);
          assert b[1..] == KeyRun(r2[1..], key, k);
        } else {
          assert a == KeyRun(r1[1..], key, k);
        }
      }
      assert Ascending(r1[1..], key) && Ascending(r2[1..], key) by {
        forall i, j | 0 <= i < j < |r1[1..]| ensures key(r1[1..][i]) <= key(r1[1..][j]) {
          assert r1[1..][i] == r1[i + 1] && r1[1..][j] == r1[j + 1];
        }
        forall i, j | 0 <= i < j < |r2[1..]| ensures key(r2[1..][i]) <= key(r2[1..][j]) {
          assert r2[1..][i] == r2[i + 1] && r2[1..][j] == r2[j + 1];
        }
      }
      SameRunsSame(r1[1..], r2[1..], key);
      assert r1 == [r1[0]] + r1[1..] && r2 == [r2[0]] + r2[1..];
    }
  }

  /** A nonempty run in an ascending sequence means every element before it has a smaller or equal key. */
  lemma {:induction false} KeyRunHasKey<T>(s: seq<T>, key: T -> int, k: int)
    requires Ascending(s, key) && s != []
    requires KeyRun(s, key, k) != []
    ensures key(s[0]) <= k
  {
    if key(s[0]) != k {
      assert KeyRun(s[1..], key, k) != [];
      assert s[1..] != [];
      assert Ascending(s[1..], key) by {
        forall i, j | 0 <= i < j < |s[1..]| ensures key(s[1..][i]) <= key(s[1..][j]) {
          assert s[1..][i] == s[i + 1] && s[1..][j] == s[j + 1];
        }
      }
      KeyRunHasKey(s[1..], key, k);
      assert s[1..][0] == s[1];
    }
  }

  /**
   * A stable sort has exactly one possible outcome, so `SortBy` is Kotlin's `sortedBy`
   * whatever algorithm the library uses.
   */
  lemma StableSortIsUnique<T>(r: seq<T>, s: seq<T>, key: T -> int)
    requires StableSortOf(r, s, key)
    ensures r == SortBy(s, key)
  {
    SortByIsStableSort(s, key);
    SameRunsSame(r, SortBy(s, key), key);
  }

  /** The same for `sortedByDescending`. */
  lemma StableSortDescendingIsUnique<T>(r: seq<T>, s: seq<T>, key: T -> int)
    requires StableSortDescendingOf(r, s, key)
    ensures r == SortByDescending(s, key)
  {
    var neg := Negated(key);
    SortByIsStableSort(s, neg);
    var sorted := SortBy(s, neg);
    assert Ascending(r, neg) by {
      forall i, j | 0 <= i < j < |r| ensures neg(r[i]) <= neg(r[j]) {
      }
    }
    forall k ensures KeyRun(r, neg, k) == KeyRun(sorted, neg, k) {
      KeyRunNegated(r, key, -k);
      KeyRunNegated(s, key, -k);
    }
    SameRunsSame(r, sorted, neg);
  }

  /** In a list sorted newest first, whatever its first `n` leave out is no newer than any of them. */
  lemma {:induction false} PrefixOfDescendingIsGreatest<T>(s: seq<T>, key: T -> int, n: int, x: T)
    requires Descending(s, key) && 0 <= n <= |s|
    requires x in s && x !in s[..n]
    ensures forall j :: 0 <= j < n ==> key(x) <= key(s[j])
  {
    var i :| 0 <= i < |s| && s[i] == x;
    assert n <= i;
  }
}
