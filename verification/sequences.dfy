/** Sequence vocabulary shared by the model: order-preserving sub-sequences,
    filtering, first-match lookup in an association list, and sorting into a
    duplicate-free ascending sequence under a strict total order. */
module Sequences {
  import opened Wrappers

  /** No element occurs twice. */
  ghost predicate Distinct<T>(s: seq<T>) {
    forall i, j :: 0 <= i < j < |s| ==> s[i] != s[j]
  }

  /** `a` occurs inside `b` in the same order, possibly with gaps (matched
      greedily from the back). */
  predicate Subseq<T(==)>(a: seq<T>, b: seq<T>)
    decreases |b|
  {
    if |a| == 0 then true
    else if |b| == 0 then false
    else if a[|a| - 1] == b[|b| - 1] then Subseq(a[..|a| - 1], b[..|b| - 1])
    else Subseq(a, b[..|b| - 1])
  }

  /** Appending to the longer sequence keeps a sub-sequence a sub-sequence. */
  lemma {:induction false} SubseqExtend<T>(a: seq<T>, b: seq<T>, x: T)
    requires Subseq(a, b)
    ensures Subseq(a, b + [x])
    decreases |b|, 1
  {
    var b' := b + [x];
    assert b'[..|b'| - 1] == b;
    if |a| > 0 && a[|a| - 1] == x {
      SubseqDropLast(a, b);
    }
  }

  /** Dropping the last element of the shorter sequence keeps a sub-sequence a
      sub-sequence. */
  lemma {:induction false} SubseqDropLast<T>(a: seq<T>, b: seq<T>)
    requires Subseq(a, b) && |a| > 0
    ensures Subseq(a[..|a| - 1], b)
    decreases |b|, 0
  {
    var a' := a[..|a| - 1];
    var bp := b[..|b| - 1];
    assert b == bp + [b[|b| - 1]];
    if a[|a| - 1] == b[|b| - 1] {
      SubseqExtend(a', bp, b[|b| - 1]);
    } else {
      SubseqDropLast(a, bp);
      SubseqExtend(a', bp, b[|b| - 1]);
    }
  }

  /** Appending the same element to both sides keeps a sub-sequence a
      sub-sequence. */
  lemma SubseqAppendBoth<T>(a: seq<T>, b: seq<T>, x: T)
    requires Subseq(a, b)
    ensures Subseq(a + [x], b + [x])
  {
    assert (a + [x])[..|a|] == a;
    assert (b + [x])[..|b|] == b;
  }

  /** The elements of `s` satisfying `p`, in their original order. */
  function Filter<T(!new)>(s: seq<T>, p: T -> bool): (r: seq<T>)
    ensures forall x :: x in r <==> x in s && p(x)
    ensures |r| <= |s|
    decreases |s|
  {
    if |s| == 0 then []
    else
      var last := s[|s| - 1];
      assert s == s[..|s| - 1] + [last];
      Filter(s[..|s| - 1], p) + (if p(last) then [last] else [])
  }

  /** Filtering keeps each wanted element as often as it occurs, and drops
      every other one. */
  lemma {:induction false} FilterCount<T(!new)>(s: seq<T>, p: T -> bool)
    ensures forall x :: multiset(Filter(s, p))[x] == if p(x) then multiset(s)[x] else 0
    decreases |s|
  {
    if |s| > 0 {
      var init, last := s[..|s| - 1], s[|s| - 1];
      assert s == init + [last];
      FilterCount(init, p);
      assert multiset(s) == multiset(init) + multiset{last};
      assert Filter(s, p) == Filter(init, p) + (if p(last) then [last] else []);
    }
  }

  lemma {:induction false} FilterSubseq<T(!new)>(s: seq<T>, p: T -> bool)
    ensures Subseq(Filter(s, p), s)
    decreases |s|
  {
    if |s| > 0 {
      var init := s[..|s| - 1];
      var last := s[|s| - 1];
      assert s == init + [last];
      FilterSubseq(init, p);
      if p(last) {
        assert Filter(s, p) == Filter(init, p) + [last];
        SubseqAppendBoth(Filter(init, p), init, last);
      } else {
        assert Filter(s, p) == Filter(init, p);
        SubseqExtend(Filter(init, p), init, last);
      }
    }
  }

  /** Elements whose keys under `key` are pairwise different. */
  ghost predicate DistinctBy<T, K>(s: seq<T>, key: T -> K) {
    forall i, j :: 0 <= i < j < |s| ==> key(s[i]) != key(s[j])
  }

  lemma {:induction false} FilterDistinctBy<T(!new), K>(s: seq<T>, p: T -> bool, key: T -> K)
    requires DistinctBy(s, key)
    ensures DistinctBy(Filter(s, p), key)
    decreases |s|
  {
    if |s| > 0 {
      var init := s[..|s| - 1];
      var last := s[|s| - 1];
      assert s == init + [last];
      assert DistinctBy(init, key);
      FilterDistinctBy(init, p, key);
      var f := Filter(init, p);
      if p(last) {
        forall i | 0 <= i < |f|
          ensures key(f[i]) != key(last)
        {
          assert f[i] in init;
          var k :| 0 <= k < |init| && init[k] == f[i];
          assert s[k] == f[i] && s[|s| - 1] == last;
        }
      }
    }
  }

  /** A duplicate-free sequence has as many distinct elements as entries. */
  lemma {:induction false} DistinctCard<T>(s: seq<T>)
    requires Distinct(s)
    ensures |set x | x in s| == |s|
    decreases |s|
  {
    if |s| > 0 {
      var init := s[..|s| - 1];
      var last := s[|s| - 1];
      assert s == init + [last];
      assert Distinct(init);
      DistinctCard(init);
      assert last !in init;
      assert (set x | x in s) == (set x | x in init) + {last};
    }
  }

  /** `Lookup(d, k)` is the value paired with the first occurrence of `k` in
      the association list `d`. On a list without repeated keys this is how a
      Python dict answers `get`; a dict literal that repeated a key would keep
      its last value instead, and the tables of this model repeat none. */
  function Lookup<K(==), V>(d: seq<(K, V)>, k: K): (r: Option<V>)
    ensures r.None? <==> forall i :: 0 <= i < |d| ==> d[i].0 != k
    ensures r.Some? ==> exists i :: 0 <= i < |d| && d[i] == (k, r.value)
                                    && forall j :: 0 <= j < i ==> d[j].0 != k
    decreases |d|
  {
    if |d| == 0 then None
    else if d[0].0 == k then Some(d[0].1)
    else
      var r := Lookup(d[1..], k);
      assert forall i :: 1 <= i < |d| ==> d[i] == d[1..][i - 1];
      r
  }

  /** The entry at `i` answers the lookup when no earlier entry has its key. */
  lemma LookupAt<K, V>(d: seq<(K, V)>, i: int)
    requires 0 <= i < |d| && forall j :: 0 <= j < i ==> d[j].0 != d[i].0
    ensures Lookup(d, d[i].0) == Some(d[i].1)
  {
    var r := Lookup(d, d[i].0);
    var i' :| 0 <= i' < |d| && d[i'] == (d[i].0, r.value) && forall j :: 0 <= j < i' ==> d[j].0 != d[i].0;
    assert i' == i;
  }

  /** The keys of an association list, in order. */
  function Keys<K, V>(d: seq<(K, V)>): (ks: seq<K>)
    ensures |ks| == |d|
    ensures forall i :: 0 <= i < |d| ==> ks[i] == d[i].0
  {
    seq(|d|, i requires 0 <= i < |d| => d[i].0)
  }

  /** With the same keys at the same places, and the entries for `k`
      unchanged, a lookup of `k` gives the same answer. */
  lemma LookupSameKeys<K, V>(d: seq<(K, V)>, r: seq<(K, V)>, k: K)
    requires |r| == |d| && forall i :: 0 <= i < |d| ==> r[i].0 == d[i].0
    requires forall i :: 0 <= i < |d| && d[i].0 == k ==> r[i] == d[i]
    ensures Lookup(r, k) == Lookup(d, k)
  {
    if Lookup(d, k).Some? {
      var i :| 0 <= i < |d| && d[i] == (k, Lookup(d, k).value) && forall j :: 0 <= j < i ==> d[j].0 != k;
      LookupAt(r, i);
    }
  }

  /** Replacing every entry for a present key `k` by `(k, v)` makes `v` the
      answer for `k`. */
  lemma LookupReplaced<K, V>(d: seq<(K, V)>, r: seq<(K, V)>, k: K, v: V)
    requires k in Keys(d)
    requires |r| == |d| && forall i :: 0 <= i < |d| ==> r[i] == if d[i].0 == k then (k, v) else d[i]
    ensures Lookup(r, k) == Some(v)
  {
    assert Lookup(d, k).Some? by {
      var i :| 0 <= i < |d| && Keys(d)[i] == k;
    }
    var i :| 0 <= i < |d| && d[i] == (k, Lookup(d, k).value) && forall j :: 0 <= j < i ==> d[j].0 != k;
    LookupAt(r, i);
  }

  /** Appending an entry for another key does not change a lookup. */
  lemma LookupAppend<K, V>(d: seq<(K, V)>, k: K, v: V, k': K)
    requires k' != k
    ensures Lookup(d + [(k, v)], k') == Lookup(d, k')
  {
    var r := d + [(k, v)];
    if Lookup(d, k').Some? {
      var i :| 0 <= i < |d| && d[i] == (k', Lookup(d, k').value) && forall j :: 0 <= j < i ==> d[j].0 != k';
      assert r[i] == d[i];
      LookupAt(r, i);
    } else {
      assert forall i :: 0 <= i < |r| ==> r[i].0 != k' by {
        forall i | 0 <= i < |r|
          ensures r[i].0 != k'
        {
          if i < |d| {
            assert r[i] == d[i];
          }
        }
      }
    }
  }

  /** Python's `d[k] = v` on a dict held as its entries in insertion order: a
      key already present keeps its place and takes the new value, a new key
      goes last. */
  function Put<K(==), V>(d: seq<(K, V)>, k: K, v: V): seq<(K, V)> {
    if k in Keys(d) then seq(|d|, i requires 0 <= i < |d| => if d[i].0 == k then (k, v) else d[i])
    else d + [(k, v)]
  }

  /** The laws of dict assignment: afterwards `k` answers `v`, every other key
      answers as before, and the keys are the old ones, with `k` added last
      when it is new. */
  lemma PutLaws<K(!new), V>(d: seq<(K, V)>, k: K, v: V)
    ensures var r := Put(d, k, v);
            && Keys(r) == (if k in Keys(d) then Keys(d) else Keys(d) + [k])
            && Lookup(r, k) == Some(v)
            && forall k' :: k' != k ==> Lookup(r, k') == Lookup(d, k')
  {
    var r := Put(d, k, v);
    if k in Keys(d) {
      LookupReplaced(d, r, k, v);
      forall k' | k' != k
        ensures Lookup(r, k') == Lookup(d, k')
      {
        LookupSameKeys(d, r, k');
      }
    } else {
      assert forall j :: 0 <= j < |d| ==> r[j].0 != k by {
        forall j | 0 <= j < |d|
          ensures r[j].0 != k
        {
          assert Keys(d)[j] == d[j].0;
        }
      }
      LookupAt(r, |d|);
      forall k' | k' != k
        ensures Lookup(r, k') == Lookup(d, k')
      {
        LookupAppend(d, k, v, k');
      }
    }
  }

  /** The dict built from `pairs` by assigning them in order, as a Python dict
      comprehension builds it. */
  function FromPairs<K(==), V>(pairs: seq<(K, V)>): (d: seq<(K, V)>)
    ensures |d| <= |pairs|
    ensures d == [] <==> pairs == []
    decreases |pairs|
  {
    if |pairs| == 0 then []
    else
      var last := pairs[|pairs| - 1];
      Put(FromPairs(pairs[..|pairs| - 1]), last.0, last.1)
  }

  /** The dict has exactly the keys of the pairs. */
  lemma {:induction false} FromPairsKeys<K, V>(pairs: seq<(K, V)>)
    ensures forall x :: x in Keys(FromPairs(pairs)) <==> x in Keys(pairs)
    decreases |pairs|
  {
    if |pairs| > 0 {
      var init, last := pairs[..|pairs| - 1], pairs[|pairs| - 1];
      FromPairsKeys(init);
      var d := FromPairs(init);
      var r := FromPairs(pairs);
      forall x
        ensures x in Keys(r) <==> x in Keys(d) || x == last.0
      {
        if x in Keys(r) {
          var i :| 0 <= i < |r| && Keys(r)[i] == x;
          if i < |d| {
            assert Keys(d)[i] == d[i].0;
          }
        }
        if x in Keys(d) {
          var i :| 0 <= i < |d| && Keys(d)[i] == x;
          assert Keys(r)[i] == r[i].0;
        }
        if x == last.0 {
          if last.0 in Keys(d) {
            var i :| 0 <= i < |d| && Keys(d)[i] == x;
            assert Keys(r)[i] == r[i].0;
          } else {
            assert Keys(r)[|d|] == x;
          }
        }
      }
      forall x
        ensures x in Keys(pairs) <==> x in Keys(init) || x == last.0
      {
        if x in Keys(pairs) {
          var i :| 0 <= i < |pairs| && Keys(pairs)[i] == x;
          if i < |init| {
            assert Keys(init)[i] == x;
          }
        }
        if x in Keys(init) {
          var i :| 0 <= i < |init| && Keys(init)[i] == x;
          assert Keys(pairs)[i] == x;
        }
        if x == last.0 {
          assert Keys(pairs)[|pairs| - 1] == x;
        }
      }
    }
  }

  /** The dict never holds a key twice. */
  lemma {:induction false} FromPairsDistinct<K, V>(pairs: seq<(K, V)>)
    ensures Distinct(Keys(FromPairs(pairs)))
    decreases |pairs|
  {
    if |pairs| > 0 {
      var init, last := pairs[..|pairs| - 1], pairs[|pairs| - 1];
      FromPairsDistinct(init);
      var d := FromPairs(init);
      var r := FromPairs(pairs);
      if last.0 !in Keys(d) {
        forall i, j | 0 <= i < j < |r|
          ensures Keys(r)[i] != Keys(r)[j]
        {
          assert Keys(d)[i] == d[i].0;
          if j < |d| {
            assert Keys(d)[j] == d[j].0;
          }
        }
      } else {
        forall i, j | 0 <= i < j < |r|
          ensures Keys(r)[i] != Keys(r)[j]
        {
          assert Keys(d)[i] == d[i].0 && Keys(d)[j] == d[j].0;
        }
      }
    }
  }

  /** Each entry of the dict is the last pair with its key. */
  lemma {:induction false} FromPairsLast<K, V>(pairs: seq<(K, V)>, i: int)
    requires 0 <= i < |FromPairs(pairs)|
    ensures exists j :: 0 <= j < |pairs| && pairs[j] == FromPairs(pairs)[i]
                        && forall j' :: j < j' < |pairs| ==> pairs[j'].0 != pairs[j].0
    decreases |pairs|
  {
    var init, last := pairs[..|pairs| - 1], pairs[|pairs| - 1];
    var d := FromPairs(init);
    var r := FromPairs(pairs);
    assert r == Put(d, last.0, last.1);
    if i < |d| && d[i].0 != last.0 {
      assert r[i] == d[i];
      FromPairsLast(init, i);
      var j :| 0 <= j < |init| && init[j] == d[i] && forall j' :: j < j' < |init| ==> init[j'].0 != init[j].0;
      assert pairs[j] == r[i];
      assert forall j' :: j < j' < |pairs| ==> pairs[j'].0 != pairs[j].0 by {
        forall j' | j < j' < |pairs|
          ensures pairs[j'].0 != pairs[j].0
        {
          if j' < |init| {
            assert pairs[j'] == init[j'];
          }
        }
      }
    } else {
      if last.0 in Keys(d) {
        assert d[i].0 == last.0;
      }
      assert r[i] == last == pairs[|pairs| - 1];
    }
  }

  /** Pairs with pairwise different keys make a dict of exactly those pairs. */
  lemma {:induction false} FromPairsIdentity<K, V>(pairs: seq<(K, V)>)
    requires Distinct(Keys(pairs))
    ensures FromPairs(pairs) == pairs
    decreases |pairs|
  {
    if |pairs| > 0 {
      var init, last := pairs[..|pairs| - 1], pairs[|pairs| - 1];
      assert Distinct(Keys(init)) by {
        forall i, j | 0 <= i < j < |init|
          ensures Keys(init)[i] != Keys(init)[j]
        {
          assert Keys(pairs)[i] == Keys(init)[i] && Keys(pairs)[j] == Keys(init)[j];
        }
      }
      FromPairsIdentity(init);
      assert last.0 !in Keys(init) by {
        forall i | 0 <= i < |init|
          ensures Keys(init)[i] != last.0
        {
          assert Keys(pairs)[i] == Keys(init)[i] && Keys(pairs)[|pairs| - 1] == last.0;
        }
      }
      assert pairs == init + [last];
    }
  }

  /** `less` is irreflexive, transitive and total on distinct values. */
  ghost predicate StrictTotalOrder<T(!new)>(less: (T, T) -> bool) {
    && (forall x :: !less(x, x))
    && (forall x, y, z :: less(x, y) && less(y, z) ==> less(x, z))
    && (forall x, y :: x != y ==> less(x, y) || less(y, x))
  }

  ghost predicate StrictlySorted<T>(s: seq<T>, less: (T, T) -> bool) {
    forall i, j :: 0 <= i < j < |s| ==> less(s[i], s[j])
  }

  lemma StrictlySortedDistinct<T(!new)>(s: seq<T>, less: (T, T) -> bool)
    requires StrictTotalOrder(less) && StrictlySorted(s, less)
    ensures Distinct(s)
  {
  }

  /** Inserts `x` in front of the first larger element, unless it is present. */
  function InsertSorted<T(==,!new)>(s: seq<T>, x: T, less: (T, T) -> bool): (r: seq<T>)
    ensures forall y :: y in r <==> y in s || y == x
    decreases |s|
  {
    if |s| == 0 then [x]
    else if s[0] == x then s
    else if less(x, s[0]) then [x] + s
    else
      var rest := InsertSorted(s[1..], x, less);
      assert forall y :: y in s <==> y == s[0] || y in s[1..];
      [s[0]] + rest
  }

  lemma {:induction false} InsertSortedSorted<T(!new)>(s: seq<T>, x: T, less: (T, T) -> bool)
    requires StrictTotalOrder(less) && StrictlySorted(s, less)
    ensures StrictlySorted(InsertSorted(s, x, less), less)
    decreases |s|
  {
    if |s| > 0 && s[0] != x && !less(x, s[0]) {
      var rest := InsertSorted(s[1..], x, less);
      InsertSortedSorted(s[1..], x, less);
      assert less(s[0], x);
      forall y | y in rest
        ensures less(s[0], y)
      {
        if y != x {
          var k :| 0 <= k < |s[1..]| && s[1..][k] == y;
          assert s[k + 1] == y;
        }
      }
      var r := [s[0]] + rest;
      forall i, j | 0 <= i < j < |r|
        ensures less(r[i], r[j])
      {
        if i == 0 {
          assert r[j] == rest[j - 1];
          assert rest[j - 1] in rest;
        } else {
          assert r[i] == rest[i - 1] && r[j] == rest[j - 1];
        }
      }
    }
  }

  /** Python's `sorted(set(xs))`: each element of `xs` once, ascending. */
  function SortDistinct<T(==,!new)>(xs: seq<T>, less: (T, T) -> bool): (r: seq<T>)
    ensures forall y :: y in r <==> y in xs
    decreases |xs|
  {
    if |xs| == 0 then []
    else
      var init := xs[..|xs| - 1];
      assert xs == init + [xs[|xs| - 1]];
      InsertSorted(SortDistinct(init, less), xs[|xs| - 1], less)
  }

  lemma {:induction false} SortDistinctSorted<T(!new)>(xs: seq<T>, less: (T, T) -> bool)
    requires StrictTotalOrder(less)
    ensures StrictlySorted(SortDistinct(xs, less), less)
    decreases |xs|
  {
    if |xs| > 0 {
      var init := xs[..|xs| - 1];
      SortDistinctSorted(init, less);
      InsertSortedSorted(SortDistinct(init, less), xs[|xs| - 1], less);
    }
  }
}
