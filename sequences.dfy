/**
 * The array operations the application builds on: `Array.prototype.filter`, and the
 * de-duplicated list `Array.from(new Set(xs))`, whose order is that of first insertion.
 */
module Sequences {

  /** The elements of `xs` that satisfy `p`, in their original order (`xs.filter(p)`). */
  function Filter<T(!new)>(xs: seq<T>, p: T -> bool): (r: seq<T>)
    ensures |r| <= |xs|
    ensures forall i :: 0 <= i < |r| ==> p(r[i])
    ensures forall x :: x in r <==> x in xs && p(x)
    ensures (forall i :: 0 <= i < |xs| ==> p(xs[i])) ==> r == xs
  {
    if xs == [] then []
    else (if p(xs[0]) then [xs[0]] else []) + Filter(xs[1..], p)
  }

  /** `r` is obtained from `xs` by deleting some elements and keeping the rest in order. */
  predicate IsSubsequence<T(==,!new)>(r: seq<T>, xs: seq<T>)
    decreases |xs|
  {
    if r == [] then true
    else if xs == [] then false
    else (r[0] == xs[0] && IsSubsequence(r[1..], xs[1..])) || IsSubsequence(r, xs[1..])
  }

  /** Filtering never reorders: the result is a subsequence of the input. */
  lemma {:induction false} FilterIsSubsequence<T(!new)>(xs: seq<T>, p: T -> bool)
    ensures IsSubsequence(Filter(xs, p), xs)
  {
    if xs != [] {
      FilterIsSubsequence(xs[1..], p);
      var r := Filter(xs, p);
      if p(xs[0]) {
        assert r[0] == xs[0] && r[1..] == Filter(xs[1..], p);
      } else {
        assert r == Filter(xs[1..], p);
      }
    }
  }

  /** Filtering keeps values whose keys differ pairwise with keys that differ pairwise. */
  lemma {:induction false} FilterKeepsDistinctKeys<T(!new), K>(xs: seq<T>, p: T -> bool, key: T -> K)
    requires forall i, j :: 0 <= i < j < |xs| ==> key(xs[i]) != key(xs[j])
    ensures forall i, j :: 0 <= i < j < |Filter(xs, p)| ==> key(Filter(xs, p)[i]) != key(Filter(xs, p)[j])
  {
    if xs != [] {
      var tail := xs[1..];
      FilterKeepsDistinctKeys(tail, p, key);
      var r, rt := Filter(xs, p), Filter(tail, p);
      if p(xs[0]) {
        assert r == [xs[0]] + rt;
        forall i, j | 0 <= i < j < |r| ensures key(r[i]) != key(r[j]) {
          assert r[j] == rt[j - 1];
          if i == 0 {
            assert rt[j - 1] in tail;
            var k :| 0 <= k < |tail| && tail[k] == rt[j - 1];
            assert xs[k + 1] == r[j];
          } else {
            assert r[i] == rt[i - 1];
          }
        }
      } else {
        assert r == rt;
      }
    }
  }

  /** Some element of `xs` has the key `k`. */
  predicate HasKey<T(!new), K(==)>(xs: seq<T>, key: T -> K, k: K) {
    exists i :: 0 <= i < |xs| && key(xs[i]) == k
  }

  /**
   * Filtering out the key `k` from a sequence whose keys differ pairwise drops one element
   * when some element has that key, and none otherwise.
   */
  lemma {:induction false} FilterDropsKey<T(!new), K>(xs: seq<T>, p: T -> bool, key: T -> K, k: K)
    requires forall i, j :: 0 <= i < j < |xs| ==> key(xs[i]) != key(xs[j])
    requires forall x :: p(x) <==> key(x) != k
    ensures |Filter(xs, p)| == if HasKey(xs, key, k) then |xs| - 1 else |xs|
  {
    if xs != [] {
      var tail := xs[1..];
      assert forall i, j :: 0 <= i < j < |tail| ==> key(tail[i]) != key(tail[j]) by {
        forall i, j | 0 <= i < j < |tail| ensures key(tail[i]) != key(tail[j]) {
          assert tail[i] == xs[i + 1] && tail[j] == xs[j + 1];
        }
      }
      FilterDropsKey(tail, p, key, k);
      assert Filter(xs, p) == (if p(xs[0]) then [xs[0]] else []) + Filter(tail, p);
      if key(xs[0]) == k {
        assert HasKey(xs, key, k);
        assert !HasKey(tail, key, k) by {
          forall i | 0 <= i < |tail| ensures key(tail[i]) != k {
            assert tail[i] == xs[i + 1];
          }
        }
      } else {
        assert HasKey(xs, key, k) == HasKey(tail, key, k) by {
          if HasKey(xs, key, k) {
            var i :| 0 <= i < |xs| && key(xs[i]) == k;
            assert tail[i - 1] == xs[i];
          }
          if HasKey(tail, key, k) {
            var i :| 0 <= i < |tail| && key(tail[i]) == k;
            assert xs[i + 1] == tail[i];
          }
        }
      }
    }
  }

  /** Filtering keeps every copy of a value that satisfies `p` and no copy of one that does not. */
  lemma {:induction false} FilterMultiset<T(!new)>(xs: seq<T>, p: T -> bool)
    ensures forall x :: multiset(Filter(xs, p))[x] == if p(x) then multiset(xs)[x] else 0
  {
    if xs != [] {
      FilterMultiset(xs[1..], p);
      assert xs == [xs[0]] + xs[1..];
      assert multiset(xs) == multiset{xs[0]} + multiset(xs[1..]);
      assert Filter(xs, p) == (if p(xs[0]) then [xs[0]] else []) + Filter(xs[1..], p);
    }
  }

  /** Filtering twice with the same predicate is filtering once. */
  lemma FilterIdempotent<T(!new)>(xs: seq<T>, p: T -> bool)
    ensures Filter(Filter(xs, p), p) == Filter(xs, p)
  {
  }

  /** What a filter keeps depends only on the multiset of the input, not on its order. */
  lemma FilterPermutation<T(!new)>(xs: seq<T>, ys: seq<T>, p: T -> bool)
    requires multiset(xs) == multiset(ys)
    ensures multiset(Filter(xs, p)) == multiset(Filter(ys, p))
    ensures |Filter(xs, p)| == |Filter(ys, p)|
  {
    FilterMultiset(xs, p);
    FilterMultiset(ys, p);
    assert multiset(Filter(xs, p)) == multiset(Filter(ys, p));
    assert |Filter(xs, p)| == |multiset(Filter(xs, p))| == |multiset(Filter(ys, p))| == |Filter(ys, p)|;
  }

  /** Filtering three elements of which only the middle one qualifies leaves the middle one. */
  lemma KeepMiddle<T(!new)>(a: T, b: T, c: T, p: T -> bool)
    requires !p(a) && p(b) && !p(c)
    ensures Filter([a, b, c], p) == [b]
  {
    assert [a, b, c][1..] == [b, c] && [b, c][1..] == [c] && [c][1..] == [];
    assert Filter([c], p) == [];
    assert Filter([b, c], p) == [b] + Filter([c], p);
  }

  /** Filtering three elements of which the first and the last qualify leaves those two. */
  lemma KeepOuter<T(!new)>(a: T, b: T, c: T, p: T -> bool)
    requires p(a) && !p(b) && p(c)
    ensures Filter([a, b, c], p) == [a, c]
  {
    assert [a, b, c][1..] == [b, c] && [b, c][1..] == [c] && [c][1..] == [];
    assert Filter([c], p) == [c];
    assert Filter([b, c], p) == Filter([c], p);
  }

  /** No value occurs twice. */
  predicate NoDuplicates<T(==,!new)>(s: seq<T>) {
    forall i, j :: 0 <= i < j < |s| ==> s[i] != s[j]
  }

  /** The set of values occurring in `s` (`new Set(s)`). */
  function Elements<T(!new)>(s: seq<T>): set<T> {
    set x | x in s
  }

  /** A sequence without duplicates has as many elements as its set of values. */
  lemma {:induction false} NoDuplicatesCardinality<T(!new)>(s: seq<T>)
    requires NoDuplicates(s)
    ensures |Elements(s)| == |s|
  {
    if s != [] {
      NoDuplicatesCardinality(s[1..]);
      assert Elements(s) == {s[0]} + Elements(s[1..]);
      assert s[0] !in Elements(s[1..]);
    }
  }

  /** The position of the first occurrence of `x` in `s`. */
  function FirstIndex<T(==,!new)>(s: seq<T>, x: T): (k: nat)
    requires x in s
    ensures k < |s| && s[k] == x
    ensures forall j :: 0 <= j < k ==> s[j] != x
  {
    if s[0] == x then 0 else 1 + FirstIndex(s[1..], x)
  }

  /** The first occurrence of a value in a prefix is its first occurrence in the whole. */
  lemma {:induction false} FirstIndexInPrefix<T(!new)>(s: seq<T>, n: nat, x: T)
    requires n <= |s| && x in s[..n]
    ensures FirstIndex(s, x) == FirstIndex(s[..n], x)
  {
    if s[0] != x {
      assert s[..n] == [s[0]] + s[1..][..n - 1];
      FirstIndexInPrefix(s[1..], n - 1, x);
    }
  }

  /**
   * `Array.from(new Set(s))`: every value of `s` once, in the order in which a
   * JavaScript Set receives them, that is, the order of first appearance.
   */
  function Distinct<T(==,!new)>(s: seq<T>): (r: seq<T>)
    ensures forall x :: x in r <==> x in s
    ensures NoDuplicates(r)
    ensures |r| <= |s|
  {
    if s == [] then []
    else
      var d := Distinct(s[..|s| - 1]);
      var last := s[|s| - 1];
      assert forall x :: x in s <==> x in s[..|s| - 1] || x == last by {
        assert s == s[..|s| - 1] + [last];
      }
      if last in d then d else d + [last]
  }

  /** The values of `Distinct(s)` appear in order of their first occurrence in `s`. */
  lemma {:induction false} DistinctFirstAppearance<T(!new)>(s: seq<T>)
    ensures forall i, j :: 0 <= i < j < |Distinct(s)| ==>
      FirstIndex(s, Distinct(s)[i]) < FirstIndex(s, Distinct(s)[j])
  {
    if s != [] {
      var n := |s| - 1;
      var pre, last := s[..n], s[n];
      var d, r := Distinct(pre), Distinct(s);
      DistinctFirstAppearance(pre);
      forall y | y in d ensures FirstIndex(s, y) == FirstIndex(pre, y) {
        FirstIndexInPrefix(s, n, y);
      }
      if last !in d {
        assert last !in pre;
        assert FirstIndex(s, last) == n;
        forall i, j | 0 <= i < j < |r|
          ensures FirstIndex(s, r[i]) < FirstIndex(s, r[j])
        {
          assert r[i] == d[i];
          if j < |d| {
            assert r[j] == d[j];
          } else {
            assert r[j] == last;
          }
        }
      }
    }
  }

  /** The length of the de-duplicated list is the size of the set (`new Set(s).size`). */
  lemma DistinctLength<T(!new)>(s: seq<T>)
    ensures |Distinct(s)| == |Elements(s)|
  {
    NoDuplicatesCardinality(Distinct(s));
    assert Elements(Distinct(s)) == Elements(s);
  }
}
