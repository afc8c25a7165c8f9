/** Generic sequence operations the ORM querysets map onto: filtering,
    truncation, sums and extrema, and a stable insertion sort by an
    integer rank. */
module Sequences {

  /** The elements of `s` satisfying `p`, in their original order
      (a queryset `filter`). */
  function Filter<T(!new)>(s: seq<T>, p: T -> bool): (r: seq<T>)
    ensures |r| <= |s|
    ensures forall x :: x in r <==> x in s && p(x)
    ensures forall x :: multiset(r)[x] == if p(x) then multiset(s)[x] else 0
  {
    if |s| == 0 then []
    else
      var rest := Filter(s[1..], p);
      assert s == [s[0]] + s[1..];
      if p(s[0]) then [s[0]] + rest else rest
  }

  /** No two elements of `s` share a `key`. */
  ghost predicate DistinctBy<T, U>(s: seq<T>, key: T -> U)
  {
    forall i, j :: 0 <= i < j < |s| ==> key(s[i]) != key(s[j])
  }

  lemma DistinctByTail<T, U>(s: seq<T>, key: T -> U)
    requires |s| > 0 && DistinctBy(s, key)
    ensures DistinctBy(s[1..], key)
    ensures forall x :: x in s[1..] ==> key(x) != key(s[0])
  {
    var t := s[1..];
    forall i, j | 0 <= i < j < |t| ensures key(t[i]) != key(t[j]) {
      assert t[i] == s[i + 1] && t[j] == s[j + 1];
    }
    forall x | x in t ensures key(x) != key(s[0]) {
      var k :| 0 <= k < |t| && t[k] == x;
      assert s[k + 1] == x;
    }
  }

  lemma DistinctByCons<T, U>(h: T, t: seq<T>, key: T -> U)
    requires DistinctBy(t, key)
    requires forall x :: x in t ==> key(x) != key(h)
    ensures DistinctBy([h] + t, key)
  {
    var r := [h] + t;
    forall i, j | 0 <= i < j < |r| ensures key(r[i]) != key(r[j]) {
      assert r[j] == t[j - 1];
      if i > 0 {
        assert r[i] == t[i - 1];
      } else {
        assert t[j - 1] in t;
      }
    }
  }

  /** Distinct keys mean every element occurs at most once. */
  lemma {:induction false} DistinctByOccursOnce<T, U>(s: seq<T>, key: T -> U, x: T)
    requires DistinctBy(s, key)
    ensures multiset(s)[x] <= 1
  {
    if |s| > 0 {
      DistinctByTail(s, key);
      DistinctByOccursOnce(s[1..], key, x);
      assert s == [s[0]] + s[1..];
      if s[0] == x {
        assert x !in s[1..];
      }
    }
  }

  /** Filtering keeps the `key`s of the elements pairwise distinct. */
  lemma {:induction false} FilterKeepsDistinct<T(!new), U>(s: seq<T>, p: T -> bool, key: T -> U)
    ensures DistinctBy(s, key) ==> DistinctBy(Filter(s, p), key)
  {
    if |s| > 0 && DistinctBy(s, key) {
      DistinctByTail(s, key);
      FilterKeepsDistinct(s[1..], p, key);
      if p(s[0]) {
        DistinctByCons(s[0], Filter(s[1..], p), key);
      }
    }
  }

  /** A sequence's set of values is a singleton exactly when the sequence
      is non-empty and constant. */
  lemma SingletonValues<T>(s: seq<T>)
    ensures |set x | x in s| == 1 <==> |s| > 0 && forall i :: 0 <= i < |s| ==> s[i] == s[0]
  {
    var vals := set x | x in s;
    if |s| > 0 && forall i :: 0 <= i < |s| ==> s[i] == s[0] {
      assert vals == {s[0]};
    } else if |vals| == 1 {
      var v :| v in vals;
      assert |vals - {v}| == |vals| - 1 == 0;
      assert vals - {v} == {};
      forall i | 0 <= i < |s| ensures s[i] == s[0] {
        assert s[i] in vals && s[0] in vals;
      }
    }
  }

  /** The first `n` elements of `s`, or all of them when there are fewer
      (a queryset slice `[:n]`). */
  function Take<T>(s: seq<T>, n: nat): (r: seq<T>)
    ensures |r| == if n <= |s| then n else |s|
    ensures forall i :: 0 <= i < |r| ==> r[i] == s[i]
  {
    if n <= |s| then s[..n] else s
  }

  /** A prefix keeps the `key`s of the elements pairwise distinct. */
  lemma TakeKeepsDistinct<T, U>(s: seq<T>, n: nat, key: T -> U)
    ensures DistinctBy(s, key) ==> DistinctBy(Take(s, n), key)
  {
  }

  /** Concatenation regroups freely. */
  lemma ConcatAssociative<T>(a: seq<T>, b: seq<T>, c: seq<T>)
    ensures (a + b) + c == a + (b + c)
  {
  }

  function Sum(s: seq<int>): int
  {
    if |s| == 0 then 0 else s[0] + Sum(s[1..])
  }

  /** The sum is bounded by the length times any lower or upper bound. */
  lemma {:induction false} SumBounds(s: seq<int>, lo: int, hi: int)
    requires forall i :: 0 <= i < |s| ==> lo <= s[i] <= hi
    ensures |s| * lo <= Sum(s) <= |s| * hi
  {
    if |s| > 0 {
      SumBounds(s[1..], lo, hi);
    }
  }

  function MinOf(s: seq<int>): (m: int)
    requires |s| > 0
    ensures m in s
    ensures forall i :: 0 <= i < |s| ==> m <= s[i]
  {
    if |s| == 1 then s[0]
    else
      var rest := MinOf(s[1..]);
      assert forall i :: 1 <= i < |s| ==> s[i] == s[1..][i - 1];
      if s[0] <= rest then s[0] else rest
  }

  function MaxOf(s: seq<int>): (m: int)
    requires |s| > 0
    ensures m in s
    ensures forall i :: 0 <= i < |s| ==> s[i] <= m
  {
    if |s| == 1 then s[0]
    else
      var rest := MaxOf(s[1..]);
      assert forall i :: 1 <= i < |s| ==> s[i] == s[1..][i - 1];
      if s[0] >= rest then s[0] else rest
  }

  /** `s` is in non-decreasing order of `rank`. */
  predicate SortedBy<T>(s: seq<T>, rank: T -> int)
  {
    forall i, j :: 0 <= i < j < |s| ==> rank(s[i]) <= rank(s[j])
  }

  /** Distinct values have distinct ranks, so ranking is a total order. */
  ghost predicate Injective<T(!new)>(rank: T -> int)
  {
    forall x, y :: rank(x) == rank(y) ==> x == y
  }

  /** A head no larger than any element of a sorted tail keeps it sorted. */
  lemma PrependSorted<T>(h: T, t: seq<T>, rank: T -> int)
    requires SortedBy(t, rank)
    requires forall i :: 0 <= i < |t| ==> rank(h) <= rank(t[i])
    ensures SortedBy([h] + t, rank)
  {
    var r := [h] + t;
    forall i, j | 0 <= i < j < |r| ensures rank(r[i]) <= rank(r[j]) {
      assert r[j] == t[j - 1];
      if i > 0 {
        assert r[i] == t[i - 1];
      }
    }
  }

  function Insert<T(!new)>(x: T, s: seq<T>, rank: T -> int): (r: seq<T>)
    requires SortedBy(s, rank)
    ensures SortedBy(r, rank)
    ensures multiset(r) == multiset(s) + multiset{x}
  {
    if |s| == 0 then [x]
    else if rank(x) <= rank(s[0]) then
      PrependSorted(x, s, rank);
      [x] + s
    else
      var rest := Insert(x, s[1..], rank);
      assert s == [s[0]] + s[1..];
      assert forall i :: 0 <= i < |rest| ==> rank(s[0]) <= rank(rest[i]) by {
        forall i | 0 <= i < |rest| ensures rank(s[0]) <= rank(rest[i]) {
          assert rest[i] in multiset(rest);
          if rest[i] != x {
            assert rest[i] in multiset(s[1..]);
            var k :| 0 <= k < |s[1..]| && s[1..][k] == rest[i];
            assert s[k + 1] == rest[i];
          }
        }
      }
      PrependSorted(s[0], rest, rank);
      [s[0]] + rest
  }

  /** Insertion sort: a sorted permutation of `s`. */
  function SortBy<T(!new)>(s: seq<T>, rank: T -> int): (r: seq<T>)
    ensures SortedBy(r, rank)
    ensures multiset(r) == multiset(s)
  {
    if |s| == 0 then []
    else
      assert s == [s[0]] + s[1..];
      Insert(s[0], SortBy(s[1..], rank), rank)
  }

  /** Sorted permutations of each other start with the same element. */
  lemma SortedHeads<T(!new)>(a: seq<T>, b: seq<T>, rank: T -> int)
    requires |a| > 0 && |b| > 0
    requires SortedBy(a, rank) && SortedBy(b, rank)
    requires multiset(a) == multiset(b)
    requires Injective(rank)
    ensures a[0] == b[0]
  {
    assert a[0] in multiset(b);
    assert b[0] in multiset(a);
    assert rank(b[0]) <= rank(a[0]);
    assert rank(a[0]) <= rank(b[0]);
  }

  lemma TailMultiset<T>(a: seq<T>)
    requires |a| > 0
    ensures multiset(a[1..]) == multiset(a) - multiset{a[0]}
  {
    assert a == [a[0]] + a[1..];
  }

  lemma SortedTail<T>(a: seq<T>, rank: T -> int)
    requires |a| > 0 && SortedBy(a, rank)
    ensures SortedBy(a[1..], rank)
  {
    forall i, j | 0 <= i < j < |a[1..]| ensures rank(a[1..][i]) <= rank(a[1..][j]) {
      assert a[1..][i] == a[i + 1] && a[1..][j] == a[j + 1];
    }
  }

  lemma ConsTail<T>(a: seq<T>, b: seq<T>)
    requires |a| > 0 && |b| > 0
    requires a[0] == b[0] && a[1..] == b[1..]
    ensures a == b
  {
    assert a == [a[0]] + a[1..];
    assert b == [b[0]] + b[1..];
  }

  /** Under an injective rank, a sorted permutation is unique. */
  lemma {:induction false} SortedUnique<T(!new)>(a: seq<T>, b: seq<T>, rank: T -> int)
    requires SortedBy(a, rank) && SortedBy(b, rank)
    requires multiset(a) == multiset(b)
    requires Injective(rank)
    ensures a == b
  {
    assert |a| == |multiset(a)| == |multiset(b)| == |b|;
    if |a| > 0 {
      SortedHeads(a, b, rank);
      TailMultiset(a);
      TailMultiset(b);
      SortedTail(a, rank);
      SortedTail(b, rank);
      SortedUnique(a[1..], b[1..], rank);
      ConsTail(a, b);
    }
  }
}
