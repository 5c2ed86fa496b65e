/**
 * Sequence helpers behind the array methods the application uses:
 * `filter`, `slice(0, n)` and a stable `sort` with a numeric comparator.
 */
module Seqs {

  /** `a` is an order-preserving subsequence of `b`: `b` with some elements dropped. */
  ghost predicate IsSubsequence<T>(a: seq<T>, b: seq<T>)
    decreases |b|
  {
    |a| == 0 ||
    (|b| > 0 && ((a[0] == b[0] && IsSubsequence(a[1..], b[1..])) || IsSubsequence(a, b[1..])))
  }

  /** Every sequence is a subsequence of itself. */
  lemma {:induction false} SubsequenceRefl<T>(a: seq<T>)
    ensures IsSubsequence(a, a)
    decreases |a|
  {
    if |a| > 0 {
      SubsequenceRefl(a[1..]);
    }
  }

  /** Subsequences compose. */
  lemma {:induction false} SubsequenceTrans<T>(a: seq<T>, b: seq<T>, c: seq<T>)
    requires IsSubsequence(a, b) && IsSubsequence(b, c)
    ensures IsSubsequence(a, c)
    decreases |c|
  {
    if |a| == 0 {
    } else if |c| == 0 {
    } else if |b| > 0 && b[0] == c[0] && IsSubsequence(b[1..], c[1..]) {
      if a[0] == b[0] && IsSubsequence(a[1..], b[1..]) {
        SubsequenceTrans(a[1..], b[1..], c[1..]);
      } else {
        SubsequenceTrans(a, b[1..], c[1..]);
      }
    } else {
      SubsequenceTrans(a, b, c[1..]);
    }
  }

  /** A subsequence has no elements the original lacks. */
  lemma {:induction false} SubsequenceMembers<T>(a: seq<T>, b: seq<T>)
    requires IsSubsequence(a, b)
    ensures forall x :: x in a ==> x in b
    decreases |b|
  {
    if |a| == 0 {
    } else if a[0] == b[0] && IsSubsequence(a[1..], b[1..]) {
      SubsequenceMembers(a[1..], b[1..]);
      assert a == [a[0]] + a[1..];
    } else {
      SubsequenceMembers(a, b[1..]);
    }
  }

  /**
   * `Array.prototype.filter`: the elements of `s` that satisfy `p`, in order.
   * The result keeps each kept element's multiplicity and drops every other one.
   */
  function Filter<T(!new)>(s: seq<T>, p: T -> bool): (r: seq<T>)
    ensures |r| <= |s|
    ensures forall x :: x in r <==> x in s && p(x)
    ensures forall i :: 0 <= i < |r| ==> p(r[i])
    ensures forall x :: multiset(r)[x] == if p(x) then multiset(s)[x] else 0
    ensures IsSubsequence(r, s)
  {
    if |s| == 0 then []
    else
      var rest := Filter(s[1..], p);
      assert s == [s[0]] + s[1..];
      if p(s[0]) then
        assert ([s[0]] + rest)[1..] == rest;
        [s[0]] + rest
      else
        rest
  }

  /** Filtering commutes with concatenation. */
  lemma {:induction false} FilterAppend<T(!new)>(a: seq<T>, b: seq<T>, p: T -> bool)
    ensures Filter(a + b, p) == Filter(a, p) + Filter(b, p)
    decreases |a|
  {
    if |a| == 0 {
      assert a + b == b;
    } else {
      assert (a + b)[1..] == a[1..] + b;
      FilterAppend(a[1..], b, p);
    }
  }

  /** Filtering twice is filtering once by the conjunction. */
  lemma {:induction false} FilterFilter<T(!new)>(s: seq<T>, p: T -> bool, q: T -> bool, pq: T -> bool)
    requires forall x :: pq(x) == (p(x) && q(x))
    ensures Filter(Filter(s, p), q) == Filter(s, pq)
    decreases |s|
  {
    if |s| > 0 {
      FilterFilter(s[1..], p, q, pq);
    }
  }

  /** A filter that keeps everything changes nothing. */
  lemma {:induction false} FilterAll<T(!new)>(s: seq<T>, p: T -> bool)
    requires forall x :: x in s ==> p(x)
    ensures Filter(s, p) == s
    decreases |s|
  {
    if |s| > 0 {
      assert s == [s[0]] + s[1..];
      FilterAll(s[1..], p);
    }
  }

  /** A filter keeps its whole input exactly when every element passes. */
  lemma {:induction false} FilterKeepsAllIff<T(!new)>(s: seq<T>, p: T -> bool)
    ensures |Filter(s, p)| == |s| <==> forall x :: x in s ==> p(x)
    decreases |s|
  {
    if |s| > 0 {
      assert s == [s[0]] + s[1..];
      FilterKeepsAllIff(s[1..], p);
    }
  }

  /** Filters by two predicates that agree on `s` give the same result. */
  lemma {:induction false} FilterCongruent<T(!new)>(s: seq<T>, p: T -> bool, q: T -> bool)
    requires forall x :: x in s ==> p(x) == q(x)
    ensures Filter(s, p) == Filter(s, q)
    decreases |s|
  {
    if |s| > 0 {
      assert s == [s[0]] + s[1..];
      FilterCongruent(s[1..], p, q);
    }
  }

  /**
   * Counting by two predicates that never hold together adds up to counting
   * by their disjunction `u`.
   */
  lemma {:induction false} FilterDisjointCount<T(!new)>(s: seq<T>, p: T -> bool, q: T -> bool, u: T -> bool)
    requires forall x :: !(p(x) && q(x))
    requires forall x :: u(x) == (p(x) || q(x))
    ensures |Filter(s, p)| + |Filter(s, q)| == |Filter(s, u)|
    decreases |s|
  {
    if |s| > 0 {
      FilterDisjointCount(s[1..], p, q, u);
    }
  }

  /** A predicate and its negation split `s`: the two counts add up to `|s|`. */
  lemma FilterComplementCount<T(!new)>(s: seq<T>, p: T -> bool, q: T -> bool)
    requires forall x :: q(x) == !p(x)
    ensures |Filter(s, p)| + |Filter(s, q)| == |s|
  {
    var all := (x: T) => true;
    FilterDisjointCount(s, p, q, all);
    FilterAll(s, all);
  }

  /** Counting by a stronger predicate never gives more. */
  lemma {:induction false} FilterCountMonotone<T(!new)>(s: seq<T>, p: T -> bool, q: T -> bool)
    requires forall x :: p(x) ==> q(x)
    ensures |Filter(s, p)| <= |Filter(s, q)|
    decreases |s|
  {
    if |s| > 0 {
      FilterCountMonotone(s[1..], p, q);
    }
  }

  /** `Array.prototype.slice(0, n)`: at most the first `n` elements. */
  function Take<T>(s: seq<T>, n: nat): (r: seq<T>)
    ensures |r| <= n && |r| <= |s|
    ensures |r| == if |s| <= n then |s| else n
    ensures r <= s
    ensures multiset(r) <= multiset(s)
  {
    if |s| <= n then s
    else
      assert s == s[..n] + s[n..];
      s[..n]
  }

  /** A prefix is a subsequence. */
  lemma {:induction false} PrefixIsSubsequence<T>(a: seq<T>, b: seq<T>)
    requires a <= b
    ensures IsSubsequence(a, b)
    decreases |b|
  {
    if |a| > 0 {
      PrefixIsSubsequence(a[1..], b[1..]);
    }
  }

  /** `s` is ordered by `key`, largest first. */
  ghost predicate SortedDesc<T>(s: seq<T>, key: T -> int) {
    forall i, j :: 0 <= i < j < |s| ==> key(s[i]) >= key(s[j])
  }

  /** The elements of `s` whose key is `k`, in their order in `s`. */
  function WithKey<T(!new)>(s: seq<T>, key: T -> int, k: int): (r: seq<T>)
    ensures forall x :: x in r <==> x in s && key(x) == k
  {
    Filter(s, (x: T) => key(x) == k)
  }

  /**
   * `r` lists the elements of each key in the same order as `s` does: the
   * order a stable sort keeps among equal keys.
   */
  ghost predicate SameTieOrder<T(!new)>(r: seq<T>, s: seq<T>, key: T -> int) {
    forall k :: WithKey(r, key, k) == WithKey(s, key, k)
  }

  /** Prepending one element extends exactly one key's list. */
  lemma WithKeyCons<T(!new)>(x: T, s: seq<T>, key: T -> int, k: int)
    ensures WithKey([x] + s, key, k) == (if key(x) == k then [x] else []) + WithKey(s, key, k)
  {
    assert ([x] + s)[0] == x && ([x] + s)[1..] == s;
  }

  /** A prefix's elements of each key are a prefix of the whole's. */
  lemma WithKeyPrefix<T(!new)>(a: seq<T>, s: seq<T>, key: T -> int, k: int)
    requires a <= s
    ensures WithKey(a, key, k) <= WithKey(s, key, k)
  {
    assert s == a + s[|a|..];
    FilterAppend(a, s[|a|..], (x: T) => key(x) == k);
  }

  /**
   * Inserts `x` into `s` ahead of every element whose key is not larger
   * than `x`'s, so equal keys keep `x` first.
   */
  function InsertDesc<T>(x: T, s: seq<T>, key: T -> int): (r: seq<T>)
    ensures |r| == |s| + 1
    ensures multiset(r) == multiset(s) + multiset{x}
    ensures forall i :: 0 <= i < |r| ==> r[i] == x || r[i] in s
  {
    if |s| == 0 then [x]
    else if key(s[0]) > key(x) then
      var rest := InsertDesc(x, s[1..], key);
      assert s == [s[0]] + s[1..];
      [s[0]] + rest
    else
      [x] + s
  }

  /** Insertion puts `x` ahead of the elements whose key equals its own. */
  lemma {:induction false} InsertDescStable<T(!new)>(x: T, s: seq<T>, key: T -> int, k: int)
    ensures WithKey(InsertDesc(x, s, key), key, k) == WithKey([x] + s, key, k)
    decreases |s|
  {
    if |s| > 0 && key(s[0]) > key(x) {
      var h, t := s[0], s[1..];
      var rest := InsertDesc(x, t, key);
      assert InsertDesc(x, s, key) == [h] + rest;
      assert s == [h] + t;
      InsertDescStable(x, t, key, k);
      WithKeyCons(h, rest, key, k);
      WithKeyCons(x, t, key, k);
      WithKeyCons(h, t, key, k);
      WithKeyCons(x, s, key, k);
      var w := WithKey(t, key, k);
      if key(x) == k {
        assert WithKey([h] + rest, key, k) == [x] + w;
        assert WithKey([x] + s, key, k) == [x] + w;
      } else {
        assert WithKey([h] + rest, key, k) == WithKey(s, key, k);
      }
    }
  }

  /** Insertion keeps a sorted sequence sorted. */
  lemma {:induction false} InsertDescSorted<T>(x: T, s: seq<T>, key: T -> int)
    requires SortedDesc(s, key)
    ensures SortedDesc(InsertDesc(x, s, key), key)
    decreases |s|
  {
    if |s| > 0 && key(s[0]) > key(x) {
      var rest := InsertDesc(x, s[1..], key);
      InsertDescSorted(x, s[1..], key);
      var r := [s[0]] + rest;
      assert r == InsertDesc(x, s, key);
      forall i, j | 0 <= i < j < |r|
        ensures key(r[i]) >= key(r[j])
      {
        if i == 0 {
          assert r[j] == rest[j - 1];
          if rest[j - 1] != x {
            var k :| 0 <= k < |s[1..]| && s[1..][k] == rest[j - 1];
            assert s[k + 1] == r[j];
          }
        } else {
          assert r[i] == rest[i - 1] && r[j] == rest[j - 1];
        }
      }
    }
  }

  /**
   * `Array.prototype.sort((a, b) => key(b) - key(a))`: a stable sort,
   * largest key first.
   */
  function SortDesc<T(!new)>(s: seq<T>, key: T -> int): (r: seq<T>)
    ensures |r| == |s|
    ensures multiset(r) == multiset(s)
    ensures SortedDesc(r, key)
    ensures SameTieOrder(r, s, key)
  {
    if |s| == 0 then []
    else
      assert s == [s[0]] + s[1..];
      var rest := SortDesc(s[1..], key);
      InsertDescSorted(s[0], rest, key);
      SortDescStableStep(s, rest, key);
      InsertDesc(s[0], rest, key)
  }

  /** One step of `SortDesc`: inserting the head into a stably sorted tail is stable. */
  lemma SortDescStableStep<T(!new)>(s: seq<T>, rest: seq<T>, key: T -> int)
    requires |s| > 0 && SameTieOrder(rest, s[1..], key)
    ensures SameTieOrder(InsertDesc(s[0], rest, key), s, key)
  {
    forall k
      ensures WithKey(InsertDesc(s[0], rest, key), key, k) == WithKey(s, key, k)
    {
      InsertDescStable(s[0], rest, key, k);
      WithKeyCons(s[0], rest, key, k);
      assert s == [s[0]] + s[1..];
      WithKeyCons(s[0], s[1..], key, k);
    }
  }

  /** With every key equal, the sort is the identity: stability leaves nothing to reorder. */
  lemma SortDescAllTied<T(!new)>(s: seq<T>, key: T -> int, k: int)
    requires forall i :: 0 <= i < |s| ==> key(s[i]) == k
    ensures SortDesc(s, key) == s
  {
    var r := SortDesc(s, key);
    SameMultisetSameMembers(r, s);
    FilterAll(s, (x: T) => key(x) == k);
    FilterAll(r, (x: T) => key(x) == k);
    assert WithKey(r, key, k) == WithKey(s, key, k);
  }

  /** Sequences with the same multiset have the same members. */
  lemma SameMultisetSameMembers<T>(a: seq<T>, b: seq<T>)
    requires multiset(a) == multiset(b)
    ensures forall x :: x in a <==> x in b
  {
    forall x
      ensures x in a <==> x in b
    {
      assert x in a <==> multiset(a)[x] > 0;
      assert x in b <==> multiset(b)[x] > 0;
    }
  }

  /** A sorted sequence keeps its order in every prefix. */
  lemma SortedPrefix<T>(s: seq<T>, n: nat, key: T -> int)
    requires SortedDesc(s, key)
    ensures SortedDesc(Take(s, n), key)
  {
  }
}
