/**
 * Sums over sequences: the `reduce((sum, a) => sum + a.totalWorkers, 0)` of the
 * source, and its multiset counterpart used to say "no element lost or
 * duplicated". Both are invariant under permutation, which is how the
 * properties of the aggregation survive the sorts that follow it.
 */
module Seqs {

  /** f summed over s, left to right. */
  function SumOf<T>(s: seq<T>, f: T -> int): int
  {
    if |s| == 0 then 0 else f(s[0]) + SumOf(s[1..], f)
  }

  /** The multiset union of f over s. */
  function BagSum<T, U>(s: seq<T>, f: T -> multiset<U>): multiset<U>
  {
    if |s| == 0 then multiset{} else f(s[0]) + BagSum(s[1..], f)
  }

  /** No value occurs at two positions. */
  ghost predicate Distinct<T>(s: seq<T>)
  {
    forall i, j | 0 <= i < j < |s| :: s[i] != s[j]
  }

  lemma MultisetCons<T>(s: seq<T>)
    requires |s| > 0
    ensures multiset(s) == multiset{s[0]} + multiset(s[1..])
  {
    assert s == [s[0]] + s[1..];
  }

  /** Adding one element and then the rest is adding them all. */
  lemma BagAddCons<U>(total: multiset<U>, mid: multiset<U>, start: multiset<U>, x: U, rest: multiset<U>, all: multiset<U>)
    requires total == mid + rest && mid == start + multiset{x} && all == multiset{x} + rest
    ensures total == start + all
  {
  }

  lemma {:induction false} SumOfConcat<T>(a: seq<T>, b: seq<T>, f: T -> int)
    ensures SumOf(a + b, f) == SumOf(a, f) + SumOf(b, f)
    decreases |a|
  {
    if |a| == 0 {
      assert a + b == b;
    } else {
      assert (a + b)[1..] == a[1..] + b;
      SumOfConcat(a[1..], b, f);
    }
  }

  lemma SumOfSnoc<T>(s: seq<T>, x: T, f: T -> int)
    ensures SumOf(s + [x], f) == SumOf(s, f) + f(x)
  {
    SumOfConcat(s, [x], f);
  }

  /** Replacing one element changes the sum by the difference of the two. */
  lemma SumOfUpdate<T>(s: seq<T>, i: nat, y: T, f: T -> int)
    requires i < |s|
    ensures SumOf(s[i := y], f) == SumOf(s, f) - f(s[i]) + f(y)
  {
    assert s == s[..i] + ([s[i]] + s[i + 1..]);
    assert s[i := y] == s[..i] + ([y] + s[i + 1..]);
    SumOfConcat(s[..i], [s[i]] + s[i + 1..], f);
    SumOfConcat(s[..i], [y] + s[i + 1..], f);
    SumOfConcat([s[i]], s[i + 1..], f);
    SumOfConcat([y], s[i + 1..], f);
  }

  /** Dropping the element at position i from s. */
  function RemoveAt<T>(s: seq<T>, i: nat): seq<T>
    requires i < |s|
  {
    s[..i] + s[i + 1..]
  }

  lemma RemoveAtBag<T>(s: seq<T>, i: nat)
    requires i < |s|
    ensures multiset(RemoveAt(s, i)) == multiset(s) - multiset{s[i]}
  {
    assert s == s[..i] + [s[i]] + s[i + 1..];
  }

  lemma {:induction false} SumOfRemoveAt<T>(s: seq<T>, i: nat, f: T -> int)
    requires i < |s|
    ensures SumOf(s, f) == f(s[i]) + SumOf(RemoveAt(s, i), f)
    decreases i
  {
    if i == 0 {
      assert RemoveAt(s, i) == s[1..];
    } else {
      var t := s[1..];
      SumOfRemoveAt(t, i - 1, f);
      assert RemoveAt(s, i) == [s[0]] + RemoveAt(t, i - 1);
      assert ([s[0]] + RemoveAt(t, i - 1))[1..] == RemoveAt(t, i - 1);
    }
  }

  /** Reordering a sequence does not change its sum. */
  lemma {:induction false} SumOfPermutation<T>(a: seq<T>, b: seq<T>, f: T -> int)
    requires multiset(a) == multiset(b)
    ensures SumOf(a, f) == SumOf(b, f)
    decreases |a|
  {
    if |a| == 0 {
      assert |b| == |multiset(b)| == 0;
    } else {
      assert a == [a[0]] + a[1..];
      assert a[0] in multiset(b);
      var i :| 0 <= i < |b| && b[i] == a[0];
      RemoveAtBag(b, i);
      RemoveAtBag(a, 0);
      assert a[1..] == RemoveAt(a, 0);
      SumOfPermutation(a[1..], RemoveAt(b, i), f);
      SumOfRemoveAt(b, i, f);
    }
  }

  lemma {:induction false} BagSumConcat<T, U>(a: seq<T>, b: seq<T>, f: T -> multiset<U>)
    ensures BagSum(a + b, f) == BagSum(a, f) + BagSum(b, f)
    decreases |a|
  {
    if |a| == 0 {
      assert a + b == b;
    } else {
      assert (a + b)[1..] == a[1..] + b;
      BagSumConcat(a[1..], b, f);
    }
  }

  lemma BagSumSnoc<T, U>(s: seq<T>, x: T, f: T -> multiset<U>)
    ensures BagSum(s + [x], f) == BagSum(s, f) + f(x)
  {
    BagSumConcat(s, [x], f);
  }

  /** Replacing one element by one whose share is larger by extra grows the
      union by extra. */
  lemma BagSumGrow<T, U>(s: seq<T>, i: nat, y: T, f: T -> multiset<U>, extra: multiset<U>)
    requires i < |s|
    requires f(y) == f(s[i]) + extra
    ensures BagSum(s[i := y], f) == BagSum(s, f) + extra
  {
    assert s == s[..i] + ([s[i]] + s[i + 1..]);
    assert s[i := y] == s[..i] + ([y] + s[i + 1..]);
    BagSumConcat(s[..i], [s[i]] + s[i + 1..], f);
    BagSumConcat(s[..i], [y] + s[i + 1..], f);
    BagSumConcat([s[i]], s[i + 1..], f);
    BagSumConcat([y], s[i + 1..], f);
  }

  lemma {:induction false} BagSumRemoveAt<T, U>(s: seq<T>, i: nat, f: T -> multiset<U>)
    requires i < |s|
    ensures BagSum(s, f) == f(s[i]) + BagSum(RemoveAt(s, i), f)
    decreases i
  {
    if i == 0 {
      assert RemoveAt(s, i) == s[1..];
    } else {
      var t := s[1..];
      BagSumRemoveAt(t, i - 1, f);
      assert RemoveAt(s, i) == [s[0]] + RemoveAt(t, i - 1);
      assert ([s[0]] + RemoveAt(t, i - 1))[1..] == RemoveAt(t, i - 1);
      var rest := BagSum(RemoveAt(t, i - 1), f);
      assert BagSum(s, f) == f(s[0]) + (f(s[i]) + rest);
      assert BagSum(RemoveAt(s, i), f) == f(s[0]) + rest;
    }
  }

  /** Reordering a sequence does not change its multiset union. */
  lemma {:induction false} BagSumPermutation<T, U>(a: seq<T>, b: seq<T>, f: T -> multiset<U>)
    requires multiset(a) == multiset(b)
    ensures BagSum(a, f) == BagSum(b, f)
    decreases |a|
  {
    if |a| == 0 {
      assert |b| == |multiset(b)| == 0;
    } else {
      assert a == [a[0]] + a[1..];
      assert a[0] in multiset(b);
      var i :| 0 <= i < |b| && b[i] == a[0];
      RemoveAtBag(b, i);
      RemoveAtBag(a, 0);
      assert a[1..] == RemoveAt(a, 0);
      BagSumPermutation(a[1..], RemoveAt(b, i), f);
      BagSumRemoveAt(b, i, f);
    }
  }

  /** The values at two different positions both count in the multiset. */
  lemma PositionsCount<T>(s: seq<T>, i: nat, j: nat)
    requires i < j < |s|
    ensures multiset{s[i]} + multiset{s[j]} <= multiset(s)
  {
    assert s == s[..i] + [s[i]] + s[i + 1..j] + [s[j]] + s[j + 1..];
  }

  /** Positional distinctness is the same as every value occurring at most once. */
  lemma {:induction false} DistinctIffSingletons<T>(s: seq<T>)
    ensures Distinct(s) <==> forall x :: multiset(s)[x] <= 1
    decreases |s|
  {
    if |s| > 0 {
      var t := s[1..];
      assert s == [s[0]] + t;
      DistinctIffSingletons(t);
      if Distinct(s) {
        assert Distinct(t) by {
          forall i, j | 0 <= i < j < |t| ensures t[i] != t[j] {
            assert t[i] == s[i + 1] && t[j] == s[j + 1];
          }
        }
        assert s[0] !in t;
        forall x ensures multiset(s)[x] <= 1 {
          if x == s[0] {
            assert multiset(t)[x] == 0;
          }
        }
      }
      if forall x :: multiset(s)[x] <= 1 {
        assert multiset(s)[s[0]] == 1 + multiset(t)[s[0]];
        assert forall x :: multiset(t)[x] <= multiset(s)[x];
        forall i, j | 0 <= i < j < |s| ensures s[i] != s[j] {
          if i == 0 {
            assert s[j] in t;
          } else {
            assert s[i] == t[i - 1] && s[j] == t[j - 1];
          }
        }
      }
    }
  }

  /** The elements of s that satisfy p, in their order in s: the source's
      `Array.prototype.filter`. */
  function Filter<T>(s: seq<T>, p: T -> bool): (r: seq<T>)
    ensures |r| <= |s|
    ensures forall i | 0 <= i < |r| :: p(r[i])
    decreases |s|
  {
    if |s| == 0 then []
    else (if p(s[0]) then [s[0]] else []) + Filter(s[1..], p)
  }

  /** The filter keeps every occurrence of a value that satisfies p and none
      of a value that does not. */
  lemma {:induction false} FilterCounts<T>(s: seq<T>, p: T -> bool)
    ensures forall x :: multiset(Filter(s, p))[x] == if p(x) then multiset(s)[x] else 0
    decreases |s|
  {
    if |s| > 0 {
      FilterCounts(s[1..], p);
      MultisetCons(s);
    }
  }

  /** Filtering distributes over concatenation, so it keeps the order. */
  lemma {:induction false} FilterConcat<T>(a: seq<T>, b: seq<T>, p: T -> bool)
    ensures Filter(a + b, p) == Filter(a, p) + Filter(b, p)
    decreases |a|
  {
    if |a| == 0 {
      assert a + b == b;
    } else {
      assert (a + b)[1..] == a[1..] + b;
      FilterConcat(a[1..], b, p);
    }
  }

  /** Only the values of the predicate on s matter. */
  lemma {:induction false} FilterSame<T>(s: seq<T>, p: T -> bool, q: T -> bool)
    requires forall i | 0 <= i < |s| :: p(s[i]) == q(s[i])
    ensures Filter(s, p) == Filter(s, q)
    decreases |s|
  {
    if |s| > 0 {
      FilterSame(s[1..], p, q);
    }
  }

  /** A filter that keeps everything keeps s as it is. */
  lemma {:induction false} FilterAll<T>(s: seq<T>, p: T -> bool)
    requires forall i | 0 <= i < |s| :: p(s[i])
    ensures Filter(s, p) == s
    decreases |s|
  {
    if |s| > 0 {
      FilterAll(s[1..], p);
      assert s == [s[0]] + s[1..];
    }
  }

  /** A filter that keeps nothing of s yields the empty sequence. */
  lemma {:induction false} FilterNone<T>(s: seq<T>, p: T -> bool)
    requires forall i | 0 <= i < |s| :: !p(s[i])
    ensures Filter(s, p) == []
    decreases |s|
  {
    if |s| > 0 {
      FilterNone(s[1..], p);
    }
  }
}
