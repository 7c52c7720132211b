/**
 * `Array.prototype.sort` with a comparator, as the scheduler uses it. Since
 * ECMAScript 2019 the sort is required to be stable, and a stable sort by a
 * consistent comparator has exactly one possible outcome; insertion sort is
 * used here as the definition, and `StableSortUnique` shows that any other
 * stable sort would have produced the same sequence.
 *
 * The comparators of the source all compare a pair of integers
 * lexicographically, so a sort key is a `Rank` and "a sorts before b" is
 * `Below(key(a), key(b))`.
 */
module Sorting {

  /** A sort key compared lexicographically: smaller ranks come first. */
  datatype Rank = Rank(major: int, minor: int)

  predicate Below(a: Rank, b: Rank)
  {
    a.major < b.major || (a.major == b.major && a.minor < b.minor)
  }

  /** No element ranks strictly below an element in front of it. */
  ghost predicate SortedBy<T>(s: seq<T>, key: T -> Rank)
  {
    forall i, j | 0 <= i < j < |s| :: !Below(key(s[j]), key(s[i]))
  }

  /** x alone when its key is k, nothing otherwise. */
  function Own<T>(x: T, key: T -> Rank, k: Rank): seq<T>
  {
    if key(x) == k then [x] else []
  }

  /** The elements of s whose key is exactly k, in their order in s. */
  function WithRank<T>(s: seq<T>, key: T -> Rank, k: Rank): seq<T>
  {
    if |s| == 0 then []
    else Own(s[0], key, k) + WithRank(s[1..], key, k)
  }

  /** Puts x in front of the first element that ranks strictly above it, so
      that x lands after every element of equal rank. */
  function Insert<T>(x: T, s: seq<T>, key: T -> Rank): (r: seq<T>)
    ensures |r| == |s| + 1
    ensures multiset(r) == multiset(s) + multiset{x}
    decreases |s|
  {
    if |s| == 0 then [x]
    else if Below(key(x), key(s[0])) then [x] + s
    else
      assert s == [s[0]] + s[1..];
      [s[0]] + Insert(x, s[1..], key)
  }

  /** Stable insertion sort of s by key. */
  function SortBy<T>(s: seq<T>, key: T -> Rank): (r: seq<T>)
    ensures |r| == |s|
    ensures multiset(r) == multiset(s)
    ensures SortedBy(r, key)
    decreases |s|
  {
    if |s| == 0 then []
    else
      assert s == s[..|s| - 1] + [s[|s| - 1]];
      var sorted := SortBy(s[..|s| - 1], key);
      InsertSorted(s[|s| - 1], sorted, key);
      Insert(s[|s| - 1], sorted, key)
  }

  /** Every element of s ranks at or above b. */
  ghost predicate AtLeast<T>(s: seq<T>, key: T -> Rank, b: Rank)
  {
    forall i | 0 <= i < |s| :: !Below(key(s[i]), b)
  }

  lemma {:induction false} InsertAtLeast<T>(x: T, s: seq<T>, key: T -> Rank, b: Rank)
    requires AtLeast(s, key, b) && !Below(key(x), b)
    ensures AtLeast(Insert(x, s, key), key, b)
    decreases |s|
  {
    if |s| > 0 && !Below(key(x), key(s[0])) {
      InsertAtLeast(x, s[1..], key, b);
      var r := Insert(x, s, key);
      assert r == [s[0]] + Insert(x, s[1..], key);
    }
  }

  lemma SortedCons<T>(a: T, s: seq<T>, key: T -> Rank)
    requires SortedBy(s, key) && AtLeast(s, key, key(a))
    ensures SortedBy([a] + s, key)
  {
    var r := [a] + s;
    forall i, j | 0 <= i < j < |r| ensures !Below(key(r[j]), key(r[i])) {
      assert r[j] == s[j - 1];
      if i > 0 {
        assert r[i] == s[i - 1];
      }
    }
  }

  /** The tail of a sorted sequence is sorted and ranks at or above its head. */
  lemma SortedTail<T>(s: seq<T>, key: T -> Rank)
    requires SortedBy(s, key) && |s| > 0
    ensures SortedBy(s[1..], key) && AtLeast(s[1..], key, key(s[0]))
  {
    var tail := s[1..];
    forall i, j | 0 <= i < j < |tail| ensures !Below(key(tail[j]), key(tail[i])) {
      assert tail[i] == s[i + 1] && tail[j] == s[j + 1];
    }
    forall i | 0 <= i < |tail| ensures !Below(key(tail[i]), key(s[0])) {
      assert tail[i] == s[i + 1];
    }
  }

  lemma {:induction false} InsertSorted<T>(x: T, s: seq<T>, key: T -> Rank)
    requires SortedBy(s, key)
    ensures SortedBy(Insert(x, s, key), key)
    decreases |s|
  {
    if |s| == 0 {
    } else if Below(key(x), key(s[0])) {
      assert AtLeast(s, key, key(x));
      SortedCons(x, s, key);
    } else {
      var tail := s[1..];
      SortedTail(s, key);
      InsertSorted(x, tail, key);
      InsertAtLeast(x, tail, key, key(s[0]));
      SortedCons(s[0], Insert(x, tail, key), key);
    }
  }

  lemma {:induction false} WithRankConcat<T>(a: seq<T>, b: seq<T>, key: T -> Rank, k: Rank)
    ensures WithRank(a + b, key, k) == WithRank(a, key, k) + WithRank(b, key, k)
    decreases |a|
  {
    if |a| == 0 {
      assert a + b == b;
    } else {
      assert (a + b)[1..] == a[1..] + b;
      WithRankConcat(a[1..], b, key, k);
    }
  }

  lemma {:induction false} WithRankAbsent<T>(s: seq<T>, key: T -> Rank, k: Rank)
    requires forall i | 0 <= i < |s| :: key(s[i]) != k
    ensures WithRank(s, key, k) == []
    decreases |s|
  {
    if |s| > 0 {
      WithRankAbsent(s[1..], key, k);
    }
  }

  lemma WithRankLast<T>(s: seq<T>, key: T -> Rank, k: Rank)
    requires |s| > 0
    ensures WithRank(s, key, k)
         == WithRank(s[..|s| - 1], key, k) + Own(s[|s| - 1], key, k)
  {
    var init, last := s[..|s| - 1], s[|s| - 1];
    WithRankConcat(init, [last], key, k);
    assert [last][1..] == [];
    assert s == init + [last];
  }

  lemma WithRankHead<T>(s: seq<T>, key: T -> Rank)
    requires |s| > 0
    ensures WithRank(s, key, key(s[0])) != []
  {
  }

  /** The first element of rank k is the earliest position holding that rank. */
  lemma {:induction false} WithRankFirst<T>(s: seq<T>, key: T -> Rank, k: Rank)
    requires |WithRank(s, key, k)| > 0
    ensures exists i | 0 <= i < |s| ::
      s[i] == WithRank(s, key, k)[0] && key(s[i]) == k && forall j | 0 <= j < i :: key(s[j]) != k
    decreases |s|
  {
    if key(s[0]) != k {
      WithRankFirst(s[1..], key, k);
      var i :| 0 <= i < |s[1..]| && s[1..][i] == WithRank(s[1..], key, k)[0]
        && key(s[1..][i]) == k && forall j | 0 <= j < i :: key(s[1..][j]) != k;
      assert s[i + 1] == s[1..][i];
      assert forall j | 0 < j <= i :: s[j] == s[1..][j - 1];
    } else {
      assert WithRank(s, key, k)[0] == s[0];
    }
  }

  /** Inserting x appends it to the elements of its own rank and leaves the
      other ranks alone. */
  lemma {:induction false} InsertStable<T>(x: T, s: seq<T>, key: T -> Rank, k: Rank)
    requires SortedBy(s, key)
    ensures WithRank(Insert(x, s, key), key, k)
         == WithRank(s, key, k) + Own(x, key, k)
    decreases |s|
  {
    if |s| == 0 {
      assert Insert(x, s, key) == [x];
    } else if Below(key(x), key(s[0])) {
      InsertFront(x, s, key, k);
    } else {
      SortedTail(s, key);
      InsertStable(x, s[1..], key, k);
      InsertBehind(x, s, key, k);
    }
  }

  lemma InsertUnfold<T>(x: T, s: seq<T>, key: T -> Rank)
    requires |s| > 0 && !Below(key(x), key(s[0]))
    ensures Insert(x, s, key) == [s[0]] + Insert(x, s[1..], key)
  {
  }

  /** Inserting behind the head: the head stays in front of what inserting
      into the tail gives. */
  lemma InsertBehind<T>(x: T, s: seq<T>, key: T -> Rank, k: Rank)
    requires |s| > 0 && !Below(key(x), key(s[0]))
    requires WithRank(Insert(x, s[1..], key), key, k)
          == WithRank(s[1..], key, k) + Own(x, key, k)
    ensures WithRank(Insert(x, s, key), key, k)
         == WithRank(s, key, k) + Own(x, key, k)
  {
    var rest := Insert(x, s[1..], key);
    InsertUnfold(x, s, key);
    WithRankCons(s[0], rest, key, k);
    WithRankUnfold(s, key, k);
    AppendAssoc(Own(s[0], key, k), WithRank(s[1..], key, k), Own(x, key, k));
  }

  lemma WithRankUnfold<T>(s: seq<T>, key: T -> Rank, k: Rank)
    requires |s| > 0
    ensures WithRank(s, key, k) == Own(s[0], key, k) + WithRank(s[1..], key, k)
  {
  }

  lemma AppendAssoc<T>(a: seq<T>, b: seq<T>, c: seq<T>)
    ensures a + (b + c) == (a + b) + c
  {
  }

  lemma WithRankCons<T>(a: T, s: seq<T>, key: T -> Rank, k: Rank)
    ensures WithRank([a] + s, key, k) == Own(a, key, k) + WithRank(s, key, k)
  {
    assert ([a] + s)[1..] == s;
  }

  /** Inserting in front of everything above x: nothing of x's rank is there. */
  lemma InsertFront<T>(x: T, s: seq<T>, key: T -> Rank, k: Rank)
    requires SortedBy(s, key) && |s| > 0 && Below(key(x), key(s[0]))
    ensures WithRank(Insert(x, s, key), key, k)
         == WithRank(s, key, k) + Own(x, key, k)
  {
    assert Insert(x, s, key) == [x] + s;
    WithRankCons(x, s, key, k);
    if key(x) == k {
      forall i | 0 <= i < |s| ensures key(s[i]) != k {
        if i > 0 {
          assert !Below(key(s[i]), key(s[0]));
        }
      }
      WithRankAbsent(s, key, k);
    }
  }

  /** The sort keeps the relative order of elements of equal rank. */
  lemma {:induction false} SortByStable<T>(s: seq<T>, key: T -> Rank, k: Rank)
    ensures WithRank(SortBy(s, key), key, k) == WithRank(s, key, k)
    decreases |s|
  {
    if |s| > 0 {
      var init, last := s[..|s| - 1], s[|s| - 1];
      var sorted := SortBy(init, key);
      assert SortBy(s, key) == Insert(last, sorted, key);
      SortByStable(init, key, k);
      InsertStable(last, sorted, key, k);
      WithRankLast(s, key, k);
    }
  }

  /** The first element of a non-empty sorted result ranks at or below every
      element of the input. */
  lemma SortByHeadIsLeast<T>(s: seq<T>, key: T -> Rank)
    requires |s| > 0
    ensures SortBy(s, key)[0] in s
    ensures forall y | y in s :: !Below(key(y), key(SortBy(s, key)[0]))
  {
    var r := SortBy(s, key);
    assert r[0] in multiset(s);
    forall y | y in s ensures !Below(key(y), key(r[0])) {
      assert y in multiset(r);
      var j :| 0 <= j < |r| && r[j] == y;
    }
  }

  /** Two sorted sequences that agree on the elements of every rank are equal:
      a stable sort has only one possible result. */
  lemma {:induction false} SortedUnique<T>(r1: seq<T>, r2: seq<T>, key: T -> Rank)
    requires SortedBy(r1, key) && SortedBy(r2, key)
    requires forall k :: WithRank(r1, key, k) == WithRank(r2, key, k)
    ensures r1 == r2
    decreases |r1|
  {
    if |r1| == 0 {
      if |r2| > 0 {
        WithRankHead(r2, key);
        assert false;
      }
    } else {
      var a := r1[0];
      var ka := key(a);
      if |r2| == 0 {
        WithRankHead(r1, key);
        assert false;
      }
      var b := r2[0];
      var kb := key(b);
      if Below(ka, kb) {
        WithRankAbsent(r2, key, ka);
        assert false;
      }
      if Below(kb, ka) {
        WithRankAbsent(r1, key, kb);
        assert false;
      }
      assert ka == kb;
      assert WithRank(r1, key, ka)[0] == a;
      assert WithRank(r2, key, ka)[0] == b;
      assert a == b;
      forall k ensures WithRank(r1[1..], key, k) == WithRank(r2[1..], key, k) {
        if ka == k {
          assert WithRank(r1[1..], key, k) == WithRank(r1, key, k)[1..];
          assert WithRank(r2[1..], key, k) == WithRank(r2, key, k)[1..];
        } else {
          assert WithRank(r1[1..], key, k) == WithRank(r1, key, k);
          assert WithRank(r2[1..], key, k) == WithRank(r2, key, k);
        }
      }
      SortedUnique(r1[1..], r2[1..], key);
      assert r1 == [a] + r1[1..] && r2 == [b] + r2[1..];
    }
  }

  /** Whatever stable sort produced r, it equals the insertion sort. */
  lemma StableSortUnique<T>(s: seq<T>, r: seq<T>, key: T -> Rank)
    requires SortedBy(r, key)
    requires forall k :: WithRank(r, key, k) == WithRank(s, key, k)
    ensures r == SortBy(s, key)
  {
    forall k ensures WithRank(r, key, k) == WithRank(SortBy(s, key), key, k) {
      SortByStable(s, key, k);
    }
    SortedUnique(r, SortBy(s, key), key);
  }
}
