/**
 * The list operations the stages of `filterAndDisplayLocations` are built
 * from: the order-preserving `Array.prototype.filter`, and the proximity
 * ranking `.sort((a, b) => a.distance - b.distance).slice(0, 10)`.
 *
 * `sort` is stable (ECMAScript 2019 and later). The comparator returns the
 * difference of two distances; `Infinity - Infinity` is NaN, which `sort`
 * reads as +0, so two records without coordinates compare equal. The sort is
 * modelled as an insertion sort; `SortByUnique` shows that any stable sort
 * under this comparator yields the same sequence.
 */
module Ranking {
  import opened Sequences

  // -------------------------------------------------------------------------
  // filter

  /** `s.filter(p)`. */
  function Filter<T>(s: seq<T>, p: T -> bool): (r: seq<T>)
    ensures |r| <= |s|
    ensures forall i :: 0 <= i < |r| ==> p(r[i]) && r[i] in s
  {
    if s == [] then []
    else if p(s[0]) then [s[0]] + Filter(s[1..], p)
    else Filter(s[1..], p)
  }

  /** `filter` keeps the elements it keeps in their original order. */
  lemma {:induction false} FilterIsSubsequence<T>(s: seq<T>, p: T -> bool)
    ensures IsSubsequence(Filter(s, p), s)
  {
    if s != [] {
      FilterIsSubsequence(s[1..], p);
      if !p(s[0]) {
        SkipHead(Filter(s[1..], p), s);
      }
    }
  }

  /** How many copies of `x` survive the filter: all of them when `p(x)`,
      none otherwise. */
  lemma {:induction false} FilterCount<T>(s: seq<T>, p: T -> bool, x: T)
    ensures multiset(Filter(s, p))[x] == if p(x) then multiset(s)[x] else 0
  {
    if s != [] {
      FilterCount(s[1..], p, x);
      assert s == [s[0]] + s[1..];
    }
  }

  /** `filter` never adds copies: the result is a sub-multiset of the input. */
  lemma FilterSubMultiset<T>(s: seq<T>, p: T -> bool)
    ensures multiset(Filter(s, p)) <= multiset(s)
  {
    forall x ensures multiset(Filter(s, p))[x] <= multiset(s)[x] {
      FilterCount(s, p, x);
    }
  }

  /** `filter` keeps exactly the elements that pass its test. */
  lemma FilterContains<T>(s: seq<T>, p: T -> bool, x: T)
    ensures x in Filter(s, p) <==> x in s && p(x)
  {
    FilterCount(s, p, x);
    assert x in Filter(s, p) <==> x in multiset(Filter(s, p));
    assert x in s <==> x in multiset(s);
  }

  /** A test and its negation split a sequence between them. */
  lemma {:induction false} FilterPartition<T>(s: seq<T>, p: T -> bool, q: T -> bool)
    requires forall x :: q(x) == !p(x)
    ensures |Filter(s, p)| + |Filter(s, q)| == |s|
  {
    if s != [] {
      FilterPartition(s[1..], p, q);
    }
  }

  /** A filter whose test every element passes changes nothing. */
  lemma {:induction false} FilterKeepsAll<T>(s: seq<T>, p: T -> bool)
    requires forall i :: 0 <= i < |s| ==> p(s[i])
    ensures Filter(s, p) == s
  {
    if s != [] {
      FilterKeepsAll(s[1..], p);
    }
  }

  /** Filters by tests that agree on every element agree. */
  lemma {:induction false} FilterSame<T>(s: seq<T>, p: T -> bool, q: T -> bool)
    requires forall x :: p(x) == q(x)
    ensures Filter(s, p) == Filter(s, q)
  {
    if s != [] {
      FilterSame(s[1..], p, q);
    }
  }

  /** Two filters in a row are one filter by the conjunction. */
  lemma {:induction false} FilterFilter<T>(s: seq<T>, p: T -> bool, q: T -> bool, pq: T -> bool)
    requires forall x :: pq(x) == (p(x) && q(x))
    ensures Filter(Filter(s, p), q) == Filter(s, pq)
  {
    if s != [] {
      FilterFilter(s[1..], p, q, pq);
      if p(s[0]) {
        assert Filter(s, p) == [s[0]] + Filter(s[1..], p);
        assert Filter(s, p)[1..] == Filter(s[1..], p);
      }
    }
  }

  // -------------------------------------------------------------------------
  // The distance comparator

  /** A distance: a finite number, or `Infinity` for a record without
      coordinates. */
  datatype Rank = Finite(d: real) | Infinite

  /** The sign of `a.distance - b.distance` as `sort` reads it: the NaN of
      `Infinity - Infinity` counts as +0. */
  function Compare(a: Rank, b: Rank): (c: int)
    ensures -1 <= c <= 1
    ensures c == 0 <==> a == b
    ensures a.Finite? && b.Finite? ==> (c < 0 <==> a.d < b.d) && (c > 0 <==> a.d > b.d)
    ensures a.Finite? && b.Infinite? ==> c == -1
    ensures a.Infinite? && b.Finite? ==> c == 1
  {
    match (a, b)
    case (Infinite, Infinite) => 0
    case (Infinite, Finite(_)) => 1
    case (Finite(_), Infinite) => -1
    case (Finite(x), Finite(y)) => if x < y then -1 else if x == y then 0 else 1
  }

  /** `a` may stay ahead of `b`. */
  predicate RankLe(a: Rank, b: Rank)
  {
    Compare(a, b) <= 0
  }

  /** The comparator is consistent: swapping its arguments flips the sign,
      and "no later than" is a total order, with every finite distance
      ahead of `Infinity`. */
  lemma CompareConsistent(a: Rank, b: Rank, c: Rank)
    ensures Compare(a, b) == -Compare(b, a)
    ensures RankLe(a, b) || RankLe(b, a)
    ensures RankLe(a, b) && RankLe(b, c) ==> RankLe(a, c)
    ensures a.Finite? ==> RankLe(a, Infinite) && !RankLe(Infinite, a)
  {
  }

  // -------------------------------------------------------------------------
  // The stable sort

  /** Non-decreasing in the key. */
  predicate Sorted<T>(s: seq<T>, key: T -> Rank)
  {
    forall i, j :: 0 <= i < j < |s| ==> RankLe(key(s[i]), key(s[j]))
  }

  /** The elements of `s` whose key is `v`, in their order. */
  function WithKey<T>(s: seq<T>, key: T -> Rank, v: Rank): (r: seq<T>)
    ensures |r| <= |s|
    ensures forall i :: 0 <= i < |r| ==> key(r[i]) == v
  {
    if s == [] then []
    else if key(s[0]) == v then [s[0]] + WithKey(s[1..], key, v)
    else WithKey(s[1..], key, v)
  }

  /** `x` placed ahead of the first element that does not rank strictly
      before it. */
  function Insert<T>(x: T, s: seq<T>, key: T -> Rank): (r: seq<T>)
    ensures |r| == |s| + 1
    ensures multiset(r) == multiset(s) + multiset{x}
  {
    if s == [] || RankLe(key(x), key(s[0])) then [x] + s
    else
      assert s == [s[0]] + s[1..];
      [s[0]] + Insert(x, s[1..], key)
  }

  /** `s.sort((a, b) => key(a) - key(b))`: a permutation of `s`. */
  function SortBy<T>(s: seq<T>, key: T -> Rank): (r: seq<T>)
    ensures |r| == |s|
    ensures multiset(r) == multiset(s)
  {
    if s == [] then []
    else
      assert s == [s[0]] + s[1..];
      Insert(s[0], SortBy(s[1..], key), key)
  }

  lemma {:induction false} InsertSorted<T>(x: T, s: seq<T>, key: T -> Rank)
    requires Sorted(s, key)
    ensures Sorted(Insert(x, s, key), key)
    ensures Insert(x, s, key)[0] == x || (s != [] && Insert(x, s, key)[0] == s[0])
  {
    if s != [] && !RankLe(key(x), key(s[0])) {
      var t := Insert(x, s[1..], key);
      InsertSorted(x, s[1..], key);
      CompareConsistent(key(x), key(s[0]), key(s[0]));
      forall j | 0 <= j < |t|
        ensures RankLe(key(s[0]), key(t[j]))
      {
        assert t[j] in multiset(s[1..]) + multiset{x};
        if t[j] == x {
        } else {
          assert t[j] in s[1..];
          var k :| 0 <= k < |s[1..]| && s[1..][k] == t[j];
          assert s[k + 1] == t[j];
        }
      }
    }
  }

  /** The sort's result is non-decreasing in the key. */
  lemma {:induction false} SortBySorted<T>(s: seq<T>, key: T -> Rank)
    ensures Sorted(SortBy(s, key), key)
  {
    if s != [] {
      SortBySorted(s[1..], key);
      InsertSorted(s[0], SortBy(s[1..], key), key);
    }
  }

  lemma {:induction false} InsertWithKey<T>(x: T, s: seq<T>, key: T -> Rank, v: Rank)
    ensures WithKey(Insert(x, s, key), key, v) ==
      (if key(x) == v then [x] + WithKey(s, key, v) else WithKey(s, key, v))
  {
    if s != [] && !RankLe(key(x), key(s[0])) {
      InsertWithKey(x, s[1..], key, v);
      assert key(s[0]) != key(x);
    }
  }

  /** Stability: among records at the same distance, the sort keeps the
      order they came in. */
  lemma {:induction false} SortByStable<T>(s: seq<T>, key: T -> Rank, v: Rank)
    ensures WithKey(SortBy(s, key), key, v) == WithKey(s, key, v)
  {
    if s != [] {
      SortByStable(s[1..], key, v);
      InsertWithKey(s[0], SortBy(s[1..], key), key, v);
    }
  }

  /** Sorting an already sorted sequence changes nothing. */
  lemma {:induction false} SortBySortedInput<T>(s: seq<T>, key: T -> Rank)
    requires Sorted(s, key)
    ensures SortBy(s, key) == s
  {
    if s != [] {
      assert Sorted(s[1..], key) by {
        forall i, j | 0 <= i < j < |s[1..]|
          ensures RankLe(key(s[1..][i]), key(s[1..][j]))
        {
          assert s[1..][i] == s[i + 1] && s[1..][j] == s[j + 1];
        }
      }
      SortBySortedInput(s[1..], key);
      assert s == [s[0]] + s[1..];
    }
  }

  /** Any sorted sequence with the same records per distance, in the same
      order, is the sort's result: a stable sort under this comparator is
      unique, so the insertion sort stands for whichever algorithm `sort`
      uses. */
  lemma {:induction false} SortByUnique<T>(s: seq<T>, r: seq<T>, key: T -> Rank)
    requires Sorted(r, key)
    requires forall v :: WithKey(r, key, v) == WithKey(s, key, v)
    ensures r == SortBy(s, key)
  {
    var q := SortBy(s, key);
    SortBySorted(s, key);
    forall v ensures WithKey(r, key, v) == WithKey(q, key, v) {
      SortByStable(s, key, v);
    }
    SortedSameGroups(r, q, key);
  }

  /** Two sorted sequences that agree on every key's group are equal. */
  lemma {:induction false} SortedSameGroups<T>(r: seq<T>, q: seq<T>, key: T -> Rank)
    requires Sorted(r, key) && Sorted(q, key)
    requires forall v :: WithKey(r, key, v) == WithKey(q, key, v)
    ensures r == q
    decreases |r|
  {
    if r == [] {
      if q != [] {
        FirstHasKey(q, key);
        assert false;
      }
    } else if q == [] {
      FirstHasKey(r, key);
      assert false;
    } else {
      var a, b := key(r[0]), key(q[0]);
      HasKeyLater(r, key, b);
      HasKeyLater(q, key, a);
      CompareConsistent(a, b, a);
      assert a == b;
      assert WithKey(r, key, a)[0] == r[0] && WithKey(q, key, a)[0] == q[0];
      assert r[0] == q[0];
      forall v ensures WithKey(r[1..], key, v) == WithKey(q[1..], key, v) {
        assert WithKey(r, key, v) == WithKey(q, key, v);
        if a == v {
          assert WithKey(r, key, v)[1..] == WithKey(r[1..], key, v);
          assert WithKey(q, key, v)[1..] == WithKey(q[1..], key, v);
        }
      }
      SortedTail(r, key);
      SortedTail(q, key);
      SortedSameGroups(r[1..], q[1..], key);
      assert r == [r[0]] + r[1..] && q == [q[0]] + q[1..];
    }
  }

  lemma FirstHasKey<T>(s: seq<T>, key: T -> Rank)
    requires s != []
    ensures WithKey(s, key, key(s[0])) != []
  {
  }

  /** In a sorted sequence, a key that occurs at all is no earlier than the
      first element's. */
  lemma HasKeyLater<T>(s: seq<T>, key: T -> Rank, v: Rank)
    requires s != [] && Sorted(s, key) && WithKey(s, key, v) != []
    ensures RankLe(key(s[0]), v)
  {
    var k := WithKeyIndex(s, key, v);
    CompareConsistent(key(s[0]), key(s[0]), key(s[0]));
    assert k == 0 || RankLe(key(s[0]), key(s[k]));
  }

  lemma {:induction false} WithKeyIndex<T>(s: seq<T>, key: T -> Rank, v: Rank) returns (k: nat)
    requires WithKey(s, key, v) != []
    ensures k < |s| && key(s[k]) == v
  {
    if key(s[0]) == v {
      k := 0;
    } else {
      var k' := WithKeyIndex(s[1..], key, v);
      k := k' + 1;
    }
  }

  lemma SortedTail<T>(s: seq<T>, key: T -> Rank)
    requires s != [] && Sorted(s, key)
    ensures Sorted(s[1..], key)
  {
    forall i, j | 0 <= i < j < |s[1..]|
      ensures RankLe(key(s[1..][i]), key(s[1..][j]))
    {
      assert s[1..][i] == s[i + 1] && s[1..][j] == s[j + 1];
    }
  }

  // -------------------------------------------------------------------------
  // slice(0, 10)

  /** How many records a proximity stage keeps. */
  const Limit: nat := 10

  /** `s.slice(0, 10)`: the first ten, or all when there are fewer. */
  function Top<T>(s: seq<T>): seq<T>
  {
    if |s| < Limit then s else s[..Limit]
  }

  /** The ranked stage: stable sort by the key, then the first ten. Every
      record kept ranks no later than every record dropped, and records at
      the same distance keep their order. */
  function Nearest<T>(s: seq<T>, key: T -> Rank): (r: seq<T>)
    ensures |r| == if |s| < Limit then |s| else Limit
    ensures multiset(r) <= multiset(s)
  {
    var sorted := SortBy(s, key);
    assert sorted == Top(sorted) + sorted[|Top(sorted)|..];
    Top(sorted)
  }

  /** What `Nearest` promises about order: the kept records are sorted and no
      dropped record is strictly closer than a kept one. */
  lemma NearestKeepsClosest<T>(s: seq<T>, key: T -> Rank)
    ensures Sorted(Nearest(s, key), key)
    ensures forall x, y :: x in Nearest(s, key) && y in multiset(s) - multiset(Nearest(s, key)) ==>
      RankLe(key(x), key(y))
  {
    var sorted := SortBy(s, key);
    var r := Nearest(s, key);
    SortBySorted(s, key);
    assert sorted == r + sorted[|r|..];
    forall x, y | x in r && y in multiset(s) - multiset(r)
      ensures RankLe(key(x), key(y))
    {
      var i :| 0 <= i < |r| && r[i] == x;
      assert multiset(sorted) == multiset(r) + multiset(sorted[|r|..]);
      assert y in sorted[|r|..];
      var j :| 0 <= j < |sorted[|r|..]| && sorted[|r|..][j] == y;
      assert sorted[|r| + j] == y;
    }
  }

  /** Records with a finite distance come before every record at `Infinity`:
      when there are at least ten with a distance, none without one is kept,
      and otherwise all the ones with a distance are kept. */
  lemma NearestFiniteFirst<T>(s: seq<T>, key: T -> Rank)
    ensures forall i, j :: 0 <= i < j < |Nearest(s, key)| && key(Nearest(s, key)[j]).Finite? ==>
      key(Nearest(s, key)[i]).Finite?
    ensures forall x :: x in multiset(s) - multiset(Nearest(s, key)) && key(x).Finite? ==>
      forall i :: 0 <= i < |Nearest(s, key)| ==> key(Nearest(s, key)[i]).Finite?
  {
    var r := Nearest(s, key);
    NearestKeepsClosest(s, key);
    forall i, j | 0 <= i < j < |r| && key(r[j]).Finite?
      ensures key(r[i]).Finite?
    {
      assert RankLe(key(r[i]), key(r[j]));
    }
    forall x | x in multiset(s) - multiset(r) && key(x).Finite?
      ensures forall i :: 0 <= i < |r| ==> key(r[i]).Finite?
    {
      forall i | 0 <= i < |r| ensures key(r[i]).Finite? {
        assert r[i] in r;
        assert RankLe(key(r[i]), key(x));
      }
    }
  }

  /** Records at the same distance stay in list order through the stage:
      those kept are the first of them in the input. */
  lemma NearestStable<T>(s: seq<T>, key: T -> Rank, v: Rank)
    ensures WithKey(Nearest(s, key), key, v) <= WithKey(s, key, v)
  {
    var sorted := SortBy(s, key);
    SortByStable(s, key, v);
    WithKeyOfPrefix(sorted, |Nearest(s, key)|, key, v);
  }

  lemma {:induction false} WithKeyOfPrefix<T>(s: seq<T>, n: nat, key: T -> Rank, v: Rank)
    requires n <= |s|
    ensures WithKey(s[..n], key, v) <= WithKey(s, key, v)
  {
    if n > 0 {
      assert s[..n][0] == s[0] && s[..n][1..] == s[1..][..n - 1];
      WithKeyOfPrefix(s[1..], n - 1, key, v);
    }
  }

  /** With ten records or fewer nothing is dropped: the stage only reorders. */
  lemma NearestReorders<T>(s: seq<T>, key: T -> Rank)
    requires |s| <= Limit
    ensures multiset(Nearest(s, key)) == multiset(s)
  {
    assert SortBy(s, key)[..|s|] == SortBy(s, key);
  }
}
