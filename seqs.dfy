/** Sequence operations that stand for the query builder's `where`, `sum`, `orderBy`,
    `distinct`, `limit` and `first`, with the facts the reports and listings rely on. */
module Seqs {
  import opened Wrappers

  // ---------------------------------------------------------------- where

  function Filter<T>(s: seq<T>, p: T -> bool): (r: seq<T>)
    ensures |r| <= |s|
    ensures forall i :: 0 <= i < |r| ==> r[i] in s && p(r[i])
    ensures forall i :: 0 <= i < |s| && p(s[i]) ==> s[i] in r
  {
    if s == [] then [] else (if p(s[0]) then [s[0]] else []) + Filter(s[1..], p)
  }

  lemma {:induction false} FilterAppend<T>(a: seq<T>, b: seq<T>, p: T -> bool)
    ensures Filter(a + b, p) == Filter(a, p) + Filter(b, p)
  {
    if a == [] {
      assert a + b == b;
    } else {
      assert (a + b)[1..] == a[1..] + b;
      FilterAppend(a[1..], b, p);
    }
  }

  /** A `where` clause that a request parameter may switch off. */
  function FilterIf<T>(on: bool, s: seq<T>, p: T -> bool): seq<T>
  {
    if on then Filter(s, p) else s
  }

  /** Helper of the report filters: a switched-off clause keeps every row, a switched-on
      one keeps exactly the rows that pass. */
  lemma FilterIfSpec<T>(on: bool, s: seq<T>, p: T -> bool)
    ensures forall x :: x in FilterIf(on, s, p) <==> x in s && (on ==> p(x))
    ensures multiset(FilterIf(on, s, p)) <= multiset(s)
  {
    if on {
      FilterMultiset(s, p);
      forall x | x in Filter(s, p) ensures x in s && p(x) {
        var i :| 0 <= i < |Filter(s, p)| && Filter(s, p)[i] == x;
      }
      forall x | x in s && p(x) ensures x in Filter(s, p) {
        var i :| 0 <= i < |s| && s[i] == x;
      }
    }
  }

  lemma {:induction false} FilterNone<T>(s: seq<T>, p: T -> bool)
    requires forall k :: 0 <= k < |s| ==> !p(s[k])
    ensures Filter(s, p) == []
  {
    if s != [] {
      FilterNone(s[1..], p);
    }
  }

  lemma {:induction false} FilterAll<T>(s: seq<T>, p: T -> bool)
    requires forall k :: 0 <= k < |s| ==> p(s[k])
    ensures Filter(s, p) == s
  {
    if s != [] {
      FilterAll(s[1..], p);
    }
  }

  lemma {:induction false} FilterMultiset<T>(s: seq<T>, p: T -> bool)
    ensures multiset(Filter(s, p)) <= multiset(s)
  {
    if s != [] {
      FilterMultiset(s[1..], p);
      var head := if p(s[0]) then [s[0]] else [];
      assert Filter(s, p) == head + Filter(s[1..], p);
      assert s == [s[0]] + s[1..];
      assert multiset(s) == multiset([s[0]]) + multiset(s[1..]);
      assert multiset(head) <= multiset([s[0]]);
    }
  }

  /** Two conditions no element meets together select at most all the elements. */
  lemma {:induction false} FilterDisjoint<T>(s: seq<T>, p: T -> bool, q: T -> bool)
    requires forall k :: 0 <= k < |s| ==> !(p(s[k]) && q(s[k]))
    ensures |Filter(s, p)| + |Filter(s, q)| <= |s|
  {
    if s != [] {
      FilterDisjoint(s[1..], p, q);
    }
  }

  // ---------------------------------------------------------------- map, pluck

  function Map<T, U>(s: seq<T>, f: T -> U): (r: seq<U>)
    ensures |r| == |s|
    ensures forall i :: 0 <= i < |s| ==> r[i] == f(s[i])
  {
    if s == [] then [] else [f(s[0])] + Map(s[1..], f)
  }

  // ---------------------------------------------------------------- sum

  function SumOf<T>(s: seq<T>, f: T -> int): int
  {
    if s == [] then 0 else f(s[0]) + SumOf(s[1..], f)
  }

  lemma {:induction false} SumAppend<T>(a: seq<T>, b: seq<T>, f: T -> int)
    ensures SumOf(a + b, f) == SumOf(a, f) + SumOf(b, f)
  {
    if a == [] {
      assert a + b == b;
    } else {
      assert (a + b)[1..] == a[1..] + b;
      SumAppend(a[1..], b, f);
    }
  }

  lemma {:induction false} SumNonNegative<T>(s: seq<T>, f: T -> int)
    requires forall x :: x in s ==> f(x) >= 0
    ensures SumOf(s, f) >= 0
  {
    if s != [] {
      SumNonNegative(s[1..], f);
    }
  }

  // ---------------------------------------------------------------- first, max id

  /** The position of the first element satisfying `p` (the row `first()` returns). */
  function IndexWhere<T>(s: seq<T>, p: T -> bool): (r: Option<nat>)
    ensures r.Some? ==> r.value < |s| && p(s[r.value]) && forall j :: 0 <= j < r.value ==> !p(s[j])
    ensures r.None? <==> forall j :: 0 <= j < |s| ==> !p(s[j])
  {
    if s == [] then None
    else if p(s[0]) then Some(0)
    else match IndexWhere(s[1..], p)
      case None => None
      case Some(k) => Some(k + 1)
  }

  /** An auto-increment id: one more than every id in use. */
  function NextId<T>(s: seq<T>, id: T -> nat): (r: nat)
    ensures r >= 1
    ensures forall i :: 0 <= i < |s| ==> id(s[i]) < r
  {
    if s == [] then 1
    else
      var rest := NextId(s[1..], id);
      assert forall i :: 1 <= i < |s| ==> id(s[i]) == id(s[1..][i - 1]);
      if id(s[0]) + 1 > rest then id(s[0]) + 1 else rest
  }

  // ---------------------------------------------------------------- orderBy

  predicate SortedBy<T>(s: seq<T>, le: (T, T) -> bool)
  {
    forall i, j :: 0 <= i < j < |s| ==> le(s[i], s[j])
  }

  /** `le` is a total preorder on the elements of `s`: what an ORDER BY key gives. */
  ghost predicate TotalPreorderOn<T>(s: seq<T>, le: (T, T) -> bool)
  {
    && (forall a, b :: a in s && b in s ==> le(a, b) || le(b, a))
    && (forall a, b, c :: a in s && b in s && c in s && le(a, b) && le(b, c) ==> le(a, c))
  }

  function Insert<T>(x: T, s: seq<T>, le: (T, T) -> bool): (r: seq<T>)
    ensures multiset(r) == multiset(s) + multiset{x}
    ensures |r| == |s| + 1
  {
    if s == [] then [x]
    else if le(x, s[0]) then [x] + s
    else
      assert s == [s[0]] + s[1..];
      [s[0]] + Insert(x, s[1..], le)
  }

  /** A stable insertion sort: the order `orderBy` returns, ties in storage order. */
  function SortBy<T>(s: seq<T>, le: (T, T) -> bool): (r: seq<T>)
    ensures multiset(r) == multiset(s)
    ensures |r| == |s|
  {
    if s == [] then []
    else
      assert s == [s[0]] + s[1..];
      Insert(s[0], SortBy(s[1..], le), le)
  }

  /** An element ordered before every element of a sorted sequence can be put in front. */
  lemma ConsSorted<T>(a: T, t: seq<T>, le: (T, T) -> bool)
    requires SortedBy(t, le)
    requires forall k :: 0 <= k < |t| ==> le(a, t[k])
    ensures SortedBy([a] + t, le)
  {
    var r := [a] + t;
    forall i, j | 0 <= i < j < |r| ensures le(r[i], r[j]) {
      if i == 0 {
        assert r[j] == t[j - 1];
      } else {
        assert r[i] == t[i - 1] && r[j] == t[j - 1];
      }
    }
  }

  lemma {:induction false} InsertSorted<T>(x: T, s: seq<T>, le: (T, T) -> bool)
    requires SortedBy(s, le)
    requires TotalPreorderOn([x] + s, le)
    ensures SortedBy(Insert(x, s, le), le)
  {
    if s == [] {
    } else if le(x, s[0]) {
      forall k | 0 <= k < |s| ensures le(x, s[k]) {
        if k > 0 {
          assert le(s[0], s[k]);
          assert s[0] in [x] + s && s[k] in [x] + s;
        }
      }
      ConsSorted(x, s, le);
    } else {
      assert le(s[0], x) by {
        assert s[0] in [x] + s;
      }
      var tail := s[1..];
      assert SortedBy(tail, le) by {
        forall i, j | 0 <= i < j < |tail| ensures le(tail[i], tail[j]) {
          assert tail[i] == s[i + 1] && tail[j] == s[j + 1];
        }
      }
      forall a | a in [x] + tail ensures a in [x] + s {
        if a in tail { assert a in s; }
      }
      InsertSorted(x, tail, le);
      var ins := Insert(x, tail, le);
      forall k | 0 <= k < |ins| ensures le(s[0], ins[k]) {
        assert ins[k] in multiset(ins);
        assert ins[k] in multiset(tail) + multiset{x};
        if ins[k] in multiset(tail) {
          assert ins[k] in tail;
          var m :| 0 <= m < |tail| && tail[m] == ins[k];
          assert s[m + 1] == ins[k];
        }
      }
      ConsSorted(s[0], ins, le);
    }
  }

  lemma {:induction false} SortBySorted<T>(s: seq<T>, le: (T, T) -> bool)
    requires TotalPreorderOn(s, le)
    ensures SortedBy(SortBy(s, le), le)
  {
    if s != [] {
      var tail := s[1..];
      assert forall a :: a in tail ==> a in s;
      SortBySorted(tail, le);
      var sorted := SortBy(tail, le);
      forall a | a in [s[0]] + sorted ensures a in s {
        if a in sorted {
          assert a in multiset(sorted);
          assert a in multiset(tail);
        }
      }
      InsertSorted(s[0], sorted, le);
    }
  }

  /** `limit(n)` */
  function Take<T>(s: seq<T>, n: nat): (r: seq<T>)
    ensures |r| <= n && |r| <= |s|
    ensures |s| <= n ==> r == s
    ensures r == s[..|r|]
  {
    if |s| <= n then s else s[..n]
  }

  /** A prefix holds each element at most as often as the whole sequence. */
  lemma TakeSubMultiset<T>(s: seq<T>, n: nat)
    ensures multiset(Take(s, n)) <= multiset(s)
  {
    var r := Take(s, n);
    assert s == r + s[|r|..];
    assert multiset(s) == multiset(r) + multiset(s[|r|..]);
  }

  // ---------------------------------------------------------------- distinct + orderBy

  /** `lt` is a strict total order on the elements of `s`. */
  ghost predicate StrictTotalOn<T>(s: seq<T>, lt: (T, T) -> bool)
  {
    && (forall a :: a in s ==> !lt(a, a))
    && (forall a, b :: a in s && b in s && a != b ==> lt(a, b) || lt(b, a))
    && (forall a, b, c :: a in s && b in s && c in s && lt(a, b) && lt(b, c) ==> lt(a, c))
  }

  predicate StrictlyIncreasing<T>(s: seq<T>, lt: (T, T) -> bool)
  {
    forall i, j :: 0 <= i < j < |s| ==> lt(s[i], s[j])
  }

  function InsertUnique<T(==)>(x: T, s: seq<T>, lt: (T, T) -> bool): (r: seq<T>)
    ensures x in r
    ensures forall i :: 0 <= i < |s| ==> s[i] in r
    ensures forall i :: 0 <= i < |r| ==> r[i] == x || r[i] in s
  {
    if s == [] then [x]
    else if x == s[0] then s
    else if lt(x, s[0]) then [x] + s
    else [s[0]] + InsertUnique(x, s[1..], lt)
  }

  /** `select distinct ... orderBy`: every value once, in ascending order. */
  function SortedDistinct<T(==)>(s: seq<T>, lt: (T, T) -> bool): (r: seq<T>)
    ensures forall i :: 0 <= i < |s| ==> s[i] in r
    ensures forall i :: 0 <= i < |r| ==> r[i] in s
  {
    if s == [] then [] else InsertUnique(s[0], SortedDistinct(s[1..], lt), lt)
  }

  /** An element below every element of an increasing sequence can be put in front. */
  lemma ConsIncreasing<T>(a: T, t: seq<T>, lt: (T, T) -> bool)
    requires StrictlyIncreasing(t, lt)
    requires forall k :: 0 <= k < |t| ==> lt(a, t[k])
    ensures StrictlyIncreasing([a] + t, lt)
  {
    var r := [a] + t;
    forall i, j | 0 <= i < j < |r| ensures lt(r[i], r[j]) {
      if i == 0 {
        assert r[j] == t[j - 1];
      } else {
        assert r[i] == t[i - 1] && r[j] == t[j - 1];
      }
    }
  }

  lemma {:induction false} InsertUniqueIncreasing<T>(x: T, s: seq<T>, lt: (T, T) -> bool)
    requires StrictlyIncreasing(s, lt)
    requires StrictTotalOn([x] + s, lt)
    ensures StrictlyIncreasing(InsertUnique(x, s, lt), lt)
  {
    if s == [] || x == s[0] {
    } else if lt(x, s[0]) {
      forall k | 0 <= k < |s| ensures lt(x, s[k]) {
        if k > 0 {
          assert lt(s[0], s[k]);
          assert s[0] in [x] + s && s[k] in [x] + s;
        }
      }
      ConsIncreasing(x, s, lt);
    } else {
      assert lt(s[0], x);
      var tail := s[1..];
      assert StrictlyIncreasing(tail, lt) by {
        forall i, j | 0 <= i < j < |tail| ensures lt(tail[i], tail[j]) {
          assert tail[i] == s[i + 1] && tail[j] == s[j + 1];
        }
      }
      forall a | a in [x] + tail ensures a in [x] + s {
        if a in tail { assert a in s; }
      }
      InsertUniqueIncreasing(x, tail, lt);
      var ins := InsertUnique(x, tail, lt);
      forall k | 0 <= k < |ins| ensures lt(s[0], ins[k]) {
        if ins[k] != x {
          var m :| 0 <= m < |tail| && tail[m] == ins[k];
          assert s[m + 1] == ins[k];
        }
      }
      ConsIncreasing(s[0], ins, lt);
    }
  }

  lemma {:induction false} SortedDistinctIncreasing<T>(s: seq<T>, lt: (T, T) -> bool)
    requires StrictTotalOn(s, lt)
    ensures StrictlyIncreasing(SortedDistinct(s, lt), lt)
  {
    if s != [] {
      var tail := s[1..];
      assert forall a :: a in tail ==> a in s;
      SortedDistinctIncreasing(tail, lt);
      InsertUniqueIncreasing(s[0], SortedDistinct(tail, lt), lt);
    }
  }

  /** A strictly increasing sequence has no value twice. */
  lemma IncreasingDistinct<T>(s: seq<T>, lt: (T, T) -> bool)
    requires StrictlyIncreasing(s, lt)
    requires forall a :: a in s ==> !lt(a, a)
    ensures forall i, j :: 0 <= i < j < |s| ==> s[i] != s[j]
  {
    forall i, j | 0 <= i < j < |s| ensures s[i] != s[j] {
      assert lt(s[i], s[j]);
      assert s[i] in s;
    }
  }
}
