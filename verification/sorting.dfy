/** Filtering and stable sorting of sequences under a total preorder.

    `java.util.List.sort` is a stable merge sort: elements the comparator
    considers equal keep their relative order. `SortBy` below is a stable
    insertion sort, so for a given comparator it yields exactly the sequence
    Java's sort yields. */
module Sorting {

  /** `le` is a total preorder: the "compare(a, b) <= 0" of a Java comparator. */
  ghost predicate TotalPreorder<T(!new)>(le: (T, T) -> bool) {
    && (forall x, y :: le(x, y) || le(y, x))
    && (forall x, y, z :: le(x, y) && le(y, z) ==> le(x, z))
  }

  ghost predicate SortedBy<T>(s: seq<T>, le: (T, T) -> bool) {
    forall i, j :: 0 <= i < j < |s| ==> le(s[i], s[j])
  }

  /** The elements of `s` satisfying `keep`, in their original order. */
  function Select<T(!new)>(s: seq<T>, keep: T -> bool): (r: seq<T>)
    ensures |r| <= |s|
    ensures forall x :: x in r <==> x in s && keep(x)
  {
    if |s| == 0 then []
    else if keep(s[0]) then [s[0]] + Select(s[1..], keep)
    else Select(s[1..], keep)
  }

  lemma {:induction false} SelectMultiplicity<T(!new)>(s: seq<T>, keep: T -> bool, x: T)
    ensures multiset(Select(s, keep))[x] == if keep(x) then multiset(s)[x] else 0
  {
    if |s| > 0 {
      SelectMultiplicity(s[1..], keep, x);
      assert s == [s[0]] + s[1..];
    }
  }

  lemma {:induction false} SelectAppend<T(!new)>(a: seq<T>, b: seq<T>, keep: T -> bool)
    ensures Select(a + b, keep) == Select(a, keep) + Select(b, keep)
  {
    if |a| > 0 {
      assert (a + b)[1..] == a[1..] + b;
      SelectAppend(a[1..], b, keep);
    } else {
      assert a + b == b;
    }
  }

  /** Filters that agree on every element of `s` select the same elements. */
  lemma {:induction false} SelectCongruent<T(!new)>(s: seq<T>, p: T -> bool, q: T -> bool)
    requires forall i :: 0 <= i < |s| ==> p(s[i]) == q(s[i])
    ensures Select(s, p) == Select(s, q)
  {
    if |s| > 0 {
      SelectCongruent(s[1..], p, q);
    }
  }

  /** Inserts `x` before the first element it does not follow, i.e. before
      every element that is not strictly smaller. */
  function Insert<T(!new)>(x: T, s: seq<T>, le: (T, T) -> bool): (r: seq<T>)
    requires TotalPreorder(le)
    requires SortedBy(s, le)
    ensures multiset(r) == multiset(s) + multiset{x}
    ensures SortedBy(r, le)
  {
    if |s| == 0 || le(x, s[0]) then
      [x] + s
    else
      var tail := Insert(x, s[1..], le);
      assert s == [s[0]] + s[1..];
      HeadPrecedesInsertion(x, s, tail, le);
      SortedCons(s[0], tail, le);
      [s[0]] + tail
  }

  lemma SortedCons<T>(h: T, s: seq<T>, le: (T, T) -> bool)
    requires SortedBy(s, le)
    requires forall k :: 0 <= k < |s| ==> le(h, s[k])
    ensures SortedBy([h] + s, le)
  {
    var r := [h] + s;
    forall i, j | 0 <= i < j < |r| ensures le(r[i], r[j]) {
      assert r[j] == s[j - 1];
      if i > 0 {
        assert r[i] == s[i - 1];
      }
    }
  }

  /** When `x` goes after the head of sorted `s`, the head precedes
      everything the insertion into the rest produces. */
  lemma HeadPrecedesInsertion<T(!new)>(x: T, s: seq<T>, tail: seq<T>, le: (T, T) -> bool)
    requires TotalPreorder(le)
    requires SortedBy(s, le)
    requires |s| > 0 && !le(x, s[0])
    requires multiset(tail) == multiset(s[1..]) + multiset{x}
    ensures forall k :: 0 <= k < |tail| ==> le(s[0], tail[k])
  {
    forall k | 0 <= k < |tail|
      ensures le(s[0], tail[k])
    {
      assert tail[k] in multiset(tail);
      if tail[k] != x {
        assert tail[k] in multiset(s[1..]);
        var j :| 0 <= j < |s[1..]| && s[1..][j] == tail[k];
        assert s[1 + j] == tail[k];
      }
    }
  }

  /** Stable insertion sort of `s` under `le`. */
  function SortBy<T(!new)>(s: seq<T>, le: (T, T) -> bool): (r: seq<T>)
    requires TotalPreorder(le)
    ensures multiset(r) == multiset(s)
    ensures |r| == |s|
    ensures SortedBy(r, le)
  {
    if |s| == 0 then []
    else
      assert s == [s[0]] + s[1..];
      Insert(s[0], SortBy(s[1..], le), le)
  }

  /** The elements of `s` that `le` cannot tell apart from `k`, in order. */
  function Ties<T>(s: seq<T>, k: T, le: (T, T) -> bool): seq<T> {
    if |s| == 0 then []
    else if le(s[0], k) && le(k, s[0]) then [s[0]] + Ties(s[1..], k, le)
    else Ties(s[1..], k, le)
  }

  lemma {:induction false} TiesOfInsert<T(!new)>(x: T, s: seq<T>, k: T, le: (T, T) -> bool)
    requires TotalPreorder(le)
    requires SortedBy(s, le)
    ensures Ties(Insert(x, s, le), k, le) == Ties([x], k, le) + Ties(s, k, le)
  {
    if |s| == 0 || le(x, s[0]) {
      assert Insert(x, s, le) == [x] + s;
      assert ([x] + s)[1..] == s;
    } else {
      var tail := Insert(x, s[1..], le);
      assert Insert(x, s, le) == [s[0]] + tail;
      assert ([s[0]] + tail)[1..] == tail;
      TiesOfInsert(x, s[1..], k, le);
      if le(x, k) && le(k, x) {
        // s[0] is strictly below x, so it cannot tie with k.
        assert !(le(s[0], k) && le(k, s[0]));
      }
    }
  }

  /** Stability: among the elements tied with any `k`, sorting keeps the
      original relative order. */
  lemma {:induction false} SortByIsStable<T(!new)>(s: seq<T>, k: T, le: (T, T) -> bool)
    requires TotalPreorder(le)
    ensures Ties(SortBy(s, le), k, le) == Ties(s, k, le)
  {
    if |s| > 0 {
      var rest := SortBy(s[1..], le);
      assert SortBy(s, le) == Insert(s[0], rest, le);
      SortByIsStable(s[1..], k, le);
      TiesOfInsert(s[0], rest, k, le);
      TiesCons(s, k, le);
    }
  }

  lemma TiesCons<T>(s: seq<T>, k: T, le: (T, T) -> bool)
    requires |s| > 0
    ensures Ties(s, k, le) == Ties([s[0]], k, le) + Ties(s[1..], k, le)
  {
    var single := [s[0]];
    assert single[1..] == [];
    var tied := le(s[0], k) && le(k, s[0]);
    assert Ties(single, k, le) == if tied then [s[0]] else [];
    assert Ties(s, k, le) == if tied then [s[0]] + Ties(s[1..], k, le) else Ties(s[1..], k, le);
  }

  /** In a sorted sequence, every element of a prefix comes no later than
      every element left out of it. */
  lemma SortedPrefixFirst<T(!new)>(s: seq<T>, n: nat, le: (T, T) -> bool)
    requires SortedBy(s, le)
    requires n <= |s|
    ensures forall x, y :: x in s[..n] && y in multiset(s) - multiset(s[..n]) ==> le(x, y)
  {
    assert s == s[..n] + s[n..];
    assert multiset(s) == multiset(s[..n]) + multiset(s[n..]);
    forall x, y | x in s[..n] && y in multiset(s) - multiset(s[..n])
      ensures le(x, y)
    {
      assert y in multiset(s[n..]);
      var j :| 0 <= j < |s[n..]| && s[n..][j] == y;
      var i :| 0 <= i < n && s[..n][i] == x;
      assert s[i] == x && s[n + j] == y;
    }
  }

  /** The head of a sorted sequence comes no later than any of its elements. */
  lemma SortedHeadFirst<T(!new)>(s: seq<T>, le: (T, T) -> bool)
    requires TotalPreorder(le)
    requires SortedBy(s, le)
    requires |s| > 0
    ensures forall y :: y in s ==> le(s[0], y)
  {
    forall y | y in s ensures le(s[0], y) {
      var j :| 0 <= j < |s| && s[j] == y;
      if j == 0 {
        assert le(y, y) || le(y, y);
      }
    }
  }

  /** A sequence whose only value is `x`, with multiplicity one, is `[x]`. */
  lemma SingletonMultiset<T>(s: seq<T>, x: T)
    requires multiset(s)[x] == 1
    requires forall y :: y in s ==> y == x
    ensures s == [x]
  {
    assert multiset(s) == multiset{x} by {
      forall y ensures multiset(s)[y] == multiset{x}[y] {
        if y != x {
          assert y !in s;
        }
      }
    }
    assert |s| == |multiset(s)| == 1;
    assert s[0] in s;
  }

  /** An element of a sorted sequence that every other element fails to
      precede is its head. */
  lemma SortedHeadIs<T(!new)>(s: seq<T>, x: T, le: (T, T) -> bool)
    requires TotalPreorder(le)
    requires SortedBy(s, le)
    requires x in s
    requires forall y :: y in s ==> y == x || !le(y, x)
    ensures s[0] == x
  {
    SortedHeadFirst(s, le);
    assert s[0] in s;
  }

  /** The first `n` elements of `s`, or all of `s` when it is shorter. */
  function Take<T>(s: seq<T>, n: nat): (r: seq<T>)
    ensures |r| == if n <= |s| then n else |s|
    ensures r == s[..|r|]
  {
    if n <= |s| then s[..n] else s
  }

  /** What is taken from a sorted sequence is sorted. */
  lemma TakeSorted<T>(s: seq<T>, n: nat, le: (T, T) -> bool)
    requires SortedBy(s, le)
    ensures SortedBy(Take(s, n), le)
  {
    var r := Take(s, n);
    forall i, j | 0 <= i < j < |r| ensures le(r[i], r[j]) {
      assert r[i] == s[i] && r[j] == s[j];
    }
  }
}
