/**
 * Sorting by a caller-supplied comparison. `List<T>.Sort()` in .NET and
 * `Array.prototype.sort` in JavaScript promise only that the result is an
 * ordered permutation of the input; that is all the model relies on.
 */
module Sorting {

  /** `le(a, b)`: `a` may stand before `b`. A total preorder allows ties. */
  ghost predicate TotalPreorder<T(!new)>(le: (T, T) -> bool) {
    && (forall a, b :: le(a, b) || le(b, a))
    && (forall a, b, c :: le(a, b) && le(b, c) ==> le(a, c))
  }

  predicate Sorted<T>(le: (T, T) -> bool, s: seq<T>) {
    forall i, j :: 0 <= i < j < |s| ==> le(s[i], s[j])
  }

  /** Places `x` before the first element it may precede. */
  function Insert<T>(le: (T, T) -> bool, x: T, s: seq<T>): (r: seq<T>)
    ensures multiset(r) == multiset(s) + multiset{x}
    ensures |r| == |s| + 1
  {
    if s == [] then [x]
    else if le(x, s[0]) then [x] + s
    else
      assert s == [s[0]] + s[1..];
      [s[0]] + Insert(le, x, s[1..])
  }

  lemma {:induction false} InsertSorted<T(!new)>(le: (T, T) -> bool, x: T, s: seq<T>)
    requires TotalPreorder(le) && Sorted(le, s)
    ensures Sorted(le, Insert(le, x, s))
  {
    if s != [] && !le(x, s[0]) {
      assert s == [s[0]] + s[1..];
      var t := Insert(le, x, s[1..]);
      InsertSorted(le, x, s[1..]);
      assert le(s[0], x);
      AllAbove(le, s[0], s[1..], x, t);
      ConsSorted(le, s[0], t);
    }
  }

  /** Every element of a permutation of `s` plus `x` is above `lo` when all of `s` and `x` are. */
  lemma AllAbove<T>(le: (T, T) -> bool, lo: T, s: seq<T>, x: T, t: seq<T>)
    requires multiset(t) == multiset(s) + multiset{x}
    requires le(lo, x) && forall k :: 0 <= k < |s| ==> le(lo, s[k])
    ensures forall k :: 0 <= k < |t| ==> le(lo, t[k])
  {
    forall k | 0 <= k < |t|
      ensures le(lo, t[k])
    {
      assert t[k] in multiset(t);
      if t[k] != x {
        assert t[k] in s;
      }
    }
  }

  /** A sorted sequence stays sorted behind an element below all of it. */
  lemma ConsSorted<T>(le: (T, T) -> bool, lo: T, t: seq<T>)
    requires Sorted(le, t) && forall k :: 0 <= k < |t| ==> le(lo, t[k])
    ensures Sorted(le, [lo] + t)
  {
    var r := [lo] + t;
    forall i, j | 0 <= i < j < |r|
      ensures le(r[i], r[j])
    {
      assert r[j] == t[j - 1];
      if i > 0 {
        assert r[i] == t[i - 1];
      }
    }
  }

  /** Insertion sort: a permutation of `s` ... */
  function SortBy<T>(le: (T, T) -> bool, s: seq<T>): (r: seq<T>)
    ensures multiset(r) == multiset(s)
    ensures |r| == |s|
  {
    if s == [] then []
    else
      assert s == [s[0]] + s[1..];
      Insert(le, s[0], SortBy(le, s[1..]))
  }

  /** ... that is ordered by `le` whenever `le` is a total preorder. */
  lemma {:induction false} SortBySorted<T(!new)>(le: (T, T) -> bool, s: seq<T>)
    requires TotalPreorder(le)
    ensures Sorted(le, SortBy(le, s))
  {
    if s != [] {
      SortBySorted(le, s[1..]);
      InsertSorted(le, s[0], SortBy(le, s[1..]));
    }
  }

  /** No two positions of `s` hold elements with the same key. */
  ghost predicate DistinctKeys<T, K>(key: T -> K, s: seq<T>) {
    forall i, j :: 0 <= i < j < |s| ==> key(s[i]) != key(s[j])
  }

  lemma {:induction false} DistinctOccursOnce<T, K>(key: T -> K, s: seq<T>, v: T)
    requires DistinctKeys(key, s)
    ensures multiset(s)[v] <= 1
  {
    if s != [] {
      assert s == [s[0]] + s[1..];
      DistinctOccursOnce(key, s[1..], v);
      if s[0] == v {
        forall k | 0 <= k < |s[1..]|
          ensures s[1..][k] != v
        {
          assert key(s[0]) != key(s[k + 1]);
        }
        assert v !in s[1..];
      }
    }
  }

  lemma OccursTwice<T>(s: seq<T>, i: nat, j: nat)
    requires i < j < |s| && s[i] == s[j]
    ensures multiset(s)[s[i]] >= 2
  {
    assert s == s[..j] + [s[j]] + s[j + 1..];
    assert s[i] in s[..j];
  }

  /** Reordering never creates two elements with the same key. */
  lemma PermutationKeepsDistinct<T, K>(key: T -> K, a: seq<T>, b: seq<T>)
    requires multiset(a) == multiset(b) && DistinctKeys(key, a)
    ensures DistinctKeys(key, b)
  {
    forall i, j | 0 <= i < j < |b|
      ensures key(b[i]) != key(b[j])
    {
      if b[i] == b[j] {
        OccursTwice(b, i, j);
        DistinctOccursOnce(key, a, b[i]);
      } else {
        assert b[i] in multiset(a) && b[j] in multiset(a);
        var p :| 0 <= p < |a| && a[p] == b[i];
        var q :| 0 <= q < |a| && a[q] == b[j];
        assert p != q;
      }
    }
  }

  /** Any prefix of a sequence with distinct keys has distinct keys. */
  lemma PrefixKeepsDistinct<T, K>(key: T -> K, s: seq<T>, n: nat)
    requires DistinctKeys(key, s) && n <= |s|
    ensures DistinctKeys(key, s[..n])
  {
  }

  /** Cutting a sorted sequence keeps elements that may precede everything cut off. */
  lemma SortedPrefixBeforeRest<T>(le: (T, T) -> bool, s: seq<T>, n: nat)
    requires Sorted(le, s) && n <= |s|
    ensures Sorted(le, s[..n])
    ensures forall x, y :: x in s[..n] && y in multiset(s) - multiset(s[..n]) ==> le(x, y)
  {
    assert s == s[..n] + s[n..];
    assert multiset(s) - multiset(s[..n]) == multiset(s[n..]);
    forall x, y | x in s[..n] && y in multiset(s) - multiset(s[..n])
      ensures le(x, y)
    {
      var i :| 0 <= i < n && s[..n][i] == x;
      assert y in s[n..];
      var j :| 0 <= j < |s[n..]| && s[n..][j] == y;
      assert s[i] == x && s[n + j] == y;
    }
  }
}
