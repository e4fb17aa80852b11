/**
 * The "iterate over a snapshot, remove each element that fails a test" loop
 * shared by history pruning (ShellBat/History.cs) and favourite pruning
 * (ShellBat/Settings.cs): each doomed element of the snapshot is handed to
 * `List<T>.Remove`, which drops the first equal element of the live list.
 */
module Removal {
  import opened Common

  /** `List<T>.IndexOf(x)`: the first position holding `x`, or -1. */
  function FirstIndex<T(==)>(s: seq<T>, x: T): (i: int)
    ensures -1 <= i < |s|
    ensures i < 0 <==> x !in s
    ensures i >= 0 ==> s[i] == x && forall j :: 0 <= j < i ==> s[j] != x
  {
    if s == [] then -1
    else if s[0] == x then 0
    else
      var k := FirstIndex(s[1..], x);
      assert s == [s[0]] + s[1..];
      if k < 0 then -1 else k + 1
  }

  /** `List<T>.Remove(x)`: whether `x` was found, and the list without its first occurrence. */
  function RemoveFirst<T(==)>(s: seq<T>, x: T): (r: (bool, seq<T>))
    ensures r.0 <==> x in s
    ensures !r.0 ==> r.1 == s
    ensures r.0 ==> multiset(r.1) == multiset(s) - multiset{x} && |r.1| == |s| - 1
  {
    if s == [] then (false, s)
    else if s[0] == x then
      assert s == [s[0]] + s[1..];
      (true, s[1..])
    else
      assert s == [s[0]] + s[1..];
      var t := RemoveFirst(s[1..], x);
      (t.0, [s[0]] + t.1)
  }

  /** Removing `x` skips a prefix that does not hold it. */
  lemma {:induction false} RemoveFirstSkips<T>(a: seq<T>, b: seq<T>, x: T)
    requires x !in a
    ensures RemoveFirst(a + b, x) == (x in b, a + RemoveFirst(b, x).1)
  {
    if a == [] {
      assert a + b == b;
      var t := RemoveFirst(b, x);
      assert a + t.1 == t.1;
    } else {
      var ab := a + b;
      assert ab[0] == a[0] && a[0] != x;
      assert ab[1..] == a[1..] + b;
      RemoveFirstSkips(a[1..], b, x);
      var t := RemoveFirst(b, x);
      assert RemoveFirst(ab, x) == (t.0, [a[0]] + (a[1..] + t.1));
      assert [a[0]] + (a[1..] + t.1) == a + t.1;
    }
  }

  /** The other elements keep their order: exactly the first occurrence is cut out. */
  lemma {:induction false} RemoveFirstKeepsOrder<T>(s: seq<T>, x: T)
    requires x in s
    ensures RemoveFirst(s, x).1 == s[..FirstIndex(s, x)] + s[FirstIndex(s, x) + 1..]
  {
    if s[0] == x {
      assert s[..0] + s[1..] == s[1..];
    } else {
      var k := SkipHead(s, x);
      var tail := RemoveFirst(s[1..], x).1;
      RemoveFirstKeepsOrder(s[1..], x);
      assert tail == s[1..][..k] + s[1..][k + 1..];
      CutAfterHead(s, k);
      assert RemoveFirst(s, x).1 == [s[0]] + tail == s[..k + 1] + s[k + 2..];
    }
  }

  /** Past a head that differs from `x`, both the search and the removal go on in the tail. */
  lemma SkipHead<T>(s: seq<T>, x: T) returns (k: nat)
    requires x in s && s[0] != x
    ensures x in s[1..] && k == FirstIndex(s[1..], x) && FirstIndex(s, x) == k + 1
    ensures RemoveFirst(s, x).1 == [s[0]] + RemoveFirst(s[1..], x).1
  {
    assert s == [s[0]] + s[1..];
    k := FirstIndex(s[1..], x);
  }

  lemma CutAfterHead<T>(s: seq<T>, k: nat)
    requires k < |s| - 1
    ensures [s[0]] + (s[1..][..k] + s[1..][k + 1..]) == s[..k + 1] + s[k + 2..]
  {
    assert s[..k + 1] == [s[0]] + s[1..][..k];
    assert s[1..][k + 1..] == s[k + 2..];
  }

  /** One round of the snapshot loop, for an element that is removed. */
  lemma RemoveDoomed<T>(keep: T -> bool, s: seq<T>, i: nat)
    requires i < |s| && !keep(s[i])
    ensures RemoveFirst(Filter(keep, s[..i]) + s[i..], s[i]) == (true, Filter(keep, s[..i + 1]) + s[i + 1..])
    ensures |Filter(keep, s[..i + 1])| <= i
  {
    var f := Filter(keep, s[..i]);
    assert s[i] !in f;
    var rest := s[i..];
    RemoveFirstSkips(f, rest, s[i]);
    assert rest[0] == s[i];
    assert RemoveFirst(rest, s[i]) == (true, rest[1..]);
    assert rest[1..] == s[i + 1..];
    assert s[..i + 1] == s[..i] + [s[i]];
    FilterAppend(keep, s[..i], [s[i]]);
    assert [s[i]][1..] == [];
    assert Filter(keep, [s[i]]) == [];
    assert |Filter(keep, s[..i + 1])| <= i;
    assert f + [] == f;
  }

  /** One round of the snapshot loop, for an element that stays. */
  lemma KeepKept<T>(keep: T -> bool, s: seq<T>, i: nat)
    requires i < |s| && keep(s[i])
    ensures Filter(keep, s[..i]) + s[i..] == Filter(keep, s[..i + 1]) + s[i + 1..]
    ensures |Filter(keep, s[..i + 1])| == |Filter(keep, s[..i])| + 1
  {
    assert s[..i + 1] == s[..i] + [s[i]];
    FilterAppend(keep, s[..i], [s[i]]);
    assert [s[i]][1..] == [];
    assert Filter(keep, [s[i]]) == [s[i]];
    assert s[i..] == [s[i]] + s[i + 1..];
  }

  /**
   * The snapshot loop: every element of `s` failing `keep` is removed from
   * the live list one `Remove` call at a time. Whatever the duplicates, the
   * result is exactly the in-order filter, and `changed` reports whether any
   * `Remove` call found its element.
   */
  method RemoveEach<T(==)>(s: seq<T>, keep: T -> bool) returns (changed: bool, r: seq<T>)
    ensures r == Filter(keep, s)
    ensures changed <==> exists k :: 0 <= k < |s| && !keep(s[k])
  {
    r := s;
    changed := false;
    var i := 0;
    while i < |s|
      invariant 0 <= i <= |s|
      invariant r == Filter(keep, s[..i]) + s[i..]
      invariant changed <==> |Filter(keep, s[..i])| < i
    {
      if !keep(s[i]) {
        RemoveDoomed(keep, s, i);
        var removal := RemoveFirst(r, s[i]);
        if removal.0 {
          changed := true;
        }
        r := removal.1;
      } else {
        KeepKept(keep, s, i);
      }
      i := i + 1;
    }
    assert s[..i] == s;
    FilterAll(keep, s);
  }
}
