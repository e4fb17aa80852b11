/**
 * Shared vocabulary: the nullable wrapper, ordinal case-insensitive string
 * comparison, the `Nullify` convention and the sequence filter that every
 * "remove what matches" operation of the model is measured against.
 */
module Common {

  /** A .NET nullable reference or a JavaScript `null`. */
  datatype Option<+T> = None | Some(value: T) {
    function GetOr(default: T): T {
      match this
      case Some(v) => v
      case None => default
    }
  }

  /** Ordinal case folding of one character (ASCII letters only). */
  function Fold(c: char): (r: char)
    ensures 'a' <= c <= 'z' ==> r as int == c as int - 32
    ensures !('a' <= c <= 'z') ==> r == c
    ensures !('a' <= r <= 'z')
  {
    if 'a' <= c <= 'z' then (c as int - 32) as char else c
  }

  function FoldString(s: string): (r: string)
    ensures |r| == |s|
    ensures forall i :: 0 <= i < |s| ==> r[i] == Fold(s[i])
  {
    seq(|s|, i requires 0 <= i < |s| => Fold(s[i]))
  }

  /** `string.Equals(a, b, StringComparison.OrdinalIgnoreCase)` */
  predicate EqualsIgnoreCase(a: string, b: string) {
    FoldString(a) == FoldString(b)
  }

  /** `s.StartsWith(p, StringComparison.OrdinalIgnoreCase)` */
  predicate StartsWithIgnoreCase(s: string, p: string) {
    |p| <= |s| && FoldString(s[..|p|]) == FoldString(p)
  }

  lemma FoldStringPrefix(s: string, n: nat)
    requires n <= |s|
    ensures FoldString(s[..n]) == FoldString(s)[..n]
  {
  }

  /** `Nullify`: the empty string (and null) become null. */
  function Nullify(s: Option<string>): (r: Option<string>)
    ensures r.None? <==> (s.None? || s.value == "")
    ensures r.Some? ==> r == s
  {
    match s
    case None => None
    case Some(t) => if t == "" then None else s
  }

  /** The elements of `s` that satisfy `keep`, in their original order. */
  function Filter<T>(keep: T -> bool, s: seq<T>): (r: seq<T>)
    ensures |r| <= |s|
    ensures forall i :: 0 <= i < |r| ==> keep(r[i]) && r[i] in s
    ensures forall i :: 0 <= i < |s| && keep(s[i]) ==> s[i] in r
    ensures multiset(r) <= multiset(s)
  {
    if s == [] then []
    else
      assert s == [s[0]] + s[1..];
      if keep(s[0]) then [s[0]] + Filter(keep, s[1..])
      else Filter(keep, s[1..])
  }

  lemma FilterAppend<T>(keep: T -> bool, a: seq<T>, b: seq<T>)
    ensures Filter(keep, a + b) == Filter(keep, a) + Filter(keep, b)
  {
    if a == [] {
      assert a + b == b;
    } else {
      assert (a + b)[1..] == a[1..] + b;
      FilterAppend(keep, a[1..], b);
    }
  }

  /** Filter keeps everything exactly when nothing fails the test. */
  lemma {:induction false} FilterAll<T>(keep: T -> bool, s: seq<T>)
    ensures Filter(keep, s) == s <==> forall i :: 0 <= i < |s| ==> keep(s[i])
    ensures |Filter(keep, s)| == |s| <==> Filter(keep, s) == s
  {
    if s != [] {
      FilterAll(keep, s[1..]);
      if !keep(s[0]) {
        assert |Filter(keep, s)| == |Filter(keep, s[1..])| <= |s[1..]|;
      } else {
        assert forall i :: 1 <= i < |s| ==> s[i] == s[1..][i - 1];
      }
    }
  }

  /** `List<T>.FindIndex(p)`: the first index whose element satisfies `p`, or -1. */
  function IndexOf<T>(s: seq<T>, p: T -> bool): (r: int)
    ensures -1 <= r < |s|
    ensures r >= 0 ==> p(s[r])
    ensures forall j :: 0 <= j < |s| && (r < 0 || j < r) ==> !p(s[j])
  {
    if s == [] then -1
    else if p(s[0]) then 0
    else
      var k := IndexOf(s[1..], p);
      if k < 0 then -1 else k + 1
  }

  /** The last index whose element satisfies `p`, or -1. */
  function LastIndexOf<T>(s: seq<T>, p: T -> bool): (r: int)
    ensures -1 <= r < |s|
    ensures r >= 0 ==> p(s[r])
    ensures forall j :: r < j < |s| ==> !p(s[j])
  {
    if s == [] then -1
    else if p(s[|s| - 1]) then |s| - 1
    else LastIndexOf(s[..|s| - 1], p)
  }

  /** The test "is the character `c`". */
  function Is(c: char): char -> bool {
    x => x == c
  }

  /** The first match lies right after a prefix that holds none. */
  lemma IndexOfAfter<T>(a: seq<T>, b: seq<T>, p: T -> bool)
    requires forall i :: 0 <= i < |a| ==> !p(a[i])
    requires |b| > 0 && p(b[0])
    ensures IndexOf(a + b, p) == |a|
  {
    var r := IndexOf(a + b, p);
    assert (a + b)[|a|] == b[0];
  }

  /** The last match lies right before a suffix that holds none. */
  lemma LastIndexOfBefore<T>(a: seq<T>, x: T, b: seq<T>, p: T -> bool)
    requires p(x)
    requires forall i :: 0 <= i < |b| ==> !p(b[i])
    ensures LastIndexOf(a + [x] + b, p) == |a|
  {
    var s := a + [x] + b;
    var r := LastIndexOf(s, p);
    assert s[|a|] == x;
  }

  /** An element of `s` is kept by the filter exactly when it passes the test. */
  lemma FilterMembers<T>(keep: T -> bool, s: seq<T>)
    ensures forall i :: 0 <= i < |s| ==> (s[i] in Filter(keep, s) <==> keep(s[i]))
  {
    var r := Filter(keep, s);
    forall i | 0 <= i < |s| && s[i] in r
      ensures keep(s[i])
    {
      var j :| 0 <= j < |r| && r[j] == s[i];
    }
  }
}
