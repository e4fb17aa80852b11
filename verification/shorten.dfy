/**
 * `Shorten` of ShellBat/Utilities/ShellBatExtensions.cs: each path of a
 * list is displayed by the shortest run of its trailing components that no
 * other path of the list ends with, joined by a separator.
 */
module Shorten {
  import opened Common

  predicate IsSeparator(c: char) {
    c == '\\' || c == '/'
  }

  /** A component: non-empty and free of separators. */
  predicate IsComponent(s: string) {
    s != [] && forall i :: 0 <= i < |s| ==> !IsSeparator(s[i])
  }

  /** `p.Split(['\\', '/'], RemoveEmptyEntries)` */
  function Components(p: string): (r: seq<string>)
    ensures forall i :: 0 <= i < |r| ==> IsComponent(r[i])
  {
    SplitFrom(p, [])
  }

  /** The non-empty runs between separators; `run` is the part of the current one already read. */
  function SplitFrom(p: string, run: string): (r: seq<string>)
    requires forall i :: 0 <= i < |run| ==> !IsSeparator(run[i])
    ensures forall i :: 0 <= i < |r| ==> IsComponent(r[i])
    decreases |p|
  {
    if p == [] then Flush(run)
    else if IsSeparator(p[0]) then Flush(run) + SplitFrom(p[1..], [])
    else SplitFrom(p[1..], run + [p[0]])
  }

  function Flush(run: string): (r: seq<string>)
    requires forall i :: 0 <= i < |run| ==> !IsSeparator(run[i])
    ensures forall i :: 0 <= i < |r| ==> IsComponent(r[i])
  {
    if run == [] then [] else [run]
  }

  /** `string.Join(sep, parts)` */
  function Join(parts: seq<string>, sep: string): string {
    if parts == [] then []
    else if |parts| == 1 then parts[0]
    else parts[0] + sep + Join(parts[1..], sep)
  }

  /** Characters other than separators extend the current run. */
  lemma {:induction false} SplitFromRun(c: string, rest: string, run: string)
    requires forall i :: 0 <= i < |run| ==> !IsSeparator(run[i])
    requires forall i :: 0 <= i < |c| ==> !IsSeparator(c[i])
    ensures SplitFrom(c + rest, run) == SplitFrom(rest, run + c)
    decreases |c|
  {
    if c == [] {
      assert c + rest == rest && run + c == run;
    } else {
      assert (c + rest)[0] == c[0];
      assert (c + rest)[1..] == c[1..] + rest;
      SplitFromRun(c[1..], rest, run + [c[0]]);
      assert run + [c[0]] + c[1..] == run + c;
    }
  }

  /** Splitting a path joined with '\' gives its components back. */
  lemma {:induction false} ComponentsOfJoin(parts: seq<string>)
    requires forall i :: 0 <= i < |parts| ==> IsComponent(parts[i])
    ensures Components(Join(parts, "\\")) == parts
  {
    if |parts| == 1 {
      SplitFromRun(parts[0], [], []);
      assert parts[0] + [] == parts[0] && [] + parts[0] == parts[0];
    } else if |parts| > 1 {
      var rest := Join(parts[1..], "\\");
      assert Join(parts, "\\") == parts[0] + ("\\" + rest);
      SplitFromRun(parts[0], "\\" + rest, []);
      assert [] + parts[0] == parts[0];
      assert ("\\" + rest)[1..] == rest;
      ComponentsOfJoin(parts[1..]);
      assert parts == [parts[0]] + parts[1..];
    }
  }

  /** `s.Skip(|s| - take)`: the last `take` components, or all of them when there are fewer. */
  function Suffix(s: seq<string>, take: nat): (r: seq<string>)
    ensures take <= |s| ==> |r| == take && r == s[|s| - take..]
    ensures take > |s| ==> r == s
  {
    if take <= |s| then s[|s| - take..] else s
  }

  /** The paths (by position) whose last `take` components are `suffix`. */
  function Sharing(split: seq<seq<string>>, take: nat, suffix: seq<string>): set<nat> {
    set j: nat | j < |split| && Suffix(split[j], take) == suffix
  }

  /** `split.Count(s => s.Skip(s.Length - take).SequenceEqual(suffix))` */
  function Count(split: seq<seq<string>>, take: nat, suffix: seq<string>): nat {
    |Sharing(split, take, suffix)|
  }

  /** A count of one means the path at `i` is the only one with that suffix. */
  lemma CountOne(split: seq<seq<string>>, i: nat, take: nat)
    requires i < |split|
    ensures Count(split, take, Suffix(split[i], take)) >= 1
    ensures Count(split, take, Suffix(split[i], take)) == 1 <==>
      forall j: nat :: j < |split| && j != i ==> Suffix(split[j], take) != Suffix(split[i], take)
  {
    var m := Sharing(split, take, Suffix(split[i], take));
    assert i in m;
    if |m| == 1 {
      assert |m - {i}| == 0;
      forall j: nat | j < |split| && j != i
        ensures Suffix(split[j], take) != Suffix(split[i], take)
      {
        assert j !in m - {i};
      }
    } else {
      assert |m - {i}| > 0;
      var j :| j in m - {i};
      assert j < |split| && j != i && Suffix(split[j], take) == Suffix(split[i], take);
    }
  }

  predicate Unique(split: seq<seq<string>>, current: seq<string>, take: nat) {
    Count(split, take, Suffix(current, take)) == 1
  }

  /** The `while (take <= current.Length)` loop, from a given `take`. */
  function ChooseTake(split: seq<seq<string>>, current: seq<string>, take: nat): (r: nat)
    requires 1 <= take <= |current| + 1
    ensures take <= r <= |current| + 1
    ensures r <= |current| ==> Unique(split, current, r)
    ensures forall t :: take <= t < r ==> !Unique(split, current, t)
    decreases |current| + 1 - take
  {
    if take > |current| then take
    else if Unique(split, current, take) then take
    else ChooseTake(split, current, take + 1)
  }

  function SplitAll(paths: seq<string>): (r: seq<seq<string>>)
    ensures |r| == |paths| && forall i :: 0 <= i < |paths| ==> r[i] == Components(paths[i])
  {
    seq(|paths|, i requires 0 <= i < |paths| => Components(paths[i]))
  }

  /** How many trailing components the path at `i` is shown with. */
  function Take(paths: seq<string>, i: nat): nat
    requires i < |paths|
  {
    ChooseTake(SplitAll(paths), SplitAll(paths)[i], 1)
  }

  /** `Shorten(paths, sep)`: one result per path, in order. */
  function ShortenPaths(paths: seq<string>, sep: string): (r: seq<string>)
    ensures |r| == |paths|
    ensures forall i :: 0 <= i < |paths| ==> r[i] == Join(Suffix(Components(paths[i]), Take(paths, i)), sep)
  {
    seq(|paths|, i requires 0 <= i < |paths| => Join(Suffix(SplitAll(paths)[i], Take(paths, i)), sep))
  }

  /** The chosen suffix, when it lies within the path, ends no other path. */
  lemma ShortenUnique(paths: seq<string>, i: nat)
    requires i < |paths|
    ensures var c, t := Components(paths[i]), Take(paths, i);
      t <= |c| ==> forall j: nat :: j < |paths| && j != i ==>
        Suffix(Components(paths[j]), t) != Suffix(c, t)
  {
    var t := Take(paths, i);
    if t <= |Components(paths[i])| {
      CountOne(SplitAll(paths), i, t);
    }
  }

  /** Every shorter suffix ends some other path too: the choice is minimal. */
  lemma ShortenMinimal(paths: seq<string>, i: nat, u: nat)
    requires i < |paths| && 1 <= u < Take(paths, i)
    ensures exists j: nat :: j < |paths| && j != i && Suffix(Components(paths[j]), u) == Suffix(Components(paths[i]), u)
  {
    var split := SplitAll(paths);
    assert !Unique(split, split[i], u);
    CountOne(split, i, u);
  }

  /** When no suffix is unique, the whole path is shown. */
  lemma ShortenFallsBackToWhole(paths: seq<string>, sep: string, i: nat)
    requires i < |paths|
    requires forall t: nat :: 1 <= t <= |Components(paths[i])| ==> !Unique(SplitAll(paths), Components(paths[i]), t)
    ensures ShortenPaths(paths, sep)[i] == Join(Components(paths[i]), sep)
  {
  }

  /** A path whose components repeat another path's is shown whole. */
  lemma DuplicateShownWhole(paths: seq<string>, sep: string, i: nat, j: nat)
    requires i < |paths| && j < |paths| && i != j
    requires Components(paths[i]) == Components(paths[j])
    ensures ShortenPaths(paths, sep)[i] == Join(Components(paths[i]), sep)
  {
    ShortenUnique(paths, i);
  }
}
