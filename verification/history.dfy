/**
 * The navigation history of ShellBat/History.cs: a list of visited shell
 * locations, deduplicated on their parsing name (ordinal, case-insensitive),
 * re-sorted after every visit and trimmed to the configured maximum, plus
 * the back/forward cursor of the private `Navigation` class.
 *
 * The comparison behind `_entries.Sort()` is not part of this model; it is
 * the parameter `le`, and index 0 is the entry it puts first (the most recent
 * one: callers take the first entry as the latest location).
 */
module History {
  import opened Common
  import opened Sorting
  import Removal

  datatype HistoryEntry = HistoryEntry(
    parsingName: string,
    displayName: string,
    iconPath: Option<string>,
    lastVisitedTime: int)

  /** The shell item handed to `Visit`. */
  datatype Location = Location(
    parsingName: string,
    fullDisplayName: string,
    isDesktop: bool)

  /** `Navigation`: the entry list and `_currentIndex` (-1 when nothing is current). */
  datatype Navigation = Navigation(entries: seq<HistoryEntry>, currentIndex: int)

  /** What an accessor returning `HistoryEntry?` yields: null, an entry, or the
      `ArgumentOutOfRangeException` thrown by indexing past the list. */
  datatype Lookup = Null | Found(entry: HistoryEntry) | OutOfRange

  const Initial := Navigation([], -1)

  const MinimumCapacity := 10
  const MaximumCapacity := 1000

  /** `Settings.MaximumHistoryEntries.Clamp(10, 1000)` */
  function Capacity(maximumHistoryEntries: int): (r: int)
    ensures MinimumCapacity <= r <= MaximumCapacity
    ensures MinimumCapacity <= maximumHistoryEntries <= MaximumCapacity ==> r == maximumHistoryEntries
    ensures maximumHistoryEntries < MinimumCapacity ==> r == MinimumCapacity
    ensures maximumHistoryEntries > MaximumCapacity ==> r == MaximumCapacity
  {
    if maximumHistoryEntries < MinimumCapacity then MinimumCapacity
    else if maximumHistoryEntries > MaximumCapacity then MaximumCapacity
    else maximumHistoryEntries
  }

  /** Clamping twice is clamping once, and a larger setting never gives a smaller cap. */
  lemma CapacityClamps(m: int, n: int)
    ensures Capacity(Capacity(m)) == Capacity(m)
    ensures m <= n ==> Capacity(m) <= Capacity(n)
  {
  }

  /** The identity of an entry: its case-folded parsing name. */
  function Key(e: HistoryEntry): string {
    FoldString(e.parsingName)
  }

  /** No two entries share a parsing name, ignoring case. */
  ghost predicate UniqueKeys(entries: seq<HistoryEntry>) {
    DistinctKeys(Key, entries)
  }

  /** Every index is in range, and -1 means exactly "the list is empty". */
  predicate CursorValid(nav: Navigation) {
    if |nav.entries| == 0 then nav.currentIndex == -1
    else 0 <= nav.currentIndex < |nav.entries|
  }

  function SameKey(key: string): HistoryEntry -> bool {
    (e: HistoryEntry) => EqualsIgnoreCase(e.parsingName, key)
  }

  /** `_entries.FindIndex(e => e.ParsingName.EqualsIgnoreCase(key))` */
  function FindIndex(entries: seq<HistoryEntry>, key: string): int {
    IndexOf(entries, SameKey(key))
  }

  /** `_entries[i]` */
  function At(entries: seq<HistoryEntry>, i: int): (r: Lookup)
    ensures r != Null
    ensures r.Found? <==> 0 <= i < |entries|
  {
    if 0 <= i < |entries| then Found(entries[i]) else OutOfRange
  }

  // ---------------------------------------------------------------- Visit

  /** A fresh entry; `icon` is the icon lookup's answer. */
  function NewEntry(loc: Location, now: int, icon: Option<string>): HistoryEntry {
    HistoryEntry(loc.parsingName, loc.fullDisplayName, icon, now)
  }

  /** A revisited entry: its icon is looked up only if it had none. */
  function Revisit(e: HistoryEntry, loc: Location, now: int, icon: Option<string>): (r: HistoryEntry)
    ensures r.parsingName == e.parsingName
    ensures r.lastVisitedTime == now && r.displayName == loc.fullDisplayName
    ensures e.iconPath.Some? ==> r.iconPath == e.iconPath
    ensures e.iconPath.None? ==> r.iconPath == icon
  {
    e.(lastVisitedTime := now,
       displayName := loc.fullDisplayName,
       iconPath := if e.iconPath.None? then icon else e.iconPath)
  }

  /**
   * The list `Visit` goes on to sort, or None when `Visit` returns early: an
   * absent desktop location is never recorded.
   */
  function Touch(entries: seq<HistoryEntry>, loc: Location, now: int, icon: Option<string>): (r: Option<seq<HistoryEntry>>)
    ensures r.None? <==> FindIndex(entries, loc.parsingName) < 0 && loc.isDesktop
    ensures r.Some? && FindIndex(entries, loc.parsingName) < 0 ==>
      r.value == entries + [NewEntry(loc, now, icon)]
    ensures r.Some? && FindIndex(entries, loc.parsingName) >= 0 ==>
      var i := FindIndex(entries, loc.parsingName);
      && |r.value| == |entries|
      && r.value[i] == Revisit(entries[i], loc, now, icon)
      && (forall j :: 0 <= j < |entries| && j != i ==> r.value[j] == entries[j])
  {
    var i := FindIndex(entries, loc.parsingName);
    if i < 0 then
      if loc.isDesktop then None
      else Some(entries + [NewEntry(loc, now, icon)])
    else
      Some(entries[i := Revisit(entries[i], loc, now, icon)])
  }

  /**
   * `Navigation.Visit`: record or refresh the location, sort, keep the first
   * `Capacity(maximumHistoryEntries)` entries and make the first one current.
   */
  function Visit(nav: Navigation, loc: Location, now: int, icon: Option<string>,
                 maximumHistoryEntries: int, le: (HistoryEntry, HistoryEntry) -> bool): (r: Navigation)
    ensures Touch(nav.entries, loc, now, icon).None? ==> r == nav
    ensures Touch(nav.entries, loc, now, icon).Some? ==>
      var touched := Touch(nav.entries, loc, now, icon).value;
      && r.currentIndex == 0
      && 1 <= |r.entries| <= Capacity(maximumHistoryEntries)
      && |r.entries| == (if |touched| <= Capacity(maximumHistoryEntries) then |touched|
                         else Capacity(maximumHistoryEntries))
      && multiset(r.entries) <= multiset(touched)
      && CursorValid(r)
  {
    match Touch(nav.entries, loc, now, icon)
    case None => nav
    case Some(touched) =>
      var sorted := SortBy(le, touched);
      var cap := Capacity(maximumHistoryEntries);
      if |sorted| > cap then
        assert sorted == sorted[..cap] + sorted[cap..];
        Navigation(sorted[..cap], 0)
      else
        Navigation(sorted, 0)
  }

  /** The location's key is new to the list, or it was already there. */
  lemma TouchKeepsKeysUnique(entries: seq<HistoryEntry>, loc: Location, now: int, icon: Option<string>)
    requires UniqueKeys(entries)
    requires Touch(entries, loc, now, icon).Some?
    ensures UniqueKeys(Touch(entries, loc, now, icon).value)
  {
    var t := Touch(entries, loc, now, icon).value;
    var i := FindIndex(entries, loc.parsingName);
    if i < 0 {
      forall j | 0 <= j < |entries|
        ensures Key(entries[j]) != Key(t[|entries|])
      {
        assert !SameKey(loc.parsingName)(entries[j]);
      }
    } else {
      forall j | 0 <= j < |t|
        ensures Key(t[j]) == Key(entries[j])
      {
      }
    }
  }

  /** Visit never produces two entries with the same key, ignoring case. */
  lemma VisitKeepsKeysUnique(nav: Navigation, loc: Location, now: int, icon: Option<string>,
                             maximumHistoryEntries: int, le: (HistoryEntry, HistoryEntry) -> bool)
    requires UniqueKeys(nav.entries)
    ensures UniqueKeys(Visit(nav, loc, now, icon, maximumHistoryEntries, le).entries)
  {
    var touch := Touch(nav.entries, loc, now, icon);
    if touch.Some? {
      TouchKeepsKeysUnique(nav.entries, loc, now, icon);
      var sorted := SortBy(le, touch.value);
      PermutationKeepsDistinct(Key, touch.value, sorted);
      var cap := Capacity(maximumHistoryEntries);
      if |sorted| > cap {
        PrefixKeepsDistinct(Key, sorted, cap);
      }
    }
  }

  /**
   * After a recorded visit the list is ordered by `le`, and trimming dropped
   * only entries that `le` places after every entry kept.
   */
  lemma VisitOrdersAndTrimsTail(nav: Navigation, loc: Location, now: int, icon: Option<string>,
                                maximumHistoryEntries: int, le: (HistoryEntry, HistoryEntry) -> bool)
    requires TotalPreorder(le)
    requires Touch(nav.entries, loc, now, icon).Some?
    ensures var r := Visit(nav, loc, now, icon, maximumHistoryEntries, le);
      var dropped := multiset(Touch(nav.entries, loc, now, icon).value) - multiset(r.entries);
      && Sorted(le, r.entries)
      && forall x, y :: x in r.entries && y in dropped ==> le(x, y)
  {
    var touched := Touch(nav.entries, loc, now, icon).value;
    var sorted := SortBy(le, touched);
    SortBySorted(le, touched);
    var cap := Capacity(maximumHistoryEntries);
    var n := if |sorted| > cap then cap else |sorted|;
    assert Visit(nav, loc, now, icon, maximumHistoryEntries, le).entries == sorted[..n];
    SortedPrefixBeforeRest(le, sorted, n);
  }

  /** A revisit updates the entry in place: nothing is added or trimmed. */
  lemma RevisitKeepsCount(nav: Navigation, loc: Location, now: int, icon: Option<string>,
                          maximumHistoryEntries: int, le: (HistoryEntry, HistoryEntry) -> bool)
    requires FindIndex(nav.entries, loc.parsingName) >= 0
    requires |nav.entries| <= Capacity(maximumHistoryEntries)
    ensures var i := FindIndex(nav.entries, loc.parsingName);
      var r := Visit(nav, loc, now, icon, maximumHistoryEntries, le);
      && |r.entries| == |nav.entries|
      && Revisit(nav.entries[i], loc, now, icon) in r.entries
  {
    var i := FindIndex(nav.entries, loc.parsingName);
    var touched := Touch(nav.entries, loc, now, icon).value;
    assert touched[i] in multiset(touched);
  }

  /** Visiting an absent, non-desktop location adds exactly one entry before trimming. */
  lemma NewVisitAddsOne(nav: Navigation, loc: Location, now: int, icon: Option<string>,
                        maximumHistoryEntries: int, le: (HistoryEntry, HistoryEntry) -> bool)
    requires FindIndex(nav.entries, loc.parsingName) < 0 && !loc.isDesktop
    requires |nav.entries| < Capacity(maximumHistoryEntries)
    ensures var r := Visit(nav, loc, now, icon, maximumHistoryEntries, le);
      && multiset(r.entries) == multiset(nav.entries) + multiset{NewEntry(loc, now, icon)}
      && |r.entries| == |nav.entries| + 1
  {
  }

  // ------------------------------------------------------ back / forward

  /** `History.MoveBack(step)`: towards older entries (higher indexes). */
  function MoveBack(nav: Navigation, step: int): (r: (Navigation, Lookup))
    ensures r.1 == Null ==> r.0 == nav
    ensures step < 1 || |nav.entries| == 0 ==> r.1 == Null
    ensures r.1 != Null ==>
      && r.0.entries == nav.entries
      && r.0.currentIndex != nav.currentIndex
      && r.0.currentIndex <= |nav.entries| - 1
      && (r.0.currentIndex == |nav.entries| - 1 || r.0.currentIndex == nav.currentIndex + step)
      && r.1 == At(nav.entries, r.0.currentIndex)
    ensures step >= 1 && |nav.entries| > 0 ==>
      var k := if nav.currentIndex + step > |nav.entries| - 1 then |nav.entries| - 1 else nav.currentIndex + step;
      r == if k == nav.currentIndex then (nav, Null) else (nav.(currentIndex := k), At(nav.entries, k))
  {
    if step < 1 || |nav.entries| == 0 then (nav, Null)
    else
      var newIndex := if |nav.entries| - 1 < nav.currentIndex + step then |nav.entries| - 1
                      else nav.currentIndex + step;
      if newIndex == nav.currentIndex then (nav, Null)
      else (nav.(currentIndex := newIndex), At(nav.entries, newIndex))
  }

  /** `History.MoveForward(step)`: towards newer entries (lower indexes). */
  function MoveForward(nav: Navigation, step: int): (r: (Navigation, Lookup))
    ensures r.1 == Null ==> r.0 == nav
    ensures step < 1 || |nav.entries| == 0 ==> r.1 == Null
    ensures r.1 != Null ==>
      && r.0.entries == nav.entries
      && r.0.currentIndex != nav.currentIndex
      && r.0.currentIndex >= 0
      && (r.0.currentIndex == 0 || r.0.currentIndex == nav.currentIndex - step)
      && r.1 == At(nav.entries, r.0.currentIndex)
    ensures step >= 1 && |nav.entries| > 0 ==>
      var k := if nav.currentIndex - step < 0 then 0 else nav.currentIndex - step;
      r == if k == nav.currentIndex then (nav, Null) else (nav.(currentIndex := k), At(nav.entries, k))
  {
    if step < 1 || |nav.entries| == 0 then (nav, Null)
    else
      var newIndex := if 0 > nav.currentIndex - step then 0 else nav.currentIndex - step;
      if newIndex == nav.currentIndex then (nav, Null)
      else (nav.(currentIndex := newIndex), At(nav.entries, newIndex))
  }

  /** From a valid cursor both moves stay valid and never index out of range. */
  lemma MovesKeepCursorValid(nav: Navigation, step: int)
    requires CursorValid(nav)
    ensures CursorValid(MoveBack(nav, step).0) && MoveBack(nav, step).1 != OutOfRange
    ensures CursorValid(MoveForward(nav, step).0) && MoveForward(nav, step).1 != OutOfRange
  {
  }

  /** Going back `step` entries and then forward `step` entries returns to the start. */
  lemma BackThenForward(nav: Navigation, step: int)
    requires CursorValid(nav) && step >= 1
    requires nav.currentIndex + step <= |nav.entries| - 1
    ensures var back := MoveBack(nav, step);
      var forward := MoveForward(back.0, step);
      && back.1 == Found(nav.entries[nav.currentIndex + step])
      && forward.0 == nav
      && forward.1 == Found(nav.entries[nav.currentIndex])
  {
  }

  // ------------------------------------------------------ accessors

  /** `Navigation.Current` */
  function Current(nav: Navigation): Lookup {
    if nav.currentIndex < 0 then Null else At(nav.entries, nav.currentIndex)
  }

  /** `Navigation.Previous`: the next older entry. */
  function Previous(nav: Navigation): Lookup {
    if nav.currentIndex >= |nav.entries| - 1 then Null else At(nav.entries, nav.currentIndex + 1)
  }

  /** `Navigation.Next`: the next newer entry. */
  function Next(nav: Navigation): Lookup {
    if nav.currentIndex <= 0 then Null else At(nav.entries, nav.currentIndex - 1)
  }

  /** With a valid cursor the accessors never throw, and Current is null only for an empty list. */
  lemma AccessorsInRange(nav: Navigation)
    requires CursorValid(nav)
    ensures Current(nav) != OutOfRange && Previous(nav) != OutOfRange && Next(nav) != OutOfRange
    ensures Current(nav) == Null <==> |nav.entries| == 0
    ensures Previous(nav).Found? ==> Previous(nav).entry == nav.entries[nav.currentIndex + 1]
    ensures Next(nav).Found? ==> Next(nav).entry == nav.entries[nav.currentIndex - 1]
  {
  }

  // ------------------------------------------------------ bulk changes

  /** `Navigation.Clear()`: the number of entries dropped, and the empty history. */
  function Clear(nav: Navigation): (r: (int, Navigation))
    ensures r.0 == |nav.entries|
    ensures r.1.entries == [] && CursorValid(r.1)
  {
    (|nav.entries|, Initial)
  }

  /**
   * After a clear there is nowhere to go: both moves and every accessor
   * answer null, and the next recorded visit starts a one-entry history.
   */
  lemma ClearedHistoryIsEmpty(nav: Navigation, step: int, loc: Location, now: int, icon: Option<string>,
                              maximumHistoryEntries: int, le: (HistoryEntry, HistoryEntry) -> bool)
    requires !loc.isDesktop
    ensures var cleared := Clear(nav).1;
      && MoveBack(cleared, step) == (cleared, Null)
      && MoveForward(cleared, step) == (cleared, Null)
      && Current(cleared) == Null && Previous(cleared) == Null && Next(cleared) == Null
      && Visit(cleared, loc, now, icon, maximumHistoryEntries, le) == Navigation([NewEntry(loc, now, icon)], 0)
  {
    assert FindIndex([], loc.parsingName) == -1;
    assert Touch([], loc, now, icon) == Some([] + [NewEntry(loc, now, icon)]);
    assert SortBy(le, [NewEntry(loc, now, icon)]) == [NewEntry(loc, now, icon)];
  }

  /** The `Entries` setter: replace (null means empty), sort, and point at the first entry. */
  function SetEntries(value: Option<seq<HistoryEntry>>, le: (HistoryEntry, HistoryEntry) -> bool): (r: Navigation)
    ensures multiset(r.entries) == multiset(value.GetOr([]))
    ensures CursorValid(r)
    ensures |r.entries| > 0 ==> r.currentIndex == 0
  {
    var entries := SortBy(le, value.GetOr([]));
    Navigation(entries, if |entries| > 0 then 0 else -1)
  }

  lemma SetEntriesSorted(value: Option<seq<HistoryEntry>>, le: (HistoryEntry, HistoryEntry) -> bool)
    requires TotalPreorder(le)
    ensures Sorted(le, SetEntries(value, le).entries)
  {
    SortBySorted(le, value.GetOr([]));
  }

  // ------------------------------------------------------ removal

  /** `Navigation.Remove(entry)`: drops the entry; the cursor is left as it was. */
  function Remove(nav: Navigation, entry: HistoryEntry): (r: (bool, Navigation))
    ensures r.0 <==> entry in nav.entries
    ensures r.1.currentIndex == nav.currentIndex
    ensures r.0 ==> multiset(r.1.entries) == multiset(nav.entries) - multiset{entry}
    ensures r.0 ==> var i := Removal.FirstIndex(nav.entries, entry);
      r.1.entries == nav.entries[..i] + nav.entries[i + 1..]
    ensures !r.0 ==> r.1 == nav
  {
    var removal := Removal.RemoveFirst(nav.entries, entry);
    if removal.0 then
      Removal.RemoveFirstKeepsOrder(nav.entries, entry);
      (true, nav.(entries := removal.1))
    else (false, nav)
  }

  /** `History.RemoveEntry(entry)`: null removes nothing. */
  function RemoveEntry(nav: Navigation, entry: Option<HistoryEntry>): (r: (bool, Navigation))
    ensures r.0 <==> entry.Some? && entry.value in nav.entries
    ensures r.1.currentIndex == nav.currentIndex
    ensures !r.0 ==> r.1 == nav
    ensures entry.Some? ==> r == Remove(nav, entry.value)
  {
    match entry
    case None => (false, nav)
    case Some(e) => Remove(nav, e)
  }

  /** From a valid cursor, the removal leaves the cursor pointing past the end of the list. */
  lemma RemoveLeavesStaleCursor()
    ensures var a := HistoryEntry("C:\\a", "a", None, 1);
      var b := HistoryEntry("C:\\b", "b", None, 0);
      var nav := Navigation([a, b], 1);
      var r := Remove(nav, b);
      && CursorValid(nav)
      && r.0
      && !CursorValid(r.1)
      && Current(r.1) == OutOfRange
  {
    var a := HistoryEntry("C:\\a", "a", None, 1);
    var b := HistoryEntry("C:\\b", "b", None, 0);
    assert a != b;
    assert [a, b][1..] == [b];
    assert Removal.RemoveFirst([b], b) == (true, []);
    assert Removal.RemoveFirst([a, b], b) == (true, [a] + []);
  }

  /** The cursor brought back into range after a removal. */
  function Reclamp(nav: Navigation): (r: Navigation)
    ensures r.entries == nav.entries && CursorValid(r)
    ensures CursorValid(nav) ==> r == nav
    ensures |nav.entries| > 0 && nav.currentIndex >= |nav.entries| ==> r.currentIndex == |nav.entries| - 1
  {
    if |nav.entries| == 0 then nav.(currentIndex := -1)
    else if nav.currentIndex >= |nav.entries| then nav.(currentIndex := |nav.entries| - 1)
    else if nav.currentIndex < 0 then nav.(currentIndex := 0)
    else nav
  }

  /** A removal that keeps the cursor valid. */
  function RemoveReclamped(nav: Navigation, entry: HistoryEntry): (r: (bool, Navigation))
    ensures r.0 <==> entry in nav.entries
    ensures r.1.entries == Remove(nav, entry).1.entries
    ensures CursorValid(r.1)
    ensures Current(r.1) != OutOfRange && Previous(r.1) != OutOfRange && Next(r.1) != OutOfRange
  {
    var removed := Remove(nav, entry);
    var r := (removed.0, Reclamp(removed.1));
    AccessorsInRange(r.1);
    r
  }

  /** `root` itself, or a path below it with either separator, ignoring case. */
  predicate UnderRoot(root: string, key: string) {
    || EqualsIgnoreCase(key, root)
    || StartsWithIgnoreCase(key, root + "\\")
    || StartsWithIgnoreCase(key, root + "/")
  }

  function Outside(root: string): HistoryEntry -> bool {
    (e: HistoryEntry) => !UnderRoot(root, e.parsingName)
  }

  /**
   * An entry is under `root` exactly when its first `|root|` characters
   * match `root` ignoring case and the rest is empty or starts with a
   * separator: `C:\Data` covers `C:\Data\x` but not `C:\DataOther`.
   */
  lemma {:induction false} UnderRootMeaning(root: string, key: string)
    ensures UnderRoot(root, key) <==>
      && |root| <= |key|
      && EqualsIgnoreCase(key[..|root|], root)
      && (|key| == |root| || key[|root|] == '\\' || key[|root|] == '/')
  {
    var n := |root|;
    if |root| <= |key| {
      if |key| > n {
        assert key[..n + 1] == key[..n] + [key[n]];
        assert FoldString(key[..n + 1]) == FoldString(key[..n]) + [Fold(key[n])];
        assert FoldString(root + "\\") == FoldString(root) + "\\";
        assert FoldString(root + "/") == FoldString(root) + "/";
        assert FoldString(key) != FoldString(root) by {
          assert |FoldString(key)| != |FoldString(root)|;
        }
        assert (root + "\\")[..n] == root;
        assert (root + "/")[..n] == root;
      } else {
        assert key[..n] == key;
      }
    } else {
      assert |FoldString(key)| != |FoldString(root)|;
    }
  }

  lemma RootExamples()
    ensures UnderRoot("C:\\Data", "C:\\Data")
    ensures UnderRoot("C:\\Data", "C:\\Data\\x.txt")
    ensures UnderRoot("C:\\Data", "C:\\Data/sub")
    ensures !UnderRoot("C:\\Data", "C:\\DataOther")
  {
    assert "C:\\Data\\x.txt"[..8] == "C:\\Data" + "\\";
    assert "C:\\Data/sub"[..8] == "C:\\Data" + "/";
    UnderRootMeaning("C:\\Data", "C:\\DataOther");
    assert "C:\\DataOther"[7] == 'O';
  }

  lemma RootExampleIgnoresCase()
    ensures UnderRoot("C:\\Data", "c:\\DATA\\x")
  {
    var key := "c:\\DATA\\x";
    var p := "C:\\Data\\";
    assert key[..8] == "c:\\DATA\\";
    assert FoldString(key[..8]) == "C:\\DATA\\";
    assert FoldString(p) == "C:\\DATA\\";
  }

  /** `History.RemoveEntries(root)`: drop `root` and everything below it. */
  method RemoveEntries(nav: Navigation, root: Option<string>) returns (changed: bool, r: Navigation)
    ensures root.None? ==> !changed && r == nav
    ensures root.Some? ==> r.entries == Filter(Outside(root.value), nav.entries)
    ensures r.currentIndex == nav.currentIndex
    ensures changed <==> root.Some? && exists k :: 0 <= k < |nav.entries| && UnderRoot(root.value, nav.entries[k].parsingName)
  {
    if root.None? {
      return false, nav;
    }
    var entries;
    changed, entries := Removal.RemoveEach(nav.entries, Outside(root.value));
    r := nav.(entries := entries);
  }

  function Present(present: string -> bool): HistoryEntry -> bool {
    (e: HistoryEntry) => present(e.parsingName)
  }

  /** `Navigation.RemoveDeletedEntries()`; `present(name)` stands for `Entry.Get(name) != null`. */
  method RemoveDeletedEntries(nav: Navigation, present: string -> bool) returns (changed: bool, r: Navigation)
    ensures r.entries == Filter(Present(present), nav.entries)
    ensures r.currentIndex == nav.currentIndex
    ensures changed <==> exists k :: 0 <= k < |nav.entries| && !present(nav.entries[k].parsingName)
  {
    var entries;
    changed, entries := Removal.RemoveEach(nav.entries, Present(present));
    r := nav.(entries := entries);
  }

  // ------------------------------------------------------ a session

  /** Most recently visited first. */
  function ByRecency(): (HistoryEntry, HistoryEntry) -> bool {
    (a: HistoryEntry, b: HistoryEntry) => a.lastVisitedTime >= b.lastVisitedTime
  }

  /** Visit A, B, A: A is first and current; back gives B, forward gives A again. */
  lemma VisitBackForwardSession()
    ensures var a := Location("A", "A", false);
      var b := Location("B", "B", false);
      var n1 := Visit(Initial, a, 1, None, 100, ByRecency());
      var n2 := Visit(n1, b, 2, None, 100, ByRecency());
      var n3 := Visit(n2, a, 3, None, 100, ByRecency());
      var back := MoveBack(n3, 1);
      var forward := MoveForward(back.0, 1);
      && n3.entries == [HistoryEntry("A", "A", None, 3), HistoryEntry("B", "B", None, 2)]
      && n3.currentIndex == 0
      && back.1 == Found(HistoryEntry("B", "B", None, 2)) && back.0.currentIndex == 1
      && forward.1 == Found(HistoryEntry("A", "A", None, 3)) && forward.0.currentIndex == 0
  {
    var ea1 := HistoryEntry("A", "A", None, 1);
    var eb := HistoryEntry("B", "B", None, 2);
    var ea3 := HistoryEntry("A", "A", None, 3);
    SessionFirstVisit();
    var n1 := Visit(Initial, Location("A", "A", false), 1, None, 100, ByRecency());
    assert n1 == Navigation([ea1], 0);
    SessionSecondVisit();
    var n2 := Visit(n1, Location("B", "B", false), 2, None, 100, ByRecency());
    assert n2 == Navigation([eb, ea1], 0);
    SessionRevisit();
    var n3 := Visit(n2, Location("A", "A", false), 3, None, 100, ByRecency());
    assert n3 == Navigation([ea3, eb], 0);
    SessionBackForward();
  }

  lemma SessionBackForward()
    ensures var ea3, eb := HistoryEntry("A", "A", None, 3), HistoryEntry("B", "B", None, 2);
      && MoveBack(Navigation([ea3, eb], 0), 1) == (Navigation([ea3, eb], 1), Found(eb))
      && MoveForward(Navigation([ea3, eb], 1), 1) == (Navigation([ea3, eb], 0), Found(ea3))
  {
  }

  lemma SessionFirstVisit()
    ensures Visit(Initial, Location("A", "A", false), 1, None, 100, ByRecency())
      == Navigation([HistoryEntry("A", "A", None, 1)], 0)
  {
    assert FoldString("A") == "A";
    assert FindIndex([], "A") == -1;
  }

  lemma SessionSecondVisit()
    ensures Visit(Navigation([HistoryEntry("A", "A", None, 1)], 0), Location("B", "B", false), 2, None, 100, ByRecency())
      == Navigation([HistoryEntry("B", "B", None, 2), HistoryEntry("A", "A", None, 1)], 0)
  {
    var ea1 := HistoryEntry("A", "A", None, 1);
    var eb := HistoryEntry("B", "B", None, 2);
    assert FoldString("A") == "A" && FoldString("B") == "B";
    assert FindIndex([ea1], "B") == -1 by {
      assert !SameKey("B")(ea1);
    }
    assert SortBy(ByRecency(), [ea1, eb]) == [eb, ea1] by {
      assert [ea1, eb][1..] == [eb];
      assert SortBy(ByRecency(), [eb]) == [eb];
    }
  }

  lemma SessionRevisit()
    ensures Visit(Navigation([HistoryEntry("B", "B", None, 2), HistoryEntry("A", "A", None, 1)], 0),
                  Location("A", "A", false), 3, None, 100, ByRecency())
      == Navigation([HistoryEntry("A", "A", None, 3), HistoryEntry("B", "B", None, 2)], 0)
  {
    var ea1 := HistoryEntry("A", "A", None, 1);
    var eb := HistoryEntry("B", "B", None, 2);
    var ea3 := HistoryEntry("A", "A", None, 3);
    assert FoldString("A") == "A" && FoldString("B") == "B";
    assert FindIndex([eb, ea1], "A") == 1 by {
      assert !SameKey("A")(eb);
      assert SameKey("A")(ea1);
      assert [eb] + [ea1] == [eb, ea1];
      IndexOfAfter([eb], [ea1], SameKey("A"));
    }
    assert [eb, ea1][1 := ea3] == [eb, ea3];
    assert SortBy(ByRecency(), [eb, ea3]) == [ea3, eb] by {
      assert [eb, ea3][1..] == [ea3];
      assert SortBy(ByRecency(), [ea3]) == [ea3];
    }
  }
}
