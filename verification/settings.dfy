/**
 * The application settings of ShellBat/Settings.cs, a property bag whose
 * typed properties fall back to declared defaults, together with the list
 * logic built on it: thumbnail sizes, terminals, and the favourites list
 * (lookup, toggle, pruning).
 */
module Settings {
  import opened Common
  import opened SettingsStore
  import Removal
  import Sorting

  datatype Favorite = Favorite(parsingName: string, displayName: string, iconPath: Option<string>)

  datatype TerminalEntry = TerminalEntry(
    key: string,
    displayName: string,
    commandLine: string,
    changeDirectoryCommand: string,
    supportsShellBatSync: bool,
    supportsCmdNotFound: bool,
    isWsl: bool)

  /** The shell item a favourite is toggled for. */
  datatype Entry = Entry(parsingName: string, displayName: string)

  /** The values the bag holds for the properties modelled here. */
  datatype SettingValue =
    | IntValue(i: int)
    | IntList(ints: seq<int>)
    | FavoriteList(favorites: seq<Favorite>)
    | TerminalList(terminals: seq<TerminalEntry>)

  type Bag = Store<SettingValue>

  // `Conversions.TryChangeType` for each target type: a stored value of
  // another shape (or null) does not convert.

  function AsInt(v: Option<SettingValue>): Option<int> {
    if v.Some? && v.value.IntValue? then Some(v.value.i) else None
  }

  function AsIntList(v: Option<SettingValue>): Option<Option<seq<int>>> {
    if v.Some? && v.value.IntList? then Some(Some(v.value.ints)) else None
  }

  function AsFavorites(v: Option<SettingValue>): Option<Option<seq<Favorite>>> {
    if v.Some? && v.value.FavoriteList? then Some(Some(v.value.favorites)) else None
  }

  function AsTerminals(v: Option<SettingValue>): Option<Option<seq<TerminalEntry>>> {
    if v.Some? && v.value.TerminalList? then Some(Some(v.value.terminals)) else None
  }

  /** The value stored under `name`, when it has the expected shape. */
  predicate HoldsInt(s: Bag, name: string, i: int) {
    TryGet(s, name).1 == Some(IntValue(i))
  }

  // ------------------------------------------------------ typed defaults

  /** `GetPropertyValue(default)` for an `int` property. */
  function IntProperty(s: Bag, name: string, default: int): (r: int)
    ensures (forall i :: !HoldsInt(s, name, i)) ==> r == default
    ensures forall i :: HoldsInt(s, name, i) ==> r == i
  {
    var stored := TryGet(s, name).1;
    assert stored.Some? && stored.value.IntValue? ==> HoldsInt(s, name, stored.value.i);
    Get(s, name, default, AsInt)
  }

  function MaximumInstances(s: Bag): (r: int)
    ensures (forall i :: !HoldsInt(s, "MaximumInstances", i)) ==> r == 10
    ensures forall i :: HoldsInt(s, "MaximumInstances", i) ==> r == i
  {
    IntProperty(s, "MaximumInstances", 10)
  }

  function BackupsMaxDays(s: Bag): (r: int)
    ensures (forall i :: !HoldsInt(s, "BackupsMaxDays", i)) ==> r == 30
    ensures forall i :: HoldsInt(s, "BackupsMaxDays", i) ==> r == i
  {
    IntProperty(s, "BackupsMaxDays", 30)
  }

  function MaximumHistoryEntries(s: Bag): (r: int)
    ensures (forall i :: !HoldsInt(s, "MaximumHistoryEntries", i)) ==> r == 100
    ensures forall i :: HoldsInt(s, "MaximumHistoryEntries", i) ==> r == i
  {
    IntProperty(s, "MaximumHistoryEntries", 100)
  }

  /** A typed property set under any casing of its name is what the getter returns. */
  lemma SetIntReadsBack(s: Bag, written: string, i: int)
    requires EqualsIgnoreCase(written, "MaximumHistoryEntries")
    ensures MaximumHistoryEntries(Set(s, written, Some(IntValue(i))).store) == i
  {
    SetThenGetIgnoresCase(s, written, "MaximumHistoryEntries", Some(IntValue(i)), 100, AsInt);
  }

  /** A fresh bag answers the declared defaults. */
  lemma FreshDefaults()
    ensures MaximumInstances(Empty()) == 10
    ensures BackupsMaxDays(Empty()) == 30
    ensures MaximumHistoryEntries(Empty()) == 100
    ensures AllowedThumbnailsSizes(Empty()) == DefaultThumbnailsSizes()
    ensures Favorites(Empty()) == []
    ensures |GetTerminals(Empty())| == 4
  {
  }

  // ------------------------------------------------------ thumbnail sizes

  function DefaultThumbnailsSizes(): (r: seq<int>)
    ensures |r| == 27 && r[0] == 10 && r[26] == 512
    ensures forall i, j :: 0 <= i < j < |r| ==> r[i] < r[j]
  {
    [10, 16, 20, 30, 32, 40, 48, 50, 60, 64, 70, 80, 90, 96, 100, 110, 125, 128, 150, 175, 200, 250, 256, 300, 400, 500, 512]
  }

  /** `AllowedThumbnailsSizes`: the stored list unless it is null, empty or not a list. */
  function AllowedThumbnailsSizes(s: Bag): (r: seq<int>)
    ensures r != []
    ensures TryGet(s, "AllowedThumbnailsSizes").1 == Some(IntList(r)) || r == DefaultThumbnailsSizes()
    ensures forall l :: TryGet(s, "AllowedThumbnailsSizes").1 == Some(IntList(l)) && l != [] ==> r == l
  {
    var sizes := Get(s, "AllowedThumbnailsSizes", None, AsIntList);
    if sizes.None? || sizes.value == [] then DefaultThumbnailsSizes() else sizes.value
  }

  /**
   * A non-empty list stored under any casing of the property name is the
   * list answered; storing an empty list brings the defaults back.
   */
  lemma SetThumbnailsSizesReadsBack(s: Bag, written: string, sizes: seq<int>)
    requires EqualsIgnoreCase(written, "AllowedThumbnailsSizes")
    ensures sizes != [] ==> AllowedThumbnailsSizes(Set(s, written, Some(IntList(sizes))).store) == sizes
    ensures sizes == [] ==> AllowedThumbnailsSizes(Set(s, written, Some(IntList(sizes))).store) == DefaultThumbnailsSizes()
  {
    SetThenGetIgnoresCase(s, written, "AllowedThumbnailsSizes", Some(IntList(sizes)), None, AsIntList);
  }

  // ------------------------------------------------------ terminals

  function DefaultTerminals(): seq<TerminalEntry> {
    [ TerminalEntry("pwsh", "Powershell",
        "pwsh.exe -NoExit -Command \"Set-Location -LiteralPath '{0}'\"",
        "Set-Location -LiteralPath '{0}'", false, false, false),
      TerminalEntry("powershell", "WindowsPowershell",
        "powershell.exe -NoExit -Command \"Set-Location -LiteralPath '{0}'\"",
        "Set-Location -LiteralPath '{0}'", false, false, false),
      TerminalEntry("cmd", "CommandPrompt",
        "cmd.exe /k \"cd /d {0}\"",
        "cd /d {0}", true, true, false),
      TerminalEntry("bash", "Bash",
        "%windir%\\system32\\bash.exe",
        "cd '{0}'", false, false, true) ]
  }

  function Terminals(s: Bag): seq<TerminalEntry> {
    Get(s, "Terminals", None, AsTerminals).GetOr([])
  }

  /** `GetTerminals()`: the configured terminals, or the four built-in ones when there are none. */
  function GetTerminals(s: Bag): (r: seq<TerminalEntry>)
    ensures Terminals(s) != [] ==> r == Terminals(s)
    ensures Terminals(s) == [] ==>
      && |r| == 4
      && r[0].key == "pwsh" && r[1].key == "powershell" && r[2].key == "cmd" && r[3].key == "bash"
      && (forall i :: 0 <= i < 4 ==> (r[i].supportsShellBatSync <==> r[i].key == "cmd"))
      && (forall i :: 0 <= i < 4 ==> (r[i].isWsl <==> r[i].key == "bash"))
    ensures r != []
  {
    var terminals := Terminals(s);
    if terminals == [] then DefaultTerminals() else terminals
  }

  /** Configured terminals are read back as given; an empty configuration gives the built-in four. */
  lemma SetTerminalsReadsBack(s: Bag, written: string, terminals: seq<TerminalEntry>)
    requires EqualsIgnoreCase(written, "Terminals")
    ensures terminals != [] ==> GetTerminals(Set(s, written, Some(TerminalList(terminals))).store) == terminals
    ensures terminals == [] ==> GetTerminals(Set(s, written, Some(TerminalList(terminals))).store) == DefaultTerminals()
  {
    SetThenGetIgnoresCase(s, written, "Terminals", Some(TerminalList(terminals)), None, AsTerminals);
  }

  // ------------------------------------------------------ favourites

  /** The stored favourites list, when the bag holds one. */
  function StoredFavorites(s: Bag): Option<seq<Favorite>> {
    Get(s, "Favorites", None, AsFavorites)
  }

  /** `Favorites`: the stored list, or a new empty list that is not stored. */
  function Favorites(s: Bag): (r: seq<Favorite>)
    ensures StoredFavorites(s).None? ==> r == []
    ensures StoredFavorites(s).Some? ==> r == StoredFavorites(s).value
  {
    StoredFavorites(s).GetOr([])
  }

  function FavoriteKey(f: Favorite): string {
    FoldString(f.parsingName)
  }

  function MatchesEntry(parsingName: string): Favorite -> bool {
    (f: Favorite) => EqualsIgnoreCase(f.parsingName, parsingName)
  }

  /** `GetFavoritesIndex(entry)`: the first favourite naming the entry, ignoring case, or -1. */
  function GetFavoritesIndex(s: Bag, entry: Option<Entry>): (r: int)
    ensures entry.None? ==> r == -1
    ensures -1 <= r < |Favorites(s)|
    ensures r >= 0 ==> entry.Some? && EqualsIgnoreCase(Favorites(s)[r].parsingName, entry.value.parsingName)
    ensures entry.Some? ==> forall j :: 0 <= j < |Favorites(s)| && (r < 0 || j < r) ==>
      !EqualsIgnoreCase(Favorites(s)[j].parsingName, entry.value.parsingName)
  {
    match entry
    case None => -1
    case Some(e) => IndexOf(Favorites(s), MatchesEntry(e.parsingName))
  }

  function RemoveAt<T>(s: seq<T>, i: nat): (r: seq<T>)
    requires i < |s|
    ensures |r| == |s| - 1
    ensures forall j :: 0 <= j < i ==> r[j] == s[j]
    ensures forall j :: i <= j < |r| ==> r[j] == s[j + 1]
  {
    s[..i] + s[i + 1..]
  }

  /** Every setting other than the favourites list keeps its slot and its value. */
  predicate OtherSettingsKept(s: Bag, r: Bag) {
    forall k :: k in s.values && k != FoldString("Favorites") ==> k in r.values && r.values[k] == s.values[k]
  }

  /** Writes the favourites list into the bag's slot directly, as an in-place list edit does. */
  function WithFavorites(s: Bag, favorites: seq<Favorite>): (r: Bag)
    ensures StoredFavorites(r) == Some(favorites)
    ensures r.values.Keys == s.values.Keys + {FoldString("Favorites")}
    ensures OtherSettingsKept(s, r)
  {
    Set(s, "Favorites", Some(FavoriteList(favorites))).store
  }

  function NewFavorite(e: Entry, icon: Option<string>): Favorite {
    Favorite(e.parsingName, e.displayName, icon)
  }

  /**
   * `ToggleFavorite(entry)` as written. `icon` is the cached icon path the
   * local server hands back. When no list is stored, `Favorites` returns a
   * new empty list each time, so the favourite is added to a list nobody
   * keeps.
   */
  function ToggleFavoriteAsWritten(s: Bag, entry: Option<Entry>, icon: Option<string>): (r: (bool, Bag))
    ensures entry.None? ==> r == (false, s)
    ensures entry.Some? ==> r.0
    ensures StoredFavorites(s).None? ==> r.1 == s
    ensures StoredFavorites(s).Some? ==> r == ToggleFavorite(s, entry, icon)
  {
    match entry
    case None => (false, s)
    case Some(e) =>
      var index := GetFavoritesIndex(s, entry);
      match StoredFavorites(s)
      case None => (true, s)
      case Some(list) =>
        if index >= 0 then (true, WithFavorites(s, RemoveAt(list, index)))
        else (true, WithFavorites(s, list + [NewFavorite(e, icon)]))
  }

  /** On a bag with no favourites stored, toggling reports success yet no favourite exists afterwards. */
  lemma ToggleOnFreshBagIsLost(e: Entry, icon: Option<string>)
    ensures var r := ToggleFavoriteAsWritten(Empty(), Some(e), icon);
      r.0 && GetFavoritesIndex(r.1, Some(e)) == -1
  {
  }

  /** `ToggleFavorite` with the list stored back when it was unset. */
  function ToggleFavorite(s: Bag, entry: Option<Entry>, icon: Option<string>): (r: (bool, Bag))
    ensures entry.None? ==> r == (false, s)
    ensures entry.Some? ==> r.0
    ensures entry.Some? && GetFavoritesIndex(s, entry) >= 0 ==>
      Favorites(r.1) == RemoveAt(Favorites(s), GetFavoritesIndex(s, entry))
    ensures entry.Some? && GetFavoritesIndex(s, entry) < 0 ==>
      Favorites(r.1) == Favorites(s) + [NewFavorite(entry.value, icon)]
    ensures OtherSettingsKept(s, r.1)
  {
    match entry
    case None => (false, s)
    case Some(e) =>
      var list := Favorites(s);
      var index := GetFavoritesIndex(s, entry);
      if index >= 0 then (true, WithFavorites(s, RemoveAt(list, index)))
      else (true, WithFavorites(s, list + [NewFavorite(e, icon)]))
  }

  /** Favourites never name the same item twice (ignoring case). */
  ghost predicate UniqueFavorites(s: Bag) {
    Sorting.DistinctKeys(FavoriteKey, Favorites(s))
  }

  /** Toggling keeps favourites unique and flips whether the entry is a favourite. */
  lemma ToggleFlips(s: Bag, e: Entry, icon: Option<string>)
    requires UniqueFavorites(s)
    ensures var after := ToggleFavorite(s, Some(e), icon).1;
      && UniqueFavorites(after)
      && (GetFavoritesIndex(after, Some(e)) >= 0 <==> GetFavoritesIndex(s, Some(e)) < 0)
  {
    var list := Favorites(s);
    var index := GetFavoritesIndex(s, Some(e));
    var after := ToggleFavorite(s, Some(e), icon).1;
    var l2 := Favorites(after);
    if index >= 0 {
      assert l2 == RemoveAt(list, index);
      forall j | 0 <= j < |l2|
        ensures !EqualsIgnoreCase(l2[j].parsingName, e.parsingName)
      {
        if j < index {
          assert l2[j] == list[j];
        } else {
          assert l2[j] == list[j + 1];
          assert FavoriteKey(list[index]) != FavoriteKey(list[j + 1]);
        }
      }
    } else {
      assert l2 == list + [NewFavorite(e, icon)];
      assert MatchesEntry(e.parsingName)(l2[|list|]);
    }
  }

  /** Adding and then removing a favourite gives back the list it started from. */
  lemma ToggleTwiceRestores(s: Bag, e: Entry, icon: Option<string>)
    requires GetFavoritesIndex(s, Some(e)) < 0
    ensures Favorites(ToggleFavorite(ToggleFavorite(s, Some(e), icon).1, Some(e), icon).1) == Favorites(s)
  {
    var list := Favorites(s);
    var once := ToggleFavorite(s, Some(e), icon).1;
    assert Favorites(once) == list + [NewFavorite(e, icon)];
    assert MatchesEntry(e.parsingName)(Favorites(once)[|list|]);
    var index := GetFavoritesIndex(once, Some(e));
    assert index == |list|;
    assert RemoveAt(Favorites(once), index) == list;
  }

  function Present(present: string -> bool): Favorite -> bool {
    (f: Favorite) => present(f.parsingName)
  }

  /**
   * `RemoveDeletedFavorites()`: each favourite of a snapshot whose item no
   * longer resolves is removed from the live list. `present` stands for
   * `Entry.Get(...) != null`. With no list stored there is nothing to remove.
   */
  method RemoveDeletedFavorites(s: Bag, present: string -> bool) returns (changed: bool, r: Bag)
    ensures Favorites(r) == Filter(Present(present), Favorites(s))
    ensures changed <==> exists k :: 0 <= k < |Favorites(s)| && !present(Favorites(s)[k].parsingName)
    ensures StoredFavorites(s).None? ==> r == s
    ensures OtherSettingsKept(s, r)
  {
    match StoredFavorites(s)
    case None =>
      changed, r := false, s;
    case Some(list) =>
      var kept;
      changed, kept := Removal.RemoveEach(list, Present(present));
      r := WithFavorites(s, kept);
  }
}
