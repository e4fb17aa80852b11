# ShellBat core, modelled in Dafny

ShellBat is a Windows file browser. Its UI is a WebView2 page, and a C#
host owns the state. This project models the parts of that state whose
behaviour can be stated without COM, WebView2 or a message loop. Every
operation is a pure function over immutable data, or a method over
sequences with loop invariants.

- **Navigation history** (`History`). This is the list of visited shell
  locations.
  - Keys are deduplicated ignoring case.
  - The list is re-sorted on every visit and capped at
    `clamp(MaximumHistoryEntries, 10, 1000)`.
  - A back/forward cursor moves over the list with clamped steps.
  - Entries are removed by key, by root prefix or by an existence test.
- **Property-bag settings store** (`SettingsStore`, `Backup`).
  - Values live in a case-insensitive map with a change-detecting setter
    and a getter that falls back to a default.
  - Copies are shallow.
  - Loading falls back tolerantly when the file is missing or broken.
  - Saving is debounced by a timer.
  - Dated backups are named `yyyy_MM_dd.tick.name.json`. The date is parsed
    back out of the name, and a retention filter uses it.
- **Settings lists** (`Settings`).
  - Typed defaults.
  - The allowed thumbnail sizes.
  - The default terminals.
  - Case-insensitive favourite lookup, toggling and pruning.
- **String and key helpers** (`Extensions`, `Shorten`).
  - Hex nibbles.
  - `%`/`#` escaping of paths for the browser.
  - The longest common prefix.
  - Virtual-key classes.
  - `Shorten`, which shows each path by its shortest unique run of trailing
    components.
- **Window state** (`Window`).
  - The hit test of the borderless frame.
  - Pointer double-click detection.
  - The pairing of navigation starts with completions.
  - Monitor-change detection.
- **Web UI keyboard logic** (`WebUi`).
  - Moving the selection cursor and updating the selection set.
  - Rotating between context menus.
  - Mutually exclusive view options.
  - The list of offered thumbnail sizes.

`Common`, `Sorting` and `Removal` are shared helpers:
- options and case folding;
- an insertion sort by an abstract order;
- the remove-while-iterating loops of the source, proved equal to a filter.

## Model

| member | source | states |
|---|---|---|
| `Sorting.SortBySorted` | ShellBat/History.cs:196 | Sorting by a total preorder yields an ordered permutation of the input. |
| `Removal.RemoveEach` | ShellBat/History.cs:209-220 | The remove-while-iterating loop keeps exactly the elements passing the test, in order, and reports a change iff some element failed the test. |
| `Removal.RemoveFirstKeepsOrder` | ShellBat/History.cs:117 | `List.Remove` cuts out exactly the first occurrence of the element; everything else keeps its order. |
| `History.Capacity` | ShellBat/History.cs:151 | The history cap lies in [10, 1000]. A setting below 10 gives 10, one above 1000 gives 1000, and one in between is kept. |
| `History.CapacityClamps` | ShellBat/History.cs:151 | Clamping an already clamped cap changes nothing, and a larger setting never gives a smaller cap. |
| `History.Revisit` | ShellBat/History.cs:137-145 | A revisited entry keeps its key, takes the visit time and the new display name, and keeps an existing icon; the freshly looked-up icon is used only when it had none. |
| `History.Touch` | ShellBat/History.cs:120-146 | An unknown desktop location changes nothing. An unknown location is appended. A known key, matched ignoring case, is updated in place, with every other entry unchanged. |
| `History.Visit` | ShellBat/History.cs:118-157 | A desktop no-op leaves the navigation as it was. Otherwise the cursor is 0, the list is non-empty, its length is the touched length capped by the capacity, and its entries come from the touched list. |
| `History.TouchKeepsKeysUnique` | ShellBat/History.cs:120-146 | Adding or updating an entry keeps the keys unique ignoring case. |
| `History.VisitKeepsKeysUnique` | ShellBat/History.cs:118-157 | A whole visit (touch, sort, trim) keeps the keys unique ignoring case. |
| `History.VisitOrdersAndTrimsTail` | ShellBat/History.cs:148-156 | After a visit the list is sorted, and every dropped entry sorts after every kept one: only the tail is trimmed. |
| `History.RevisitKeepsCount` | ShellBat/History.cs:134-146 | Revisiting a known key, within capacity, keeps the count and holds the updated entry. |
| `History.NewVisitAddsOne` | ShellBat/History.cs:121-133 | Visiting an unknown non-desktop location below capacity adds exactly the new entry. |
| `History.MoveBack` | ShellBat/History.cs:91-97 | A step below 1 or an empty list answers null. Otherwise the cursor goes to `min(count-1, cur+step)`; an unmoved cursor answers null, and a moved one answers the entry there. |
| `History.MoveForward` | ShellBat/History.cs:99-105 | The mirror image of MoveBack, with the cursor going to `max(0, cur-step)`. |
| `History.MovesKeepCursorValid` | ShellBat/History.cs:159-183 | From a valid cursor both moves keep it valid and never index outside the list. |
| `History.BackThenForward` | ShellBat/History.cs:159-183 | Moving back by `step` within range and then forward by `step` returns to the starting navigation and entry. |
| `History.AccessorsInRange` | ShellBat/History.cs:113-115 | With a valid cursor, Current/Previous/Next never index outside the list, Current is null iff the list is empty, and Previous/Next are the neighbours at +1/-1. |
| `History.Clear` | ShellBat/History.cs:201-207 | Clearing answers the previous count and leaves an empty list with cursor -1. |
| `History.ClearedHistoryIsEmpty` | ShellBat/History.cs:112-183 | After a clear both moves and every accessor answer null, and the next recorded visit starts a one-entry history with cursor 0. |
| `History.SetEntries` | ShellBat/History.cs:185-199 | The setter holds exactly the given entries (none for null), with cursor 0 when non-empty and -1 otherwise. |
| `History.SetEntriesSorted` | ShellBat/History.cs:196 | The list the setter stores is sorted. |
| `History.Remove` | ShellBat/History.cs:117 | Removing an entry answers whether it was present. It cuts out exactly its first occurrence, keeps the other entries in order, and leaves the cursor untouched. |
| `History.RemoveEntry` | ShellBat/History.cs:83-89 | A null entry removes nothing and answers false. Any other entry is removed exactly as Remove removes it. |
| `History.RemoveLeavesStaleCursor` | ShellBat/History.cs:113-117 | Removing the last entry while the cursor is on it leaves the cursor past the end, so Current indexes out of range. |
| `History.Reclamp` | ShellBat/History.cs:197 | Bringing the cursor back into the list keeps the entries, makes the cursor valid, and is the identity on a valid cursor. |
| `History.RemoveReclamped` | ShellBat/History.cs:117 | A removal with the cursor re-clamped removes the same entries and keeps every accessor in range. |
| `History.UnderRootMeaning` | ShellBat/History.cs:70-72 | A key is under a root iff it equals the root ignoring case, or extends it ignoring case with `\` or `/` next. |
| `History.RootExamples` | ShellBat/History.cs:70-72 | `C:\Data` covers itself, `C:\Data\x.txt` and `C:\Data/sub`, but not `C:\DataOther`. |
| `History.RootExampleIgnoresCase` | ShellBat/History.cs:70-72 | `C:\Data` covers `c:\DATA\x`. |
| `History.RemoveEntries` | ShellBat/History.cs:62-81 | A null root changes nothing. Otherwise exactly the entries under the root are removed, in order. The answer is true iff one was under it, and the cursor is untouched. |
| `History.RemoveDeletedEntries` | ShellBat/History.cs:209-220 | Exactly the entries whose location no longer exists are removed, in order. The answer is true iff one was missing, and the cursor is untouched. |
| `History.VisitBackForwardSession` | ShellBat/History.cs:118-183 | In a concrete session (visit A, B, A again; back; forward), the revisited A moves to the front, back reaches B and forward returns to A. |
| `SettingsStore.TryGet` | ShellBat/Utilities/JsonBasedSettings.cs:133-137 | A lookup finds a value iff the case-folded name is a key, and then answers the stored value. |
| `SettingsStore.Get` | ShellBat/Utilities/JsonBasedSettings.cs:122-131 | An absent key gives the caller's default. A present one gives the converted value, or the default when conversion fails. |
| `SettingsStore.Set` | ShellBat/Utilities/JsonBasedSettings.cs:139-154 | Setting a value writes it under the folded key and changes no other key. It reports a change, and notifies the name, iff the key was new or held a different value. It keeps keys folded. |
| `SettingsStore.SetThenGetIgnoresCase` | ShellBat/Utilities/JsonBasedSettings.cs:7 | A value set under one spelling is read back under any spelling equal ignoring case. |
| `SettingsStore.SetTwiceIsQuiet` | ShellBat/Utilities/JsonBasedSettings.cs:139-154 | Repeating an identical set reports no change and notifies nobody. |
| `SettingsStore.UnsetReadsDefault` | ShellBat/Utilities/JsonBasedSettings.cs:122-131 | A fresh store reads every property as its default. |
| `SettingsStore.GetNullifiedValue` | ShellBat/Utilities/JsonBasedSettings.cs:112-120 | An absent or null value reads as null. A present value reads as its text, except that empty text reads as null. |
| `SettingsStore.SetThenGetNullified` | ShellBat/Utilities/JsonBasedSettings.cs:112-154 | A value written under one spelling reads back under any casing as its text, nullified; a written null reads as null. |
| `SettingsStore.CopyFrom` | ShellBat/Utilities/JsonBasedSettings.cs:156-164 | The target ends with the union of keys. Source values win and target-only values are kept. Exactly the keys whose value was new or different are notified. |
| `SettingsStore.Clone` | ShellBat/Utilities/JsonBasedSettings.cs:166-173 | A clone holds exactly the source's values, and every key is notified once. |
| `SettingsStore.DeserializeStream` | ShellBat/Utilities/JsonBasedSettings.cs:42-58 | Parsed JSON gives its value and JSON `null` gives null. A failure gives null when errors may return the default, and a fresh instance otherwise. |
| `SettingsStore.DeserializeFile` | ShellBat/Utilities/JsonBasedSettings.cs:17-58 | A missing file gives a fresh instance. An existing file is read as by the stream overload. Null comes exactly from JSON `null`, or from a failed open or parse when errors may return the default; every other failure gives a fresh instance. |
| `SettingsStore.LoadOrNew` | ShellBat/Utilities/JsonBasedSettings.cs:17-40 | Loading with a fallback gives the parsed value when there is one, and a fresh instance otherwise. |
| `SettingsStore.Serialize` | ShellBat/Utilities/JsonBasedSettings.cs:67-107 | No file path is an error. A delay of 0 or less writes now. Otherwise exactly one timer is armed: the first call creates it and later calls push it back. |
| `SettingsStore.TimerElapsed` | ShellBat/Utilities/JsonBasedSettings.cs:86-91 | The timer callback writes once and disarms. |
| `SettingsStore.DeferredSavesCoalesce` | ShellBat/Utilities/JsonBasedSettings.cs:79-91 | Any burst of deferred saves arms one timer and writes nothing; when it fires there is exactly one write. |
| `SettingsStore.Dispose` | ShellBat/Utilities/JsonBasedSettings.cs:233-243 | Disposing with no timer armed does nothing. With one armed it calls Serialize with the default delay, which writes nothing and arms a new timer. |
| `SettingsStore.DisposeLeavesWritePending` | ShellBat/Utilities/JsonBasedSettings.cs:236-242 | After disposing with a save pending, the save is still pending and nothing was written. |
| `SettingsStore.DisposeFlushing` | ShellBat/Utilities/JsonBasedSettings.cs:236-242 | A disposal that writes a pending save at once leaves nothing armed, with exactly one more write. |
| `Backup.ParseNatToString` | ShellBat/Utilities/JsonBasedSettings.cs:198-203 | Reading back the decimal numeral of a number gives the number. |
| `Backup.ParsePad` | ShellBat/Utilities/JsonBasedSettings.cs:198-203 | Reading back a zero-padded numeral gives the number. |
| `Backup.DateStamp` | ShellBat/Utilities/JsonBasedSettings.cs:198-203 | The `yyyy_MM_dd` stamp of a valid date is ten characters of digits and underscores. |
| `Backup.ParseDate` | ShellBat/Utilities/JsonBasedSettings.cs:213-224 | Parsing the date out of a stem only ever yields a valid calendar date. |
| `Backup.ParseDateOfStamp` | ShellBat/Utilities/JsonBasedSettings.cs:222-224 | A date stamp with `_` replaced by `/` parses back to the same date. |
| `Backup.BackupNameRoundTrip` | ShellBat/Utilities/JsonBasedSettings.cs:198-224 | The date read back from a backup file name is the date it was named with, whatever the tick and base name. |
| `Backup.RetentionInDays` | ShellBat/Utilities/JsonBasedSettings.cs:226-229 | With a span of whole days, an older backup is deleted iff it is more than that many days old, or exactly that many with the current day begun. |
| `Backup.Backup` | ShellBat/Utilities/JsonBasedSettings.cs:175-231 | No file path is an error (`InvalidOperationException`). A backup is made iff the span is non-negative and the file exists and is copied. The new name is `yyyy_MM_dd.<tick>.<stem>.json` and parses back to today. The deleted files are exactly the listed files that ShouldDelete selects, in listing order: never the new backup, never an unparsable name, only files older than the span. |
| `Backup.BackupDirectory` | ShellBat/Utilities/JsonBasedSettings.cs:198-202 | The backup directory is named after the file name without extension, plus `.bak`. |
| `Backup.RetentionExample` | ShellBat/Utilities/JsonBasedSettings.cs:208-230 | At noon on 2024-03-31 with a 30-day span, the backups of 2024-02-15 and 2024-03-01 are deleted, while the one of 2024-03-21 and the new one are kept. |
| `Backup.StampsDiffer` | ShellBat/Utilities/JsonBasedSettings.cs:198-203 | Backups of different days never share a name, even ignoring case. |
| `Settings.MaximumInstances` | ShellBat/Settings.cs:82 | An unset or non-integer value reads as 10, and a stored integer reads as itself. |
| `Settings.BackupsMaxDays` | ShellBat/Settings.cs:90 | An unset or non-integer value reads as 30, and a stored integer reads as itself. |
| `Settings.MaximumHistoryEntries` | ShellBat/Settings.cs:94 | An unset or non-integer value reads as 100, and a stored integer reads as itself. |
| `Settings.SetIntReadsBack` | ShellBat/Settings.cs:94 | Setting MaximumHistoryEntries under any casing reads back the written value. |
| `Settings.FreshDefaults` | ShellBat/Settings.cs:63-162 | On an empty bag the typed defaults are 10, 30 and 100, the sizes are the default list, favourites are empty and there are four terminals. |
| `Settings.DefaultThumbnailsSizes` | ShellBat/Settings.cs:63-74 | The default sizes are 27 strictly ascending values from 10 to 512. |
| `Settings.AllowedThumbnailsSizes` | ShellBat/Settings.cs:63-74 | The stored list is used when it is non-empty, and the default list otherwise. |
| `Settings.SetThumbnailsSizesReadsBack` | ShellBat/Settings.cs:63-74 | A non-empty list stored under any casing of the name reads back as itself, and a stored empty list reads as the default list. |
| `Settings.GetTerminals` | ShellBat/Settings.cs:124-162 | The configured terminals are used when there are any. Otherwise there are four defaults keyed pwsh, powershell, cmd, bash, in that order. |
| `Settings.SetTerminalsReadsBack` | ShellBat/Settings.cs:124-162 | Configured terminals stored under any casing of the name are read back as given, and an empty configuration reads as the four built-in terminals. |
| `Settings.Favorites` | ShellBat/Settings.cs:106 | Unset favourites read as an empty list; stored ones read as themselves. |
| `Settings.GetFavoritesIndex` | ShellBat/Settings.cs:177-183 | A null entry gives -1. Otherwise the answer is the first favourite whose key matches ignoring case, or -1 when none matches. |
| `Settings.RemoveAt` | ShellBat/Settings.cs:193 | Removing at an index shifts the later elements down by one and keeps the earlier ones. |
| `Settings.ToggleFavoriteAsWritten` | ShellBat/Settings.cs:185-208 | A null entry answers false and changes nothing. Otherwise the answer is true, but with no list stored the bag is left unchanged. With a list stored it behaves exactly like `Settings.ToggleFavorite`. |
| `Settings.ToggleOnFreshBagIsLost` | ShellBat/Settings.cs:187-206 | On a fresh bag, toggling an entry answers true yet leaves no favourite for it. |
| `Settings.WithFavorites` | ShellBat/Settings.cs:185-208 | Editing the stored list in place leaves that list stored, adds no key other than the favourites key, and keeps every other setting's value. |
| `Settings.ToggleFavorite` | ShellBat/Settings.cs:185-208 | A null entry answers false and changes nothing. A present favourite is removed at its index; an absent one is appended. Every other setting keeps its value. |
| `Settings.ToggleFlips` | ShellBat/Settings.cs:185-208 | With unique favourites, toggling flips whether the entry is a favourite and keeps the favourites unique. |
| `Settings.ToggleTwiceRestores` | ShellBat/Settings.cs:185-208 | Toggling an absent entry twice gives the original favourites back. |
| `Settings.RemoveDeletedFavorites` | ShellBat/Settings.cs:164-175 | Exactly the favourites whose location no longer exists are removed, in order. The answer is true iff one was missing, and unset favourites stay unset. Every other setting keeps its value. |
| `Extensions.NibbleToCharUpper` | ShellBat/Utilities/ShellBatExtensions.cs:30-40 | Low nibbles 0-9 become digits and 10-15 become `A`-`F`. |
| `Extensions.NibbleToCharLower` | ShellBat/Utilities/ShellBatExtensions.cs:42-52 | Low nibbles 0-9 become digits and 10-15 become `a`-`f`. |
| `Extensions.NibbleToChar` | ShellBat/Utilities/ShellBatExtensions.cs:28-52 | The character is a hexadecimal digit worth the low nibble. Its letters are upper-case when `upper` is set and lower-case otherwise. Both forms agree ignoring case. |
| `Extensions.NibbleRoundTrip` | ShellBat/Utilities/ShellBatExtensions.cs:28-52 | Reading either character back as hex gives the low nibble, and the two forms agree ignoring case. |
| `Extensions.NibbleIgnoresHighBits` | ShellBat/Utilities/ShellBatExtensions.cs:28-52 | Only the low four bits matter. |
| `Extensions.EncodePathForWebView2` | ShellBat/Utilities/ShellBatExtensions.cs:56 | Null stays null, and an encoded path contains no `#`. |
| `Extensions.TwoPassesEscapeEachChar` | ShellBat/Utilities/ShellBatExtensions.cs:56 | The two chained replacements equal replacing each `%` by `%25` and each `#` by `%23` in one pass. |
| `Extensions.EncodeRoundTrip` | ShellBat/Utilities/ShellBatExtensions.cs:56 | A left-to-right decoder recovers the path from its encoding. |
| `Extensions.GetCommonPrefix` | ShellBat/Utilities/ShellBatExtensions.cs:176-195 | No strings give null. Otherwise the result is the longest common prefix of all the strings, with an empty prefix turned into null. |
| `Extensions.GetNullifiedString` | ShellBat/Utilities/ShellBatExtensions.cs:246-256 | A null dictionary or a missing key gives null, and a present key gives its nullified value. |
| `Extensions.GetNullifiedStringAfterWrite` | ShellBat/Utilities/ShellBatExtensions.cs:246-256 | After a write the lookup of that name answers the written value, nullified. The answer for every other name is unchanged. |
| `Extensions.KeyClassesDisjoint` | ShellBat/Utilities/ShellBatExtensions.cs:309-327 | Enter is whitespace, and no key is in two of the letter, digit, function, navigation, modifier, whitespace, backspace and escape classes. |
| `Extensions.KeysOfCharacters` | ShellBat/Utilities/ShellBatExtensions.cs:309-326 | A typed letter of either case, folded to upper case, is a letter key, and nothing else folds to one. Digit characters are digit keys. Every numeric-keypad key, operators and Num Lock included, is a digit key that is neither a letter nor a digit character. |
| `Shorten.Components` | ShellBat/Utilities/ShellBatExtensions.cs:363-365 | Splitting on `\` and `/` without empty entries gives non-empty, separator-free components. |
| `Shorten.ComponentsOfJoin` | ShellBat/Utilities/ShellBatExtensions.cs:363-365 | Splitting a `\`-joined list of components gives the components back. |
| `Shorten.ChooseTake` | ShellBat/Utilities/ShellBatExtensions.cs:373-381 | The take loop stops at the first suffix length whose suffix ends no other path, or past the whole path when none does. |
| `Shorten.ShortenPaths` | ShellBat/Utilities/ShellBatExtensions.cs:359-386 | There is one result per path, in order, and each is the join of a trailing run of that path's components. |
| `Shorten.ShortenUnique` | ShellBat/Utilities/ShellBatExtensions.cs:373-381 | A chosen suffix that lies within its path ends no other path. |
| `Shorten.ShortenMinimal` | ShellBat/Utilities/ShellBatExtensions.cs:373-381 | Every shorter suffix also ends some other path. |
| `Shorten.ShortenFallsBackToWhole` | ShellBat/Utilities/ShellBatExtensions.cs:373-384 | When no suffix is unique, the whole path is shown. |
| `Shorten.DuplicateShownWhole` | ShellBat/Utilities/ShellBatExtensions.cs:373-384 | A path whose components repeat another path's is shown whole. |
| `Window.SignedLoWord` | ShellBat/Windows/WebViewCompositionWindow.cs:421 | The low word is read as a signed 16-bit value congruent to the input modulo 65536. |
| `Window.SignedHiWord` | ShellBat/Windows/WebViewCompositionWindow.cs:422 | The high word is read as a signed 16-bit value congruent, modulo 65536, to the input shifted down by 16 bits. |
| `Window.HitTest` | ShellBat/Windows/WebViewCompositionWindow.cs:418-459 | Only points with `0 <= x < Width` and `0 <= y <= Height` answer. Left-band codes appear iff `x < bw`, right-band codes iff `x > Width - bw` outside the left band, and the caption only inside the caption rect away from the top and bottom borders. |
| `Window.HitTestRegions` | ShellBat/Windows/WebViewCompositionWindow.cs:425-458 | Each code is answered on exactly its region. In the side bands, corners take the rows `y <= bh` and `y >= Height - bh`. In the middle band, TOP takes `y < bh` and BOTTOM `y > Height - bh`. CAPTION is answered exactly where no border rule applies and the caption rect contains the point; everywhere else the answer is null. |
| `Window.HitTestMessage` | ShellBat/Windows/WebViewCompositionWindow.cs:418-424 | `WM_NCHITTEST` answers only for a packed point that lies in the window once made relative to its top-left corner. |
| `Window.HitTestMessageUnpacks` | ShellBat/Windows/WebViewCompositionWindow.cs:418-424 | A screen point packed as `MAKELPARAM(x, y)` unpacks to the same signed coordinates, so the message tests exactly that point. |
| `Window.BorderBoundaries` | ShellBat/Windows/WebViewCompositionWindow.cs:425-453 | Corner tests are inclusive and edge tests strict. The column `Width - bw` is still TOP, so the right band is one column narrower than the left. The row `y == Height` still answers. |
| `Window.BordersBeforeCaption` | ShellBat/Windows/WebViewCompositionWindow.cs:425-457 | Any point in a border band gets a resize code even when the caption covers the whole window. |
| `Window.PointerContact` | ShellBat/Windows/WebViewCompositionWindow.cs:603-619 | A pointer-up is never a double click. A press is a double click iff it comes within the double-click time and box of the remembered press. Only a press that is not a double click becomes the remembered one. |
| `Window.ThirdPressMeasuredFromFirst` | ShellBat/Windows/WebViewCompositionWindow.cs:609-618 | Of three quick presses at one spot, the second is a double click and the third is not, because it is measured from the first. |
| `Window.NavigationStarting` | ShellBat/Windows/WebViewCompositionWindow.cs:90-96 | A started navigation is recorded under its id, uncompleted, and other records are kept. |
| `Window.NavigationCompleted` | ShellBat/Windows/WebViewCompositionWindow.cs:116-124 | A completion is reported iff its id was recorded, with the status filled in, and the record is dropped. |
| `Window.CompletionReportedOnce` | ShellBat/Windows/WebViewCompositionWindow.cs:96-124 | A started navigation is reported complete once with its URI; a repeated completion reports nothing. |
| `Window.UpdateMonitor` | ShellBat/Windows/WebViewCompositionWindow.cs:242-250 | A change is raised iff the monitor differs, and the stored handle then follows the window. |
| `WebUi.MoveStepAsWritten` | ShellBat/WebRoot/Modules/ShellBat.js:1947-2056 | No entries, or meta/alt held, declines the key. Otherwise each key does what the handler does. In details view Up and Down move by one and are refused (answer true) at the first and last entry; Left and Right are refused. In images view Up and Down move by a row and are refused when there is no such row, and Down from no selection goes to entry 0; Left and Right move by one, Left is refused at the first entry and Right answers `undefined` at the last. Ctrl with Home, End, PageUp or PageDown declines. Home goes to 0, End to the last entry, PageUp and PageDown (in either view) move by the page size clamped to the first and last entry, and any other key declines. |
| `WebUi.ArrowRightAtEndNotSwallowed` | ShellBat/WebRoot/Modules/ShellBat.js:2006-2014 | ArrowRight on the last image answers `undefined`, so the key is not swallowed, while ArrowLeft on the first image is. |
| `WebUi.MoveStep` | ShellBat/WebRoot/Modules/ShellBat.js:1947-2056 | The refused ArrowRight answers true (consumed), so there is no `undefined` answer. Every other event is handled as written. |
| `WebUi.HandledArrowsSwallowed` | ShellBat/WebRoot/Modules/ShellBat.js:1956-2016 | Up/Down, and Left/Right in images view, are always swallowed when there are entries and no meta/alt. |
| `WebUi.MoveStaysInRange` | ShellBat/WebRoot/Modules/ShellBat.js:1956-2050 | From a cursor in [-1, total), every move lands on an entry. The one exception is PageDown by an empty page with nothing selected. |
| `WebUi.DetailsUpDownInverse` | ShellBat/WebRoot/Modules/ShellBat.js:1957-1992 | In details view, Up moves by one unless at the first entry, Down moves by one unless at the last, and each undoes the other. |
| `WebUi.ImagesUpDownInverse` | ShellBat/WebRoot/Modules/ShellBat.js:1958-1985 | In images view, Up and Down move by one row and undo each other inside the grid. |
| `WebUi.PagingClamps` | ShellBat/WebRoot/Modules/ShellBat.js:2018-2050 | In either view, PageUp/PageDown move by the page size, clamped to the first and last entry; Ctrl declines them. |
| `WebUi.SelectEntry` | ShellBat/WebRoot/Modules/ShellBat.js:2059-2094 | The answer is true iff the entry exists. A right click on a selected entry keeps the selection. Extend adds exactly the span between the previous index and the entry, in either order. Add changes only the entry itself. Otherwise exactly the entry is selected. |
| `WebUi.ExtendSelectsSpan` | ShellBat/WebRoot/Modules/ShellBat.js:2066-2074 | Extending keeps the old selection and selects both ends and every index between them. It adds nothing outside that span. |
| `WebUi.AddTwiceRestores` | ShellBat/WebRoot/Modules/ShellBat.js:2075-2084 | Ctrl-selecting the same entry flips it, and doing so twice gives the selection back. |
| `WebUi.MoveSelection` | ShellBat/WebRoot/Modules/ShellBat.js:1947-2056 | Built on the corrected step of the ArrowRight finding (`WebUi.MoveStep`): ArrowRight on the last image answers true where the source answers `undefined`. A non-move leaves everything as it was. The answer is true iff the key is swallowed and any move reached an entry. No entries, or meta/alt held, answers false. A move sets the cursor to the step's target, and the selection and answer are those of `selectEntry` at that target, extending with Shift and adding with Ctrl. |
| `WebUi.PlainMoveSelectsOne` | ShellBat/WebRoot/Modules/ShellBat.js:2056-2094 | A move without Shift or Ctrl leaves exactly the new entry selected. |
| `WebUi.ShiftEndSelectsTail` | ShellBat/WebRoot/Modules/ShellBat.js:2024-2074 | Shift+End selects every entry from the cursor to the last one and keeps the old selection. |
| `WebUi.Rotate` | ShellBat/WebRoot/Modules/ShellBat.js:72-92 | A non-numeric id opens nothing. Any numeric id gives a menu id in [0, MaxId). |
| `WebUi.RotateImagesCycles` | ShellBat/WebRoot/Modules/ShellBat.js:78-89 | In images view, forward rotation is +1 modulo MaxId and backward rotation undoes it. |
| `WebUi.RotateSkipsThumbnailSize` | ShellBat/WebRoot/Modules/ShellBat.js:78-89 | Outside images view the thumbnail-size menu is stepped over, and forward then backward returns to any other menu, unless that menu is first or last; there the wrap lands on it. |
| `WebUi.ChooseOption` | ShellBat/WebRoot/Modules/ShellBat.js:1049-1075 | The chosen flag flips and unrelated flags are unchanged. After choosing either flag of an exclusive pair, the pair is never both set. |
| `WebUi.ChooseKeepsExclusive` | ShellBat/WebRoot/Modules/ShellBat.js:1049-1075 | From a state without both flags of the pair, no choice produces both. |
| `WebUi.ChooseTwiceDropsPartner` | ShellBat/WebRoot/Modules/ShellBat.js:1049-1075 | Choosing a flag twice turns it back off, but the partner it cleared stays cleared. |
| `WebUi.OfferedSizes` | ShellBat/WebRoot/Modules/ShellBat.js:572-576 | The current size is always offered. A missing size is added once and the list is sorted ascending; a present one leaves the list as it was. |
| `WebUi.OfferedSizesIdempotent` | ShellBat/WebRoot/Modules/ShellBat.js:572-576 | Offering sizes a second time changes nothing. |

## Left out

- I/O is replaced by parameters:
  - existence checks (`Entry.Get`, `File.Exists`) and the icon-cache lookup;
  - the backup copy result and the directory listing;
  - `DateTime.Now` and `Environment.TickCount`;
  - the JSON read outcome;
  - the page's rendered elements, items per line and page size.
- The JSON codec, temp-file writes, `FileOverwrite` and exception swallowing are left out. The debounce timer is an abstract "pending" flag plus a write counter; the timer thread itself is not modelled.
- Case-insensitive comparison (`OrdinalIgnoreCase`) is ASCII upper-case folding. Unicode simple case mapping is left out.
- `Nullify` turns the empty string into null. Whitespace handling of the real helper is not part of this model.
- The `HistoryEntry` comparator is not part of this model. Sorting takes an abstract order, proved sorted only for a total preorder. `List.Sort` instability is covered by proving only an ordered permutation.
- `History.Remove` uses value equality where the source uses reference identity. With unique keys the two agree.
- `Conversions.TryChangeType` is replaced by concrete strict conversions over a `SettingValue` datatype.
- Resource strings for the default terminals' display names are resource keys.
- `Backup.Backup` reads the clock once, where the source reads `DateTime.Now` again for each listed file.
- `DateTime.TryParse` is restricted to the `y/M/d` numerals the backup names use. Culture-dependent formats are left out. Calendar dates are proleptic Gregorian years 1 to 9999.
- `Path.GetDirectoryName`/`GetFileNameWithoutExtension` edge cases are modelled by plain last-separator and last-dot scans. Roots and UNC paths are left out.
- `SettingsStore.Set` keeps keys in folded form, so `SettingsStore.CopyFrom` and `SettingsStore.Clone` report folded names. The source's `ConcurrentDictionary` with `OrdinalIgnoreCase` keeps the first spelling a key was stored under, and `CopyFrom` notifies that spelling. Which spelling is kept is not modelled; which keys exist and what they hold is.
- `History.NewEntry` stamps the new entry's `LastVisitedTime` with the visit time. The `HistoryEntry` initializer that sets it in the source is not part of this model.
- `SettingsStore.Set` compares the old and new value structurally, while the source's `!Equals(value, o)` (JsonBasedSettings.cs:145) is reference equality for list and object values. Writing a new list equal to the stored one reports a change, and notifies, in the source but not in the model. Object identity is not modelled.
- `Settings.ToggleFavorite` does not model the `SerializeToConfiguration()` call that ends the source method (Settings.cs:206). Saving is the store's concern (`SettingsStore.Serialize`), and the call is left out here.
- `History.Visit` is one atomic step. The source awaits the icon lookup inside `Visit` (History.cs:130 and 143), so another call could interleave there; interleavings are not modelled.
- `Window.HitTest` assumes `RECT.Contains` is half-open. That method's source is not part of this model.
- `Window.PointerContact`: `Math.Abs(int.MinValue)` overflow and 32-bit wrap of pointer deltas and performance counts are not modelled. Integers are unbounded.
- `History.MoveBack`: `_currentIndex + step` overflow in 32 bits is not modelled. The only callers pass a step of 1.
- `Tools.toggleFlags` is not part of this model. It is taken to flip exactly the chosen flag.
- The `Enums.MenuId` values are not part of this model. `AppThumbnailSize` and `MaxId` are parameters with `0 <= AppThumbnailSize < MaxId`.
- `moveSelection` also calls `Tools.scrollIntoViewIfNeeded`, `showWindow` and `updateAppItems`, and changes CSS classes. These are DOM effects and are left out. A `-1` index from an extend span is kept in the selection set, as in the source.
- `GetCommonPrefix` is modelled on strings given directly. The enum reflection of `GetEnumCommonPrefix` is left out.
- COM, WebView2, message pumping, drag-drop, registry readers, `FormatByteSize`, `GetScaleFactor` and the copy-data helpers are outside the modelled core.

## Findings

| source | as written | input that shows it | evidently intended | confidence | as-written member | corrected member |
|---|---|---|---|---|---|---|
| ShellBat/History.cs:117 | `Remove` drops the entry and never re-clamps `_currentIndex` | entries `[a, b]`, cursor 1, remove `b`: cursor 1 on a one-entry list, so `Current` indexes past the end | the cursor brought back into the list after a removal | not executed | `History.RemoveLeavesStaleCursor` | `History.RemoveReclamped` |
| ShellBat/Settings.cs:185-208 | with no favourites stored, the getter returns a new empty list; the entry is added to it and the list is never stored | a fresh settings bag, toggle any entry: answers true, no favourite afterwards | the new list stored back as the favourites | not executed | `Settings.ToggleOnFreshBagIsLost` | `Settings.ToggleFavorite` |
| ShellBat/Utilities/JsonBasedSettings.cs:233-243 | `Dispose` disposes a pending timer and calls `Serialize` with the default 300 ms delay, which arms a new timer instead of writing | a store with a deferred save pending is disposed: the write is still pending afterwards | the pending save written synchronously (`deferTime` 0) | not executed | `SettingsStore.DisposeLeavesWritePending` | `SettingsStore.DisposeFlushing` |
| ShellBat/WebRoot/Modules/ShellBat.js:2006-2014 | ArrowRight on the last image does `return;` where every sibling refusal does `return true;` | images view, cursor on the last entry, ArrowRight: `moveSelection` answers `undefined`, so the key is not swallowed | `return true` like ArrowLeft at the first image | not executed | `WebUi.ArrowRightAtEndNotSwallowed` | `WebUi.MoveStep` |
