/**
 * The keyboard and menu logic of ShellBat/WebRoot/Modules/ShellBat.js:
 * moving the selection cursor over the entry list (`moveSelection`),
 * updating the selection set (`selectEntry`), rotating between context
 * menus, the mutually exclusive option flags, and the list of thumbnail
 * sizes offered in the size menu.
 *
 * The page is abstracted: entries `e#0` .. `e#(total-1)` are the rendered
 * elements, so an index names an element exactly when it lies in
 * `[0, total)`; `getItemsPerLine()` and `window.paging` are parameters.
 */
module WebUi {
  import opened Common
  import Sorting

  // ------------------------------------------------------ keyboard events

  datatype View = Details | Images

  datatype KeyCode = ArrowUp | ArrowDown | ArrowLeft | ArrowRight | Home | End | PageUp | PageDown | OtherKey

  datatype KeyEvent = KeyEvent(code: KeyCode, ctrl: bool, shift: bool, meta: bool, alt: bool)

  /** What the key handler makes of an event before any element is selected. */
  datatype Step =
    | Declined            // `return false`: the key is not a selection move
    | Consumed            // `return true`: the move is refused at an edge, the key is swallowed
    | NoAnswer            // `return;`: the caller reads `undefined`, which is falsy
    | MoveTo(index: int)  // `selectionIndex` becomes `index` and `selectEntry` runs

  /**
   * The `switch (e.code)` of `moveSelection`, exactly as written: `index`
   * is `selectionIndex` (-1 when nothing was selected yet), `total` is
   * `totalEntries`.
   */
  function MoveStepAsWritten(view: View, e: KeyEvent, total: nat, index: int,
                             itemsPerLine: int, paging: int): (r: Step)
    ensures total == 0 || e.meta || e.alt ==> r == Declined
    ensures r == NoAnswer ==> e.code == ArrowRight && view == Images && index >= total - 1
    ensures r.MoveTo? && e.code == Home ==> r.index == 0
    ensures r.MoveTo? && e.code == End ==> r.index == total - 1
    // one clause per key, for a handled event (entries present, no meta/alt)
    ensures total > 0 && !e.meta && !e.alt ==>
      && (e.code == ArrowUp && view == Details ==>
            (if index <= 0 then r == Consumed else r == MoveTo(index - 1)))
      && (e.code == ArrowUp && view == Images ==>
            (if index < itemsPerLine then r == Consumed else r == MoveTo(index - itemsPerLine)))
      && (e.code == ArrowDown && view == Details ==>
            (if index >= total - 1 then r == Consumed else r == MoveTo(index + 1)))
      && (e.code == ArrowDown && view == Images && index < 0 ==> r == MoveTo(0))
      && (e.code == ArrowDown && view == Images && index >= 0 ==>
            (if index + itemsPerLine >= total then r == Consumed else r == MoveTo(index + itemsPerLine)))
      && (e.code == ArrowLeft && view == Images ==>
            (if index <= 0 then r == Consumed else r == MoveTo(index - 1)))
      && (e.code == ArrowRight && view == Images ==>
            (if index >= total - 1 then r == NoAnswer else r == MoveTo(index + 1)))
      && ((e.code == ArrowLeft || e.code == ArrowRight) && view == Details ==> r == Consumed)
      && ((e.code == Home || e.code == End || e.code == PageUp || e.code == PageDown) && e.ctrl ==> r == Declined)
      && (e.code == Home && !e.ctrl ==> r == MoveTo(0))
      && (e.code == End && !e.ctrl ==> r == MoveTo(total - 1))
      && (e.code == PageUp && !e.ctrl ==>
            r == MoveTo(if index - paging < 0 then 0 else index - paging))
      && (e.code == PageDown && !e.ctrl ==>
            r == MoveTo(if index + paging >= total then total - 1 else index + paging))
      && (e.code == OtherKey ==> r == Declined)
  {
    if total == 0 then Declined
    else if e.meta || e.alt then Declined
    else
      match e.code
      case ArrowUp =>
        if view == Images then
          if index - itemsPerLine < 0 then Consumed else MoveTo(index - itemsPerLine)
        else
          if index <= 0 then Consumed else MoveTo(index - 1)
      case ArrowDown =>
        if view == Images then
          if index < 0 then MoveTo(0)
          else if index + itemsPerLine >= total then Consumed
          else MoveTo(index + itemsPerLine)
        else
          if index >= total - 1 then Consumed else MoveTo(index + 1)
      case ArrowLeft =>
        if view == Images then
          if index <= 0 then Consumed else MoveTo(index - 1)
        else Consumed
      case ArrowRight =>
        if view == Images then
          if index >= total - 1 then NoAnswer else MoveTo(index + 1)
        else Consumed
      case Home =>
        if e.ctrl then Declined else MoveTo(0)
      case End =>
        if e.ctrl then Declined else MoveTo(total - 1)
      case PageUp =>
        if e.ctrl then Declined
        else if index - paging < 0 then MoveTo(0) else MoveTo(index - paging)
      case PageDown =>
        if e.ctrl then Declined
        else if index + paging >= total then MoveTo(total - 1) else MoveTo(index + paging)
      case OtherKey => Declined
  }

  /** The keydown handler swallows a key (`preventDefault`) only when the answer is truthy. */
  predicate Swallowed(s: Step) {
    s == Consumed || s.MoveTo?
  }

  /**
   * ArrowRight on the last image answers `undefined` where every other
   * refused move answers `true`: the key reaches the browser's default
   * handling, while ArrowLeft on the first image does not.
   */
  lemma ArrowRightAtEndNotSwallowed(total: nat, itemsPerLine: int, paging: int)
    requires total >= 1
    ensures var right := KeyEvent(ArrowRight, false, false, false, false);
      MoveStepAsWritten(Images, right, total, total - 1, itemsPerLine, paging) == NoAnswer
      && !Swallowed(MoveStepAsWritten(Images, right, total, total - 1, itemsPerLine, paging))
    ensures var left := KeyEvent(ArrowLeft, false, false, false, false);
      MoveStepAsWritten(Images, left, total, 0, itemsPerLine, paging) == Consumed
  {
  }

  /** The step with the refused ArrowRight answering `true` like its siblings. */
  function MoveStep(view: View, e: KeyEvent, total: nat, index: int,
                    itemsPerLine: int, paging: int): (r: Step)
    ensures r != NoAnswer
    ensures MoveStepAsWritten(view, e, total, index, itemsPerLine, paging) != NoAnswer ==>
      r == MoveStepAsWritten(view, e, total, index, itemsPerLine, paging)
    ensures MoveStepAsWritten(view, e, total, index, itemsPerLine, paging) == NoAnswer ==> r == Consumed
  {
    var s := MoveStepAsWritten(view, e, total, index, itemsPerLine, paging);
    if s == NoAnswer then Consumed else s
  }

  /** The arrow keys that the view handles are swallowed whenever there are entries and no meta/alt. */
  lemma HandledArrowsSwallowed(view: View, e: KeyEvent, total: nat, index: int, itemsPerLine: int, paging: int)
    requires total >= 1 && !e.meta && !e.alt
    requires e.code == ArrowUp || e.code == ArrowDown || (view == Images && (e.code == ArrowLeft || e.code == ArrowRight))
    ensures Swallowed(MoveStep(view, e, total, index, itemsPerLine, paging))
  {
  }

  /**
   * With the cursor in `[-1, total)`, a positive row width and a
   * non-negative page size, a move lands on an entry, except a PageDown
   * from "no selection" by an empty page, which stays at -1.
   */
  lemma MoveStaysInRange(view: View, e: KeyEvent, total: nat, index: int, itemsPerLine: int, paging: int)
    requires -1 <= index < total && itemsPerLine >= 1 && paging >= 0
    ensures var s := MoveStep(view, e, total, index, itemsPerLine, paging);
      s.MoveTo? ==>
        (0 <= s.index < total || (s.index == -1 && e.code == PageDown && index == -1 && paging == 0))
  {
  }

  /** In details view an ArrowDown undoes an ArrowUp, and vice versa. */
  lemma DetailsUpDownInverse(total: nat, index: int, itemsPerLine: int, paging: int)
    requires 0 <= index < total
    ensures var up, down := KeyEvent(ArrowUp, false, false, false, false), KeyEvent(ArrowDown, false, false, false, false);
      && (index > 0 ==>
            (MoveStep(Details, up, total, index, itemsPerLine, paging) == MoveTo(index - 1)
             && MoveStep(Details, down, total, index - 1, itemsPerLine, paging) == MoveTo(index)))
      && (index < total - 1 ==>
            (MoveStep(Details, down, total, index, itemsPerLine, paging) == MoveTo(index + 1)
             && MoveStep(Details, up, total, index + 1, itemsPerLine, paging) == MoveTo(index)))
  {
  }

  /** In images view Up and Down move by one row and undo each other inside the grid. */
  lemma ImagesUpDownInverse(total: nat, index: int, itemsPerLine: int, paging: int)
    requires itemsPerLine >= 1 && 0 <= index && index + itemsPerLine < total
    ensures var up, down := KeyEvent(ArrowUp, false, false, false, false), KeyEvent(ArrowDown, false, false, false, false);
      && MoveStep(Images, down, total, index, itemsPerLine, paging) == MoveTo(index + itemsPerLine)
      && MoveStep(Images, up, total, index + itemsPerLine, itemsPerLine, paging) == MoveTo(index)
  {
  }

  /** In either view, paging moves by `paging` entries, clamped to the first and last entry. */
  lemma PagingClamps(view: View, total: nat, index: int, itemsPerLine: int, paging: int)
    requires total >= 1
    ensures MoveStep(view, KeyEvent(PageUp, false, false, false, false), total, index, itemsPerLine, paging)
      == MoveTo(if index - paging < 0 then 0 else index - paging)
    ensures MoveStep(view, KeyEvent(PageDown, false, false, false, false), total, index, itemsPerLine, paging)
      == MoveTo(if index + paging >= total then total - 1 else index + paging)
    ensures MoveStep(view, KeyEvent(PageUp, true, false, false, false), total, index, itemsPerLine, paging) == Declined
    ensures MoveStep(view, KeyEvent(PageDown, true, false, false, false), total, index, itemsPerLine, paging) == Declined
  {
  }

  // ------------------------------------------------------ selection

  /** `selection` (the keys set to true) and `selectionIndex`. */
  datatype Ui = Ui(selection: set<int>, index: int)

  const NoSelection := Ui({}, -1)

  /** The indices from `lo` to `hi` inclusive. */
  function Range(lo: int, hi: int): (r: set<int>)
    ensures forall k :: k in r <==> lo <= k <= hi
    decreases hi - lo
  {
    if lo > hi then {} else {lo} + Range(lo + 1, hi)
  }

  /** `Math.min(prevIndex, index)` to `Math.max(prevIndex, index)`. */
  function Span(a: int, b: int): (r: set<int>)
    ensures forall k :: k in r <==> (a <= k <= b || b <= k <= a)
  {
    if a <= b then Range(a, b) else Range(b, a)
  }

  /**
   * `selectEntry(index, prevIndex, extend, add, rightClick)`: false when no
   * element `e#index` exists. A right click on a selected entry keeps the
   * selection (the context menu acts on it); otherwise extend adds the span
   * from the previous index, add flips the entry, and a plain selection
   * replaces everything with the entry.
   */
  function SelectEntry(selection: set<int>, total: nat, index: int, prevIndex: int,
                       extend: bool, add: bool, rightClick: bool): (r: (bool, set<int>))
    ensures r.0 <==> 0 <= index < total
    ensures !r.0 || (rightClick && index in selection) ==> r.1 == selection
    ensures r.0 && r.1 != selection ==> (index in r.1 <==> !(add && !extend && index in selection))
    ensures r.0 && !(rightClick && index in selection) ==>
      (if extend then selection <= r.1
       else if add then r.1 - {index} == selection - {index}
       else r.1 == {index})
    ensures r.0 && !(rightClick && index in selection) && extend ==>
      r.1 == selection + Span(prevIndex, index)
  {
    if !(0 <= index < total) then (false, selection)
    else if rightClick && index in selection then (true, selection)
    else if extend then (true, selection + Span(prevIndex, index))
    else if add then (true, if index in selection then selection - {index} else selection + {index})
    else (true, {index})
  }

  /** Extending selects both ends of the span and everything between, and nothing else new. */
  lemma ExtendSelectsSpan(selection: set<int>, total: nat, index: int, prevIndex: int)
    requires 0 <= index < total
    ensures var r := SelectEntry(selection, total, index, prevIndex, true, false, false).1;
      && index in r && prevIndex in r
      && (forall k :: k in r && k !in selection ==> (prevIndex <= k <= index || index <= k <= prevIndex))
      && (forall k :: (prevIndex <= k <= index || index <= k <= prevIndex) ==> k in r)
      && selection <= r
  {
  }

  /** Ctrl-selecting the same entry twice gives the selection back. */
  lemma AddTwiceRestores(selection: set<int>, total: nat, index: int, prevIndex: int)
    requires 0 <= index < total
    ensures var once := SelectEntry(selection, total, index, prevIndex, false, true, false).1;
      && (index in once <==> index !in selection)
      && SelectEntry(once, total, index, prevIndex, false, true, false).1 == selection
  {
  }

  /**
   * `moveSelection(e)` with the corrected step: the cursor moves before the
   * element lookup, so it moves even when no element answers.
   */
  function MoveSelection(ui: Ui, view: View, e: KeyEvent, total: nat,
                         itemsPerLine: int, paging: int): (r: (bool, Ui))
    ensures !MoveStep(view, e, total, ui.index, itemsPerLine, paging).MoveTo? ==> r.1 == ui
    ensures r.0 <==> Swallowed(MoveStep(view, e, total, ui.index, itemsPerLine, paging))
                     && (MoveStep(view, e, total, ui.index, itemsPerLine, paging).MoveTo? ==>
                           0 <= r.1.index < total)
    ensures total == 0 || e.meta || e.alt ==> r == (false, ui)
    ensures var s := MoveStep(view, e, total, ui.index, itemsPerLine, paging);
      s.MoveTo? ==>
        && r.1.index == s.index
        && r.1.selection == SelectEntry(ui.selection, total, s.index, ui.index, e.shift, e.ctrl, false).1
        && r.0 == SelectEntry(ui.selection, total, s.index, ui.index, e.shift, e.ctrl, false).0
  {
    match MoveStep(view, e, total, ui.index, itemsPerLine, paging)
    case Declined => (false, ui)
    case Consumed => (true, ui)
    case MoveTo(i) =>
      var (ok, sel) := SelectEntry(ui.selection, total, i, ui.index, e.shift, e.ctrl, false);
      (ok, Ui(sel, i))
  }

  /** A plain arrow or Home/End move leaves exactly the new entry selected. */
  lemma PlainMoveSelectsOne(ui: Ui, view: View, e: KeyEvent, total: nat, itemsPerLine: int, paging: int)
    requires -1 <= ui.index < total && itemsPerLine >= 1 && paging >= 1
    requires !e.shift && !e.ctrl
    requires MoveStep(view, e, total, ui.index, itemsPerLine, paging).MoveTo?
    ensures var r := MoveSelection(ui, view, e, total, itemsPerLine, paging);
      r.0 && r.1.selection == {r.1.index} && 0 <= r.1.index < total
  {
    MoveStaysInRange(view, e, total, ui.index, itemsPerLine, paging);
  }

  /** Shift+End from a selected entry selects it and every entry after it. */
  lemma ShiftEndSelectsTail(ui: Ui, view: View, total: nat, itemsPerLine: int, paging: int)
    requires 0 <= ui.index < total
    ensures var r := MoveSelection(ui, view, KeyEvent(End, false, true, false, false), total, itemsPerLine, paging);
      r.0 && r.1.index == total - 1
      && (forall k :: ui.index <= k < total ==> k in r.1.selection)
      && ui.selection <= r.1.selection
  {
  }

  // ------------------------------------------------------ context menus

  /**
   * The `ContextMenuNavigation` handler: `id` is the parsed menu id (`None`
   * when it is not a number). The next or previous menu, skipping the
   * thumbnail-size menu outside images view, wrapped into `[0, maxId)`.
   */
  function Rotate(id: Option<int>, shift: bool, images: bool, appThumbnailSize: int, maxId: int): (r: Option<int>)
    requires 0 <= appThumbnailSize < maxId
    ensures r.Some? <==> id.Some?
    ensures r.Some? ==> 0 <= r.value < maxId
  {
    match id
    case None => None
    case Some(i) =>
      var n0 := if shift then i - 1 else i + 1;
      var n := if n0 == appThumbnailSize && !images then (if shift then n0 - 1 else n0 + 1) else n0;
      if n < 0 then Some(maxId - 1)
      else if n >= maxId then Some(0)
      else Some(n)
  }

  /** In images view every menu is visited: forward rotation is `+1` modulo `maxId` and backward undoes it. */
  lemma RotateImagesCycles(id: int, appThumbnailSize: int, maxId: int)
    requires 0 <= appThumbnailSize < maxId && 0 <= id < maxId
    ensures Rotate(Some(id), false, true, appThumbnailSize, maxId) == Some((id + 1) % maxId)
    ensures Rotate(Rotate(Some(id), false, true, appThumbnailSize, maxId), true, true, appThumbnailSize, maxId) == Some(id)
  {
  }

  /**
   * Outside images view the thumbnail-size menu is stepped over in both
   * directions and forward then backward returns to any other menu, unless
   * the thumbnail-size menu is the first or last one, where the wrap-around
   * lands on it.
   */
  lemma RotateSkipsThumbnailSize(id: int, shift: bool, appThumbnailSize: int, maxId: int)
    requires 0 <= appThumbnailSize < maxId && 0 <= id < maxId
    ensures 0 < appThumbnailSize < maxId - 1 ==>
      Rotate(Some(id), shift, false, appThumbnailSize, maxId) != Some(appThumbnailSize)
    ensures id != appThumbnailSize && 0 < appThumbnailSize < maxId - 1 ==>
      Rotate(Rotate(Some(id), false, false, appThumbnailSize, maxId), true, false, appThumbnailSize, maxId) == Some(id)
    ensures appThumbnailSize == maxId - 1 ==> Rotate(Some(0), true, false, appThumbnailSize, maxId) == Some(appThumbnailSize)
    ensures appThumbnailSize == 0 ==> Rotate(Some(maxId - 1), false, false, appThumbnailSize, maxId) == Some(appThumbnailSize)
  {
  }

  /** An unparsable id opens nothing. */
  lemma RotateIgnoresNonNumbers(shift: bool, images: bool, appThumbnailSize: int, maxId: int)
    requires 0 <= appThumbnailSize < maxId
    ensures Rotate(None, shift, images, appThumbnailSize, maxId) == None
  {
  }

  // ------------------------------------------------------ option flags

  /**
   * Choosing an option flag from a menu where `a` and `b` exclude each other
   * (ExcludeFolders/ExcludeFiles, ShowIcons/ShowThumbnails): choosing one
   * first clears the other, then the chosen flag is flipped
   * (`Tools.toggleFlags`).
   */
  function ChooseOption<F(==,!new)>(options: set<F>, item: F, a: F, b: F): (r: set<F>)
    requires a != b
    ensures item in r <==> item !in options
    ensures forall f :: f != item && f != a && f != b ==> (f in r <==> f in options)
    ensures (item == a || item == b) ==> !(a in r && b in r)
  {
    var cleared :=
      if item == a && b in options then options - {b}
      else if item == b && a in options then options - {a}
      else options;
    if item in cleared then cleared - {item} else cleared + {item}
  }

  /** The exclusive pair is never both set once either of them is chosen from a valid state, nor after any other choice. */
  lemma ChooseKeepsExclusive<F(!new)>(options: set<F>, item: F, a: F, b: F)
    requires a != b && !(a in options && b in options)
    ensures var r := ChooseOption(options, item, a, b); !(a in r && b in r)
  {
  }

  /**
   * Choosing a flag and then choosing it again turns it back off, but the
   * partner it cleared stays cleared.
   */
  lemma ChooseTwiceDropsPartner<F(!new)>(options: set<F>, a: F, b: F)
    requires a != b && a !in options
    ensures ChooseOption(ChooseOption(options, a, a, b), a, a, b) == options - {b}
  {
  }

  // ------------------------------------------------------ thumbnail sizes

  function Ascending(x: int, y: int): bool { x <= y }

  lemma AscendingIsTotal()
    ensures Sorting.TotalPreorder(Ascending)
  {
  }

  /**
   * The sizes offered by the thumbnail-size menu: the allowed sizes, with
   * the current size pushed and the whole list sorted ascending when it is
   * missing; the list is left as it is when the size is already there.
   */
  function OfferedSizes(allowed: seq<int>, current: int): (r: seq<int>)
    ensures current in r
    ensures multiset(r) == if current in allowed then multiset(allowed) else multiset(allowed) + multiset{current}
    ensures current in allowed ==> r == allowed
    ensures current !in allowed ==> Sorting.Sorted(Ascending, r)
  {
    if current in allowed then allowed
    else
      var r := Sorting.SortBy(Ascending, allowed + [current]);
      assert current in multiset(allowed + [current]);
      AscendingIsTotal();
      Sorting.SortBySorted(Ascending, allowed + [current]);
      r
  }

  /** Offering sizes twice changes nothing: the second call finds the size present. */
  lemma OfferedSizesIdempotent(allowed: seq<int>, current: int)
    ensures OfferedSizes(OfferedSizes(allowed, current), current) == OfferedSizes(allowed, current)
  {
  }
}
