/**
 * The state-keeping pieces of ShellBat/Windows/WebViewCompositionWindow.cs:
 * the hit test of the borderless frame, pointer double-click detection,
 * the pairing of navigation starts with completions, and the monitor
 * change notification.
 */
module Window {
  import opened Common

  // ------------------------------------------------------ hit test

  /** The `HT` codes the hit test can answer (Win32 values). */
  datatype HitCode =
    | Caption | Left | Right | Top | TopLeft | TopRight | Bottom | BottomLeft | BottomRight
  {
    function Value(): int {
      match this
      case Caption => 2
      case Left => 10
      case Right => 11
      case Top => 12
      case TopLeft => 13
      case TopRight => 14
      case Bottom => 15
      case BottomLeft => 16
      case BottomRight => 17
    }

    predicate OnLeftSide() { this == Left || this == TopLeft || this == BottomLeft }
    predicate OnRightSide() { this == Right || this == TopRight || this == BottomRight }
  }

  datatype Rect = Rect(left: int, top: int, right: int, bottom: int) {
    function Width(): int { right - left }
    function Height(): int { bottom - top }
    /** Half-open containment, as `RECT.Contains`. */
    predicate Contains(x: int, y: int) { left <= x < right && top <= y < bottom }
  }

  /** The low 16 bits of `l`, read as a signed value (`SignedLOWORD`). */
  function SignedLoWord(l: int): (r: int)
    ensures -32768 <= r < 32768
    ensures (r - l) % 65536 == 0
  {
    var w := l % 65536;
    if w >= 32768 then w - 65536 else w
  }

  /** Bits 16 to 31 of `l`, read as a signed value (`SignedHIWORD`). */
  function SignedHiWord(l: int): (r: int)
    ensures -32768 <= r < 32768
    ensures (r - l / 65536) % 65536 == 0
  {
    SignedLoWord(l / 65536)
  }

  /**
   * The point in window coordinates: inside when `0 <= x < Width` and
   * `0 <= y <= Height` (the bottom bound is inclusive).
   */
  predicate InWindow(window: Rect, x: int, y: int) {
    0 <= x < window.Width() && 0 <= y <= window.Height()
  }

  /**
   * `HitTestWithoutWindowsFrame` for the point `(clix, cliy)` relative to
   * the window's top-left corner. `bw` and `bh` are the frame's border
   * width and height; `caption` is `GetCaptionRect()`.
   */
  function HitTest(window: Rect, bw: int, bh: int, caption: Option<Rect>, clix: int, cliy: int): (r: Option<HitCode>)
    ensures r.Some? ==> InWindow(window, clix, cliy)
    ensures r.Some? && r.value.OnLeftSide() <==> InWindow(window, clix, cliy) && clix < bw
    ensures r.Some? && r.value.OnRightSide() <==>
      InWindow(window, clix, cliy) && bw <= clix && clix > window.Width() - bw
    ensures r == Some(Caption) ==>
      (caption.Some? && caption.value.Contains(clix, cliy) && bh <= cliy <= window.Height() - bh)
  {
    if 0 <= clix < window.Width() && 0 <= cliy <= window.Height() then
      if clix < bw then
        if cliy <= bh then Some(TopLeft)
        else if cliy >= window.Height() - bh then Some(BottomLeft)
        else Some(Left)
      else if clix > window.Width() - bw then
        if cliy <= bh then Some(TopRight)
        else if cliy >= window.Height() - bh then Some(BottomRight)
        else Some(Right)
      else if cliy < bh then Some(Top)
      else if cliy > window.Height() - bh then Some(Bottom)
      else if caption.Some? && caption.value.Contains(clix, cliy) then Some(Caption)
      else None
    else None
  }

  /** `WM_NCHITTEST`: the screen point packed in `lParam`, made relative to the window rectangle. */
  function HitTestMessage(window: Rect, bw: int, bh: int, caption: Option<Rect>, lParam: int): (r: Option<HitCode>)
    ensures r.Some? ==> InWindow(window, SignedLoWord(lParam) - window.left, SignedHiWord(lParam) - window.top)
  {
    HitTest(window, bw, bh, caption, SignedLoWord(lParam) - window.left, SignedHiWord(lParam) - window.top)
  }

  /**
   * A screen point packed as `MAKELPARAM(x, y)` (the low word holds `x`
   * as an unsigned 16-bit value, the high word `y`) is unpacked to the same
   * signed coordinates, so the message tests the point itself.
   */
  lemma HitTestMessageUnpacks(window: Rect, bw: int, bh: int, caption: Option<Rect>, x: int, y: int)
    requires -32768 <= x < 32768 && -32768 <= y < 32768
    ensures SignedLoWord(y * 65536 + x % 65536) == x
    ensures SignedHiWord(y * 65536 + x % 65536) == y
    ensures HitTestMessage(window, bw, bh, caption, y * 65536 + x % 65536)
         == HitTest(window, bw, bh, caption, x - window.left, y - window.top)
  {
    var l := y * 65536 + x % 65536;
    assert l % 65536 == x % 65536;
    assert l / 65536 == y;
  }

  /**
   * The full case split of the hit test: which points get each code. Left
   * band `x < bw`, right band `bw <= x` and `x > Width - bw`, middle band
   * the rest; in the side bands the corner rows are inclusive, along the
   * middle band the edge rows are strict, and the caption answers only in
   * the middle of the middle band.
   */
  lemma HitTestRegions(window: Rect, bw: int, bh: int, caption: Option<Rect>, x: int, y: int)
    ensures var r, W, H := HitTest(window, bw, bh, caption, x, y), window.Width(), window.Height();
      var inside := InWindow(window, x, y);
      var left, right, middle := x < bw, bw <= x && x > W - bw, bw <= x <= W - bw;
      && (r == Some(TopLeft) <==> inside && left && y <= bh)
      && (r == Some(BottomLeft) <==> inside && left && bh < y && y >= H - bh)
      && (r == Some(Left) <==> inside && left && bh < y < H - bh)
      && (r == Some(TopRight) <==> inside && right && y <= bh)
      && (r == Some(BottomRight) <==> inside && right && bh < y && y >= H - bh)
      && (r == Some(Right) <==> inside && right && bh < y < H - bh)
      && (r == Some(Top) <==> inside && middle && y < bh)
      && (r == Some(Bottom) <==> inside && middle && bh <= y && y > H - bh)
      && (r == Some(Caption) <==>
            inside && middle && bh <= y <= H - bh && caption.Some? && caption.value.Contains(x, y))
      && (r == None <==>
            !inside || (middle && bh <= y <= H - bh && !(caption.Some? && caption.value.Contains(x, y))))
  {
  }

  /**
   * Along the top border, corners are inclusive and the edge is strict: the
   * row `y == bh` is still a corner in the side bands but no longer TOP in
   * the middle; the column `x == Width - bw` is not yet in the right band,
   * which is therefore one column narrower than the left one (and empty for
   * a one-pixel border); the row `y == Height` still answers.
   */
  lemma BorderBoundaries(window: Rect, bw: int, bh: int, caption: Option<Rect>)
    requires 1 <= bw && 2 * bw < window.Width() && 1 <= bh && 2 * bh < window.Height()
    requires caption.None?
    ensures HitTest(window, bw, bh, caption, 0, bh) == Some(TopLeft)
    ensures HitTest(window, bw, bh, caption, window.Width() - 1, window.Height()) == Some(BottomRight) <==> bw >= 2
    ensures HitTest(window, bw, bh, caption, bw, bh - 1) == Some(Top)
    ensures HitTest(window, bw, bh, caption, bw, bh) == None
    ensures HitTest(window, bw, bh, caption, window.Width() - bw, 0) == Some(Top)
    ensures HitTest(window, bw, bh, caption, window.Width() - bw + 1, 0) == if bw >= 2 then Some(TopRight) else None
    ensures HitTest(window, bw, bh, caption, bw, window.Height()) == Some(Bottom)
    ensures HitTest(window, bw, bh, caption, 0, window.Height() + 1) == None
  {
  }

  /** Resize codes win over the caption: the caption answers only away from every border. */
  lemma BordersBeforeCaption(window: Rect, bw: int, bh: int, clix: int, cliy: int)
    requires InWindow(window, clix, cliy)
    requires clix < bw || clix > window.Width() - bw || cliy < bh || cliy > window.Height() - bh
    ensures var whole := Some(Rect(0, 0, window.Width(), window.Height() + 1));
      HitTest(window, bw, bh, whole, clix, cliy).Some? && HitTest(window, bw, bh, whole, clix, cliy) != Some(Caption)
  {
  }

  // ------------------------------------------------------ double click

  const IntMinValue := -0x8000_0000

  /** `_lastPointerDownTime` and `_lastPointerDownPositionX/Y`. */
  datatype PointerState = PointerState(lastTime: int, lastX: int, lastY: int)

  const InitialPointer := PointerState(0, IntMinValue, IntMinValue)

  function Abs(x: int): nat { if x < 0 then -x else x }

  /**
   * A pointer contact at performance count `now`: a double click when the
   * previous remembered press is recent enough (`doubleClickTime` in
   * milliseconds, counted in 100 ns units) and within the `cx`/`cy` box.
   * Only a press that is not a double click becomes the remembered one.
   */
  function PointerContact(s: PointerState, isUp: bool, now: int, x: int, y: int,
                          doubleClickTime: int, cx: int, cy: int): (r: (bool, PointerState))
    ensures isUp ==> r == (false, s)
    ensures !isUp ==> (r.0 <==> now < s.lastTime + doubleClickTime * 10000
                                 && Abs(s.lastX - x) < cx && Abs(s.lastY - y) < cy)
    ensures !isUp && r.0 ==> r.1 == s
    ensures !isUp && !r.0 ==> r.1 == PointerState(now, x, y)
  {
    if isUp then (false, s)
    else
      var isDoubleClick := s.lastTime + doubleClickTime * 10000 > now
        && Abs(s.lastX - x) < cx && Abs(s.lastY - y) < cy;
      if isDoubleClick then (true, s) else (false, PointerState(now, x, y))
  }

  /**
   * Three presses at one spot, each `gap` apart, with the double-click time
   * between one and two gaps, the first starting afresh: the second is a
   * double click, and the third is measured from the first (a double click
   * is not remembered), so it is not.
   */
  lemma ThirdPressMeasuredFromFirst(s: PointerState, t: int, gap: int, x: int, y: int,
                                    doubleClickTime: int, cx: int, cy: int)
    requires cx >= 1 && cy >= 1 && gap >= 1
    requires gap < doubleClickTime * 10000 <= 2 * gap
    requires !PointerContact(s, false, t, x, y, doubleClickTime, cx, cy).0
    ensures var first := PointerContact(s, false, t, x, y, doubleClickTime, cx, cy).1;
      var second := PointerContact(first, false, t + gap, x, y, doubleClickTime, cx, cy);
      var third := PointerContact(second.1, false, t + 2 * gap, x, y, doubleClickTime, cx, cy);
      && second.0 && !third.0 && third.1 == PointerState(t + 2 * gap, x, y)
  {
  }

  // ------------------------------------------------------ navigations

  datatype NavigationEvent = NavigationEvent(
    id: nat,
    uri: string,
    isUserInitiated: bool,
    isRedirected: bool,
    completed: bool,
    webErrorStatus: int,
    isSuccess: bool)

  /** `NavigationStarting`: the event is recorded under its id (a reused id replaces the old one). */
  function NavigationStarting(events: map<nat, NavigationEvent>, id: nat, uri: string,
                              isUserInitiated: bool, isRedirected: bool): (r: map<nat, NavigationEvent>)
    ensures r.Keys == events.Keys + {id}
    ensures r[id].id == id && r[id].uri == uri && !r[id].completed
    ensures forall k :: k in events && k != id ==> r[k] == events[k]
  {
    events[id := NavigationEvent(id, uri, isUserInitiated, isRedirected, false, 0, false)]
  }

  /**
   * `NavigationCompleted`: reported only for a recorded id, with the
   * completion details filled in; the record is then dropped.
   */
  function NavigationCompleted(events: map<nat, NavigationEvent>, id: nat, webErrorStatus: int, isSuccess: bool)
    : (r: (Option<NavigationEvent>, map<nat, NavigationEvent>))
    ensures r.0.Some? <==> id in events
    ensures id in events ==> r.0 == Some(events[id].(completed := true, webErrorStatus := webErrorStatus, isSuccess := isSuccess))
    ensures r.1 == events - {id}
  {
    if id in events then
      (Some(events[id].(completed := true, webErrorStatus := webErrorStatus, isSuccess := isSuccess)), events - {id})
    else (None, events)
  }

  /** A started navigation completes once: the first completion reports it, a repeat reports nothing. */
  lemma CompletionReportedOnce(events: map<nat, NavigationEvent>, id: nat, uri: string,
                               user: bool, redirected: bool, status: int, success: bool)
    ensures var started := NavigationStarting(events, id, uri, user, redirected);
      var done := NavigationCompleted(started, id, status, success);
      && done.0.Some? && done.0.value.uri == uri && done.0.value.completed
      && NavigationCompleted(done.1, id, status, success).0.None?
      && done.1 == events - {id}
  {
  }

  // ------------------------------------------------------ monitor

  /** `UpdateMonitor`: the stored handle follows the window, and a change is raised only when it differs. */
  function UpdateMonitor(stored: int, found: int): (r: (bool, int))
    ensures r.0 <==> stored != found
    ensures r.1 == found
  {
    if found == stored then (false, stored) else (true, found)
  }

  lemma UpdateMonitorIdempotent(stored: int, found: int)
    ensures !UpdateMonitor(UpdateMonitor(stored, found).1, found).0
  {
  }
}
