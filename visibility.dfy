// The two transformers of `TaskbarManager`: `hide_window` and `show_window`,
// each a fixed sequence of native calls on one window. Here they are
// functions from the desktop and the position cache to their outcome, built
// from the stages the source runs in order; the class methods in module
// Manager run the same calls one statement at a time and are proved equal to
// them.

module Visibility {
  import opened Wrappers
  import opened Win32
  import opened Discovery

  /** Where `hide_window` parks a window, and where `show_window` puts one it has no
      position for. */
  const OFFSCREEN: int := -32000
  const FALLBACK: int := 100

  /** The LWA_ALPHA opacities `hide_window` and `show_window` set. */
  const TRANSPARENT: int := 0
  const OPAQUE: int := 255

  /** The rectangle moved to (-32000, -32000) with its size kept (SWP_NOSIZE). */
  function Offscreen(r: Rect): Rect
  {
    Rect(OFFSCREEN, OFFSCREEN, OFFSCREEN + r.Width(), OFFSCREEN + r.Height())
  }

  /** The rectangle moved to (100, 100) with its size kept (SWP_NOSIZE). */
  function Fallback(r: Rect): Rect
  {
    Rect(FALLBACK, FALLBACK, FALLBACK + r.Width(), FALLBACK + r.Height())
  }

  /** `a` and `b` agree on every bit outside `flags`. */
  ghost predicate OnlyFlagsDiffer(a: Bits, b: Bits, flags: set<nat>)
  {
    forall x :: x !in flags ==> (x in a <==> x in b)
  }

  /** A native call inside its own `try ... except: pass`: a raise leaves the desktop as it was. */
  function Attempt(reply: Reply, before: Os): Os
  {
    match reply
    case Returned(after) => after
    case Raised => before
  }

  // ---------------------------------------------------------------- hide_window

  /** The three ShowWindow calls that open `hide_window`: SW_HIDE, SW_MINIMIZE, SW_HIDE.
      Together they leave the window hidden and minimized with WS_VISIBLE clear. */
  function Conceal(os: Os, h: Handle): (r: Os)
    ensures ChangesOnly(os, r, h) && r.zOrder == os.zOrder
    ensures !Accepts(os, h, ShowWindowApi) ==> r == os
    ensures Accepts(os, h, ShowWindowApi) ==>
      r.windows[h] == os.windows[h].(visible := false, minimized := true,
                                     style := os.windows[h].style - {WS_VISIBLE})
  {
    ShowWindow(ShowWindow(ShowWindow(os, h, SwHide), h, SwMinimize), h, SwHide)
  }

  /** The outcome of a run of calls under one `try`: whether it ran to the end, and the
      desktop as the last call that returned left it. */
  datatype Attempted = Attempted(ok: bool, after: Os)

  /** The two SetWindowLong calls of `hide_window`: WS_EX_TOOLWINDOW and then WS_EX_LAYERED
      OR-ed into the extended style. The first raise ends the run. */
  function MarkToolLayered(os: Os, h: Handle): (r: Attempted)
    requires IsWindow(os, h)
    ensures r.ok <==> Accepts(os, h, SetWindowLongApi)
    ensures ChangesOnly(os, r.after, h) && r.after.zOrder == os.zOrder
    ensures os.windows[h].exStyle <= r.after.windows[h].exStyle
                                  <= os.windows[h].exStyle + {WS_EX_TOOLWINDOW, WS_EX_LAYERED}
    ensures r.ok ==>
      r.after.windows[h] == os.windows[h].(exStyle := os.windows[h].exStyle + {WS_EX_TOOLWINDOW, WS_EX_LAYERED})
    ensures !r.ok ==> r.after == os
  {
    match SetWindowLong(os, h, GwlExStyle, GetWindowLong(os, h, GwlExStyle).value + {WS_EX_TOOLWINDOW})
    case Raised => Attempted(false, os)
    case Returned(os2) =>
      match SetWindowLong(os2, h, GwlExStyle, GetWindowLong(os2, h, GwlExStyle).value + {WS_EX_LAYERED})
      case Raised => Attempted(false, os2)
      case Returned(os3) => Attempted(true, os3)
  }

  /** The last steps of `hide_window`: alpha 0, a move to the bottom of the z-order at
      (-32000, -32000) with the size kept, and EnableWindow(False). The first raise ends the
      run; alpha 0 raises unless the window is layered. */
  function Park(os: Os, h: Handle): (r: Attempted)
    requires IsWindow(os, h)
    ensures r.ok <==> && Accepts(os, h, SetLayeredWindowAttributesApi)
                      && WS_EX_LAYERED in os.windows[h].exStyle
                      && Accepts(os, h, SetWindowPosApi)
    ensures ChangesOnly(os, r.after, h)
    ensures r.after.zOrder == if r.ok then Restack(os.zOrder, h, HwndBottom) else os.zOrder
    ensures r.after.windows[h].exStyle == os.windows[h].exStyle
    ensures r.after.windows[h].visible == os.windows[h].visible
    ensures r.ok ==>
      var w, w' := os.windows[h], r.after.windows[h];
      && w'.alpha == TRANSPARENT
      && w'.rect == Offscreen(w.rect)
      && w'.visible == w.visible && w'.minimized == w.minimized
      && w'.enabled == (w.enabled && !Accepts(os, h, EnableWindowApi))
      && w'.style == if Accepts(os, h, EnableWindowApi) then w.style + {WS_DISABLED} else w.style
  {
    match SetLayeredWindowAttributes(os, h, TRANSPARENT)
    case Raised => Attempted(false, os)
    case Returned(os4) =>
      match SetWindowPos(os4, h, HwndBottom, OFFSCREEN, OFFSCREEN, 0, 0, true, false)
      case Raised => Attempted(false, os4)
      case Returned(os5) => Attempted(true, EnableWindow(os5, h, false))
  }

  /** The steps of `hide_window` after the ShowWindow calls, under its one `try`. */
  function Disguise(os: Os, h: Handle): (r: Attempted)
    requires IsWindow(os, h)
    ensures r.ok <==> && Accepts(os, h, SetWindowLongApi)
                      && Accepts(os, h, SetLayeredWindowAttributesApi)
                      && Accepts(os, h, SetWindowPosApi)
    ensures ChangesOnly(os, r.after, h)
    ensures r.after.zOrder == if r.ok then Restack(os.zOrder, h, HwndBottom) else os.zOrder
    ensures os.windows[h].exStyle <= r.after.windows[h].exStyle
                                  <= os.windows[h].exStyle + {WS_EX_TOOLWINDOW, WS_EX_LAYERED}
    ensures r.after.windows[h].visible == os.windows[h].visible
    ensures r.ok ==>
      var w, w' := os.windows[h], r.after.windows[h];
      && w'.exStyle == w.exStyle + {WS_EX_TOOLWINDOW, WS_EX_LAYERED}
      && w'.alpha == TRANSPARENT
      && w'.rect == Offscreen(w.rect)
      && w'.visible == w.visible && w'.minimized == w.minimized
      && w'.enabled == (w.enabled && !Accepts(os, h, EnableWindowApi))
      && w'.style == if Accepts(os, h, EnableWindowApi) then w.style + {WS_DISABLED} else w.style
  {
    var marked := MarkToolLayered(os, h);
    if !marked.ok then marked
    else
      var parked := Park(marked.after, h);
      ChangesOnlyTransitive(os, marked.after, parked.after, h);
      parked
  }

  /** The calls whose raise aborts `hide_window` are all accepted. */
  predicate HideSucceeds(os: Os, h: Handle)
  {
    && IsWindow(os, h)
    && Accepts(os, h, SetWindowLongApi)
    && Accepts(os, h, SetLayeredWindowAttributesApi)
    && Accepts(os, h, SetWindowPosApi)
  }

  datatype HideResult = HideResult(ok: bool, os: Os, positions: map<Handle, Rect>)

  /** `hide_window` without the hidden-set update (the caller adds the handle when `ok`).
      A raise in any step after the existence check ends the sequence with `ok` false, and
      whatever ran before it, the rectangle capture included, stays done. */
  function HideEffect(os: Os, positions: map<Handle, Rect>, h: Handle): (r: HideResult)
    ensures !IsWindow(os, h) ==> r == HideResult(false, os, positions)
    ensures r.ok <==> HideSucceeds(os, h)
    ensures ChangesOnly(os, r.os, h)
    ensures Accepts(os, h, GetWindowRectApi) ==> r.positions == positions[h := os.windows[h].rect]
    ensures !Accepts(os, h, GetWindowRectApi) ==> r.positions == positions
    ensures r.os.zOrder == if r.ok then Restack(os.zOrder, h, HwndBottom) else os.zOrder
    ensures IsWindow(os, h) ==>
      r.os.windows[h].visible == (os.windows[h].visible && !Accepts(os, h, ShowWindowApi))
  {
    if !IsWindow(os, h) then HideResult(false, os, positions)
    else
      var cache := match GetWindowRect(os, h)
        case Some(rect) => positions[h := rect]
        case None => positions;
      var concealed := Conceal(os, h);
      var run := Disguise(concealed, h);
      ChangesOnlyTransitive(os, concealed, run.after, h);
      HideResult(run.ok, run.after, cache)
  }

  /** `hide_window` keeps the desktop well formed: the window set is kept and the window is
      only moved within the z-order. */
  lemma HideKeepsWellFormed(os: Os, positions: map<Handle, Rect>, h: Handle)
    requires WellFormed(os)
    ensures WellFormed(HideEffect(os, positions, h).os)
  {
    var r := HideEffect(os, positions, h);
    if r.ok {
      assert r.os.zOrder == Restack(os.zOrder, h, HwndBottom);
    }
    ChangesOnlyKeepsWellFormed(os, r.os, h);
  }

  /** A hide that raises after its ShowWindow calls were accepted leaves the window hidden
      but outside the hidden set, so the classifier and the next refresh drop it from the
      list: no row is left through which it could be shown again. */
  lemma FailedHideDropsWindow(os: Os, positions: map<Handle, Rect>, hidden: set<Handle>, h: Handle)
    requires IsWindow(os, h) && h !in hidden
    requires Accepts(os, h, ShowWindowApi) && !HideSucceeds(os, h)
    ensures var e := HideEffect(os, positions, h);
      && !e.ok && IsWindow(e.os, h) && !e.os.windows[h].visible
      && !Listed(e.os, hidden, h)
  {
    var e := HideEffect(os, positions, h);
    assert !IsWindowVisible(e.os, h);
  }

  /** WS_EX_TOOLWINDOW and WS_EX_LAYERED are only OR-ed in: every other extended-style bit is
      kept, whether or not the hide ran to the end. */
  lemma HideOnlyAddsExStyleBits(os: Os, positions: map<Handle, Rect>, h: Handle)
    requires IsWindow(os, h)
    ensures var w, w' := os.windows[h], HideEffect(os, positions, h).os.windows[h];
      && w.exStyle <= w'.exStyle
      && OnlyFlagsDiffer(w.exStyle, w'.exStyle, {WS_EX_TOOLWINDOW, WS_EX_LAYERED})
  {
    var w' := HideEffect(os, positions, h).os.windows[h];
    assert w' == Disguise(Conceal(os, h), h).after.windows[h];
  }

  /** A hide that ran to the end leaves the window parked: hidden and minimized (when
      ShowWindow was accepted), tool window and layered, transparent, off-screen with its
      size kept, and disabled (when EnableWindow was accepted); no other style bit moves. */
  lemma HideParksWindow(os: Os, positions: map<Handle, Rect>, h: Handle)
    requires HideSucceeds(os, h)
    ensures var w, w' := os.windows[h], HideEffect(os, positions, h).os.windows[h];
      var hiding, disabling := Accepts(os, h, ShowWindowApi), Accepts(os, h, EnableWindowApi);
      && w'.visible == (w.visible && !hiding)
      && w'.minimized == (w.minimized || hiding)
      && (hiding ==> WS_VISIBLE !in w'.style)
      && (disabling ==> WS_DISABLED in w'.style && !w'.enabled)
      && (!disabling ==> w'.enabled == w.enabled)
      && OnlyFlagsDiffer(w.style, w'.style, {WS_VISIBLE, WS_DISABLED})
      && w'.exStyle == w.exStyle + {WS_EX_TOOLWINDOW, WS_EX_LAYERED}
      && w'.alpha == TRANSPARENT
      && w'.rect == Offscreen(w.rect)
  {
    var c := Conceal(os, h);
    assert HideEffect(os, positions, h).os == Disguise(c, h).after;
  }

  // ---------------------------------------------------------------- show_window

  /** Re-enable the window, then restore its opacity: alpha 255 when the window is layered;
      a raise is swallowed. */
  function Reenable(os: Os, h: Handle): (r: Os)
    ensures ChangesOnly(os, r, h) && r.zOrder == os.zOrder
    ensures IsWindow(os, h) ==>
      var w, w' := os.windows[h], r.windows[h];
      && w'.enabled == (w.enabled || Accepts(os, h, EnableWindowApi))
      && w'.style == (if Accepts(os, h, EnableWindowApi) then w.style - {WS_DISABLED} else w.style)
      && w'.alpha == (if WS_EX_LAYERED in w.exStyle && Accepts(os, h, SetLayeredWindowAttributesApi)
                      then OPAQUE else w.alpha)
      && w'.exStyle == w.exStyle && w'.rect == w.rect && w'.visible == w.visible && w'.minimized == w.minimized
  {
    RestoreOpacity(EnableWindow(os, h, true), h)
  }

  /** Restore opacity: alpha 255 when the window is layered; a raise is swallowed. */
  function RestoreOpacity(os: Os, h: Handle): (r: Os)
    ensures ChangesOnly(os, r, h) && r.zOrder == os.zOrder
    ensures IsWindow(os, h) ==>
      r.windows[h] == if WS_EX_LAYERED in os.windows[h].exStyle && Accepts(os, h, SetLayeredWindowAttributesApi)
                      then os.windows[h].(alpha := OPAQUE) else os.windows[h]
  {
    match GetWindowLong(os, h, GwlExStyle)
    case Some(exStyle) =>
      if WS_EX_LAYERED in exStyle then Attempt(SetLayeredWindowAttributes(os, h, OPAQUE), os) else os
    case None => os
  }

  /** Move the window back: to its cached rectangle, or to (100, 100) with its size kept,
      on top of the z-order and shown (SWP_SHOWWINDOW); a raise is swallowed. */
  function Reposition(os: Os, positions: map<Handle, Rect>, h: Handle): (r: Os)
    ensures ChangesOnly(os, r, h)
    ensures !Accepts(os, h, SetWindowPosApi) ==> r == os
    ensures Accepts(os, h, SetWindowPosApi) ==>
      && r.zOrder == Restack(os.zOrder, h, HwndTop)
      && r.windows[h] == os.windows[h].(rect := if h in positions then positions[h] else Fallback(os.windows[h].rect),
                                        visible := true, style := os.windows[h].style + {WS_VISIBLE})
  {
    if h in positions then
      var rect := positions[h];
      Attempt(SetWindowPos(os, h, HwndTop, rect.left, rect.top,
                           rect.right - rect.left, rect.bottom - rect.top, false, true), os)
    else Attempt(SetWindowPos(os, h, HwndTop, FALLBACK, FALLBACK, 0, 0, true, true), os)
  }

  /** Clear WS_EX_TOOLWINDOW from the extended style; a raise is swallowed. */
  function Restyle(os: Os, h: Handle): (r: Os)
    ensures ChangesOnly(os, r, h) && r.zOrder == os.zOrder
    ensures !Accepts(os, h, SetWindowLongApi) ==> r == os
    ensures Accepts(os, h, SetWindowLongApi) ==>
      r.windows[h] == os.windows[h].(exStyle := os.windows[h].exStyle - {WS_EX_TOOLWINDOW})
  {
    match GetWindowLong(os, h, GwlExStyle)
    case Some(exStyle) => Attempt(SetWindowLong(os, h, GwlExStyle, exStyle - {WS_EX_TOOLWINDOW}), os)
    case None => os
  }

  /** The three ShowWindow calls that close `show_window`: SW_RESTORE, SW_SHOW, SW_NORMAL.
      Together they leave the window shown, not minimized, with WS_VISIBLE set. */
  function Reveal(os: Os, h: Handle): (r: Os)
    ensures ChangesOnly(os, r, h) && r.zOrder == os.zOrder
    ensures !Accepts(os, h, ShowWindowApi) ==> r == os
    ensures Accepts(os, h, ShowWindowApi) ==>
      r.windows[h] == os.windows[h].(visible := true, minimized := false,
                                     style := os.windows[h].style + {WS_VISIBLE})
  {
    ShowWindow(ShowWindow(ShowWindow(os, h, SwRestore), h, SwShow), h, SwNormal)
  }

  /** `show_window`: every step in its own try and no existence check, so it always reports
      success; it reads the position cache and never writes it. */
  function ShowEffect(os: Os, positions: map<Handle, Rect>, h: Handle): (r: Os)
    ensures !IsWindow(os, h) ==> r == os
    ensures ChangesOnly(os, r, h)
    ensures r.zOrder == if Accepts(os, h, SetWindowPosApi) then Restack(os.zOrder, h, HwndTop) else os.zOrder
  {
    var os1 := Reenable(os, h);
    var os2 := Reposition(os1, positions, h);
    var os3 := Restyle(os2, h);
    var r := Reveal(os3, h);
    ChangesOnlyTransitive(os, os1, os2, h);
    ChangesOnlyTransitive(os, os2, os3, h);
    ChangesOnlyTransitive(os, os3, r, h);
    r
  }

  /** `show_window` keeps the desktop well formed. */
  lemma ShowKeepsWellFormed(os: Os, positions: map<Handle, Rect>, h: Handle)
    requires WellFormed(os)
    ensures WellFormed(ShowEffect(os, positions, h))
  {
    var r := ShowEffect(os, positions, h);
    if Accepts(os, h, SetWindowPosApi) {
      assert r.zOrder == Restack(os.zOrder, h, HwndTop);
    }
    ChangesOnlyKeepsWellFormed(os, r, h);
  }

  /** Where `show_window` puts the window and how it looks: at its cached rectangle, or at
      (100, 100) with its size kept when none is cached; WS_EX_TOOLWINDOW cleared and no other
      extended-style bit touched; opaque again if layered. Each effect needs its own call to
      be accepted. */
  lemma ShowPlacesWindow(os: Os, positions: map<Handle, Rect>, h: Handle)
    requires IsWindow(os, h)
    ensures var w, w' := os.windows[h], ShowEffect(os, positions, h).windows[h];
      && w'.rect == (if !Accepts(os, h, SetWindowPosApi) then w.rect
                     else if h in positions then positions[h] else Fallback(w.rect))
      && w'.exStyle == (if Accepts(os, h, SetWindowLongApi) then w.exStyle - {WS_EX_TOOLWINDOW} else w.exStyle)
      && w'.alpha == (if WS_EX_LAYERED in w.exStyle && Accepts(os, h, SetLayeredWindowAttributesApi)
                      then OPAQUE else w.alpha)
  {
    var os3 := Reposition(Reenable(os, h), positions, h);
    assert ShowEffect(os, positions, h) == Reveal(Restyle(os3, h), h);
  }

  /** `show_window` re-enables the window (WS_DISABLED cleared), shows it with WS_VISIBLE set
      when either SetWindowPos or ShowWindow is accepted, and touches no other style bit. */
  lemma ShowReenablesWindow(os: Os, positions: map<Handle, Rect>, h: Handle)
    requires IsWindow(os, h)
    ensures var w, w' := os.windows[h], ShowEffect(os, positions, h).windows[h];
      var enabling, moving := Accepts(os, h, EnableWindowApi), Accepts(os, h, SetWindowPosApi);
      var showing := Accepts(os, h, ShowWindowApi);
      && w'.enabled == (enabling || w.enabled)
      && (enabling ==> WS_DISABLED !in w'.style)
      && (moving || showing ==> WS_VISIBLE in w'.style && w'.visible)
      && (showing ==> !w'.minimized)
      && OnlyFlagsDiffer(w.style, w'.style, {WS_VISIBLE, WS_DISABLED})
  {
  }

  // ---------------------------------------------------------------- hide, then show

  /** Hide then show puts a window back on its original rectangle when the rectangle could
      be captured and the window accepts being moved. */
  lemma HideThenShowRestoresRect(os: Os, positions: map<Handle, Rect>, h: Handle)
    requires HideSucceeds(os, h) && Accepts(os, h, GetWindowRectApi)
    ensures var hid := HideEffect(os, positions, h);
      ShowEffect(hid.os, hid.positions, h).windows[h].rect == os.windows[h].rect
  {
    var hid := HideEffect(os, positions, h);
    ShowPlacesWindow(hid.os, hid.positions, h);
  }

  /** A window the classifier accepted, hidden and then shown again where the system accepts
      every call on it, is accepted again once it has left the hidden set. */
  lemma HideThenShowRestoresAltTab(os: Os, hidden: set<Handle>, positions: map<Handle, Rect>, h: Handle)
    requires h !in hidden && IsAltTabWindow(os, hidden, h)
    requires forall api :: (h, api) !in os.refused
    ensures var hid := HideEffect(os, positions, h);
      IsAltTabWindow(ShowEffect(hid.os, hid.positions, h), hidden, h)
  {
    var hid := HideEffect(os, positions, h);
    assert Accepts(os, h, SetWindowLongApi) && Accepts(os, h, SetLayeredWindowAttributesApi);
    assert Accepts(os, h, SetWindowPosApi) && Accepts(os, h, ShowWindowApi) && Accepts(os, h, EnableWindowApi);
    HideParksWindow(os, positions, h);
    ShowPlacesWindow(hid.os, hid.positions, h);
    ShowReenablesWindow(hid.os, hid.positions, h);
  }

  /** A hidden window whose EnableWindow call was accepted is disabled, so the classifier
      rejects it even though it is in the hidden set; the enumeration lists it only through
      its own hidden-set test, and its record reads "Hidden". */
  lemma HiddenWindowListedOnlyAsHidden(os: Os, hidden: set<Handle>, positions: map<Handle, Rect>, h: Handle)
    requires HideSucceeds(os, h) && Accepts(os, h, EnableWindowApi) && Accepts(os, h, ShowWindowApi)
    ensures var hid := HideEffect(os, positions, h);
      && !IsAltTabWindow(hid.os, hidden + {h}, h)
      && Listed(hid.os, hidden + {h}, h)
      && MakeRecord(hid.os, h).visible == Hidden
  {
    HideParksWindow(os, positions, h);
  }

  /** Hiding an already hidden window succeeds again and keeps it where it is parked, but
      overwrites its cached rectangle with the off-screen one, so a later show puts it back
      off-screen rather than where it was before the first hide. */
  lemma RepeatHideCachesOffscreenRect(os: Os, positions: map<Handle, Rect>, h: Handle)
    requires HideSucceeds(os, h) && Accepts(os, h, GetWindowRectApi)
    ensures var once := HideEffect(os, positions, h);
      var twice := HideEffect(once.os, once.positions, h);
      && twice.ok
      && twice.os.windows[h].rect == once.os.windows[h].rect
      && twice.positions[h] == Offscreen(os.windows[h].rect)
      && ShowEffect(twice.os, twice.positions, h).windows[h].rect == Offscreen(os.windows[h].rect)
  {
    var once := HideEffect(os, positions, h);
    HideParksWindow(os, positions, h);
    var twice := HideEffect(once.os, once.positions, h);
    HideParksWindow(once.os, once.positions, h);
    ShowPlacesWindow(twice.os, twice.positions, h);
  }
}
