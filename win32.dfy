// The desktop as the window manager sees it, and the native calls the
// taskbar manager makes on it. Every call is a small update or query on a
// table from window handle to window state; a call the system refuses either
// raises (the binding reports the failure as an exception) or does nothing
// (the binding reports it as a return value the caller ignores).

module Wrappers {
  datatype Option<+T> = None | Some(value: T)
}

module Win32 {
  import opened Wrappers

  /** A window handle (HWND); 0 is the null handle, used as "no parent". */
  type Handle = int

  /** A 32-bit style word (GWL_STYLE or GWL_EXSTYLE) as the set of the positions of its set
      bits: `x | FLAG` is `x + {FLAG}`, `x & ~FLAG` is `x - {FLAG}`, `x & FLAG != 0` is `FLAG in x`. */
  type Bits = set<nat>

  // The bit positions of the style flags the core reads or writes.
  const WS_VISIBLE: nat := 28        // 0x1000_0000
  const WS_DISABLED: nat := 27       // 0x0800_0000
  const WS_EX_TOOLWINDOW: nat := 7   // 0x0000_0080
  const WS_EX_LAYERED: nat := 19     // 0x0008_0000

  datatype Rect = Rect(left: int, top: int, right: int, bottom: int) {
    function Width(): int { right - left }
    function Height(): int { bottom - top }
  }

  /** The native calls the system may refuse on a window (for instance on a window of an elevated
      process when the manager is not elevated). */
  datatype Api =
    | GetWindowRectApi
    | ShowWindowApi
    | SetWindowLongApi
    | SetLayeredWindowAttributesApi
    | SetWindowPosApi
    | EnableWindowApi
    | PostMessageApi

  /** The state of one existing window. `owner` is None when the owning process id cannot be read. */
  datatype Window = Window(
    visible: bool,
    minimized: bool,
    style: Bits,
    exStyle: Bits,
    parent: Handle,
    title: string,
    rect: Rect,
    alpha: int,
    enabled: bool,
    owner: Option<int>)

  /** A handle exists iff it is a key of `windows`; `zOrder` is the top-level z-order, top first;
      `processes` maps the process ids that can be opened to their executable names; `refused`
      holds the pairs of a window and a call the system rejects on it. No call changes `refused`. */
  datatype Os = Os(windows: map<Handle, Window>, zOrder: seq<Handle>, processes: map<int, string>,
                   refused: set<(Handle, Api)>)

  predicate NoDuplicates(z: seq<Handle>)
  {
    forall i, j :: 0 <= i < j < |z| ==> z[i] != z[j]
  }

  /** A sequence without repeats has as many distinct members as entries. */
  lemma {:induction false} DistinctCount(z: seq<Handle>)
    requires NoDuplicates(z)
    ensures |set x | x in z| == |z|
    decreases |z|
  {
    if z != [] {
      var front, last := z[..|z| - 1], z[|z| - 1];
      assert z == front + [last];
      DistinctCount(front);
      assert (set x | x in z) == (set x | x in front) + {last};
      assert last !in front;
    }
  }

  /** The z-order lists every existing window exactly once. */
  ghost predicate WellFormed(os: Os)
  {
    && NoDuplicates(os.zOrder)
    && forall h :: h in os.zOrder <==> h in os.windows
  }

  /** `after` differs from `before` at most in the mutable state of window `h` and in the z-order. */
  predicate ChangesOnly(before: Os, after: Os, h: Handle)
  {
    && after.processes == before.processes
    && after.refused == before.refused
    && (h !in before.windows ==> after.windows == before.windows)
    && (h in before.windows ==>
          && h in after.windows
          && after.windows == before.windows[h := after.windows[h]]
          && var w, w' := before.windows[h], after.windows[h];
             w'.parent == w.parent && w'.title == w.title && w'.owner == w.owner)
  }

  /** Two changes confined to window `h` make one. */
  lemma ChangesOnlyTransitive(a: Os, b: Os, c: Os, h: Handle)
    requires ChangesOnly(a, b, h) && ChangesOnly(b, c, h)
    ensures ChangesOnly(a, c, h)
  {
  }

  /** The z-order with `h` taken out. */
  function Without(z: seq<Handle>, h: Handle): (r: seq<Handle>)
    ensures forall x :: x in r <==> x in z && x != h
    ensures NoDuplicates(z) ==> NoDuplicates(r)
    ensures |r| <= |z|
  {
    if z == [] then []
    else
      var rest := Without(z[1..], h);
      if z[0] == h then rest
      else
        assert NoDuplicates(z) ==> z[0] !in z[1..];
        [z[0]] + rest
  }

  predicate Accepts(os: Os, h: Handle, api: Api)
  {
    h in os.windows && (h, api) !in os.refused
  }

  /** The outcome of a call that can raise. */
  datatype Reply = Returned(after: Os) | Raised

  predicate IsWindow(os: Os, h: Handle)
  {
    h in os.windows
  }

  predicate IsWindowVisible(os: Os, h: Handle)
  {
    h in os.windows && os.windows[h].visible
  }

  datatype LongIndex = GwlStyle | GwlExStyle

  /** GetWindowLong: raises (None) on a handle that is not a window. */
  function GetWindowLong(os: Os, h: Handle, index: LongIndex): (r: Option<Bits>)
    ensures r.Some? <==> IsWindow(os, h)
  {
    if h !in os.windows then None
    else if index == GwlStyle then Some(os.windows[h].style)
    else Some(os.windows[h].exStyle)
  }

  function GetParent(os: Os, h: Handle): Handle
  {
    if h in os.windows then os.windows[h].parent else 0
  }

  function GetWindowText(os: Os, h: Handle): string
  {
    if h in os.windows then os.windows[h].title else ""
  }

  function GetWindowRect(os: Os, h: Handle): (r: Option<Rect>)
    ensures r.Some? <==> Accepts(os, h, GetWindowRectApi)
  {
    if Accepts(os, h, GetWindowRectApi) then Some(os.windows[h].rect) else None
  }

  function GetWindowThreadProcessId(os: Os, h: Handle): Option<int>
  {
    if h in os.windows then os.windows[h].owner else None
  }

  datatype ShowCmd = SwHide | SwMinimize | SwRestore | SwShow | SwNormal

  /** ShowWindow never raises; a refused call leaves the window as it was. */
  function ShowWindow(os: Os, h: Handle, cmd: ShowCmd): (r: Os)
    ensures ChangesOnly(os, r, h) && r.zOrder == os.zOrder
  {
    if !Accepts(os, h, ShowWindowApi) then os
    else
      var w := os.windows[h];
      var w' := match cmd
        case SwHide => w.(visible := false, style := w.style - {WS_VISIBLE})
        case SwMinimize => w.(visible := true, minimized := true, style := w.style + {WS_VISIBLE})
        case SwShow => w.(visible := true, style := w.style + {WS_VISIBLE})
        case _ => w.(visible := true, minimized := false, style := w.style + {WS_VISIBLE});
      os.(windows := os.windows[h := w'])
  }

  function SetWindowLong(os: Os, h: Handle, index: LongIndex, value: Bits): (r: Reply)
    ensures r.Returned? <==> Accepts(os, h, SetWindowLongApi)
    ensures r.Returned? ==> ChangesOnly(os, r.after, h) && r.after.zOrder == os.zOrder
  {
    if !Accepts(os, h, SetWindowLongApi) then Raised
    else
      var w := os.windows[h];
      var w' := if index == GwlStyle then w.(style := value) else w.(exStyle := value);
      Returned(os.(windows := os.windows[h := w']))
  }

  /** SetLayeredWindowAttributes with LWA_ALPHA; it fails on a window that is not layered. */
  function SetLayeredWindowAttributes(os: Os, h: Handle, alpha: int): (r: Reply)
    ensures r.Returned? <==>
      Accepts(os, h, SetLayeredWindowAttributesApi) && WS_EX_LAYERED in os.windows[h].exStyle
    ensures r.Returned? ==> ChangesOnly(os, r.after, h) && r.after.zOrder == os.zOrder
  {
    if !Accepts(os, h, SetLayeredWindowAttributesApi) || WS_EX_LAYERED !in os.windows[h].exStyle then Raised
    else Returned(os.(windows := os.windows[h := os.windows[h].(alpha := alpha)]))
  }

  /** Where SetWindowPos puts the window in the z-order. */
  datatype InsertAfter = HwndTop | HwndBottom

  function Restack(z: seq<Handle>, h: Handle, place: InsertAfter): (r: seq<Handle>)
    ensures forall x :: x in r <==> x in z || x == h
    ensures NoDuplicates(z) ==> NoDuplicates(r)
  {
    var rest := Without(z, h);
    assert forall i :: 0 <= i < |rest| ==> rest[i] in rest && rest[i] != h;
    if place == HwndTop then [h] + rest else rest + [h]
  }

  /** SetWindowPos; `noSize` is SWP_NOSIZE (keep width and height), `showWindow` is SWP_SHOWWINDOW. */
  function SetWindowPos(os: Os, h: Handle, place: InsertAfter, x: int, y: int, cx: int, cy: int,
                        noSize: bool, showWindow: bool): (r: Reply)
    ensures r.Returned? <==> Accepts(os, h, SetWindowPosApi)
    ensures r.Returned? ==> ChangesOnly(os, r.after, h) && r.after.zOrder == Restack(os.zOrder, h, place)
  {
    if !Accepts(os, h, SetWindowPosApi) then Raised
    else
      var w := os.windows[h];
      var rect := if noSize then Rect(x, y, x + w.rect.Width(), y + w.rect.Height())
                  else Rect(x, y, x + cx, y + cy);
      var w' := if showWindow then w.(rect := rect, visible := true, style := w.style + {WS_VISIBLE})
                else w.(rect := rect);
      Returned(os.(windows := os.windows[h := w'], zOrder := Restack(os.zOrder, h, place)))
  }

  /** A change confined to window `h` that keeps the z-order, or moves an existing `h` within
      it, keeps the desktop well formed. */
  lemma ChangesOnlyKeepsWellFormed(before: Os, after: Os, h: Handle)
    requires WellFormed(before) && ChangesOnly(before, after, h)
    requires after.zOrder == before.zOrder
          || (h in before.windows && exists place :: after.zOrder == Restack(before.zOrder, h, place))
    ensures WellFormed(after)
  {
  }

  /** EnableWindow never raises; it keeps the WS_DISABLED bit in step with the enabled flag. */
  function EnableWindow(os: Os, h: Handle, enable: bool): (r: Os)
    ensures ChangesOnly(os, r, h) && r.zOrder == os.zOrder
  {
    if !Accepts(os, h, EnableWindowApi) then os
    else
      var w := os.windows[h];
      var style := if enable then w.style - {WS_DISABLED} else w.style + {WS_DISABLED};
      os.(windows := os.windows[h := w.(enabled := enable, style := style)])
  }

  /** PostMessage(WM_CLOSE): the message is only queued, the target closes later or never. */
  function PostMessage(os: Os, h: Handle): (r: Reply)
    ensures r.Returned? <==> Accepts(os, h, PostMessageApi)
    ensures r.Returned? ==> r.after == os
  {
    if Accepts(os, h, PostMessageApi) then Returned(os) else Raised
  }
}
