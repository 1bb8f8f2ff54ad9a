// `TaskbarManager`: the session state of the taskbar manager and the
// operations its buttons run. Each method makes the same native calls, in
// the same order, as the corresponding method of the class, on the desktop
// held in `os`, and is proved to end in the state the functions of modules
// Discovery, Visibility and Batch describe.

module Manager {
  import opened Wrappers
  import opened Win32
  import opened Discovery
  import opened Visibility
  import opened Batch

  class TaskbarManager {
    /** The desktop the native calls read and change. */
    var os: Os
    /** `self.windows`: the records built by the last refresh, one per list row, in order. */
    var windows: seq<WindowRecord>
    /** `self.hidden_windows`: the handles the manager hid and has not shown since. */
    var hiddenWindows: set<Handle>
    /** `self.window_positions`: the rectangle each handle had when its hide read it. */
    var windowPositions: map<Handle, Rect>

    ghost predicate Valid()
      reads this
    {
      WellFormed(os)
    }

    /** The part of the state the batch operations change. */
    function State(): Session
      reads this
    {
      Session(os, hiddenWindows, windowPositions)
    }

    /** `__init__` without the widgets: empty bookkeeping, then a refresh. */
    constructor(desktop: Os)
      requires WellFormed(desktop)
      ensures Valid()
      ensures os == desktop && hiddenWindows == {} && windowPositions == map[]
      ensures windows == Enumerate(desktop, {}, desktop.zOrder)
    {
      os := desktop;
      windows := [];
      hiddenWindows := {};
      windowPositions := map[];
      new;
      RefreshApps();
    }

    /** `refresh_apps`: rebuild `windows` from empty, visiting the top-level windows in
        z-order and recording each one the classifier accepts or that is hidden. */
    method RefreshApps()
      modifies this`windows
      ensures windows == Enumerate(os, hiddenWindows, os.zOrder)
    {
      windows := [];
      var z := os.zOrder;
      for i := 0 to |z|
        invariant windows == Enumerate(os, hiddenWindows, z[..i])
      {
        var h := z[i];
        if IsAltTabWindow(os, hiddenWindows, h) || h in hiddenWindows {
          var title := GetWindowText(os, h);
          var identity := GetProcessNameFromHwnd(os, h);
          var visibility := if IsWindowVisible(os, h) then Visible else Hidden;
          windows := windows + [WindowRecord(h, title, identity.name, identity.pid, visibility)];
        }
        assert z[..i + 1][..i] == z[..i];
      }
      assert z[..|z|] == z;
    }

    /** `get_selected_windows`: for each selected row, in selection order, the first record
        with the row's pid. */
    method GetSelectedWindows(rows: seq<nat>) returns (selected: seq<WindowRecord>)
      requires RowsIn(windows, rows)
      ensures |selected| == |rows|
      ensures forall k :: 0 <= k < |rows| ==> selected[k] == windows[ResolveRow(windows, rows[k])]
    {
      selected := [];
      for k := 0 to |rows|
        invariant |selected| == k
        invariant forall j :: 0 <= j < k ==> selected[j] == windows[ResolveRow(windows, rows[j])]
      {
        var pid := windows[rows[k]].pid;
        var i := 0;
        while i < |windows| && windows[i].pid != pid
          invariant i <= ResolveRow(windows, rows[k])
          invariant forall j :: 0 <= j < i ==> windows[j].pid != pid
        {
          i := i + 1;
        }
        if i < |windows| {
          selected := selected + [windows[i]];
        }
      }
    }

    /** `hide_window`: if the handle is a window, cache its rectangle when it can be read,
        then conceal and disguise it under one `try`; the first raise returns False, with the
        calls before it in effect. True adds the handle to the hidden set. */
    method HideWindow(h: Handle) returns (ok: bool)
      modifies this`os, this`hiddenWindows, this`windowPositions
      ensures var e := HideEffect(old(os), old(windowPositions), h);
        ok == e.ok && os == e.os && windowPositions == e.positions
      ensures hiddenWindows == if ok then old(hiddenWindows) + {h} else old(hiddenWindows)
    {
      if !IsWindow(os, h) {
        return false;
      }
      match GetWindowRect(os, h) {
        case Some(rect) =>
          windowPositions := windowPositions[h := rect];
        case None =>
      }
      ConcealStep(h);
      ok := MarkStep(h);
      if !ok {
        return false;
      }
      ok := ParkStep(h);
      if !ok {
        return false;
      }
      hiddenWindows := hiddenWindows + {h};
    }

    /** SW_HIDE, SW_MINIMIZE, SW_HIDE. */
    method ConcealStep(h: Handle)
      modifies this`os
      ensures os == Conceal(old(os), h)
    {
      os := Win32.ShowWindow(os, h, SwHide);
      os := Win32.ShowWindow(os, h, SwMinimize);
      os := Win32.ShowWindow(os, h, SwHide);
    }

    /** Read the extended style and OR in WS_EX_TOOLWINDOW, then again for WS_EX_LAYERED;
        False at the first raise. */
    method MarkStep(h: Handle) returns (ok: bool)
      requires IsWindow(os, h)
      modifies this`os
      ensures Attempted(ok, os) == MarkToolLayered(old(os), h)
    {
      var exStyle := GetWindowLong(os, h, GwlExStyle).value;
      var reply := SetWindowLong(os, h, GwlExStyle, exStyle + {WS_EX_TOOLWINDOW});
      if reply.Raised? {
        return false;
      }
      os := reply.after;
      exStyle := GetWindowLong(os, h, GwlExStyle).value;
      reply := SetWindowLong(os, h, GwlExStyle, exStyle + {WS_EX_LAYERED});
      if reply.Raised? {
        return false;
      }
      os := reply.after;
      return true;
    }

    /** Alpha 0, a move to the bottom at (-32000, -32000) keeping the size, EnableWindow(False);
        False at the first raise. */
    method ParkStep(h: Handle) returns (ok: bool)
      requires IsWindow(os, h)
      modifies this`os
      ensures Attempted(ok, os) == Park(old(os), h)
    {
      var reply := SetLayeredWindowAttributes(os, h, TRANSPARENT);
      if reply.Raised? {
        return false;
      }
      os := reply.after;
      reply := SetWindowPos(os, h, HwndBottom, OFFSCREEN, OFFSCREEN, 0, 0, true, false);
      if reply.Raised? {
        return false;
      }
      os := reply.after;
      os := EnableWindow(os, h, false);
      return true;
    }

    /** `show_window`: every step in its own `try`, whose failure is passed over, and no
        existence check, so it returns True. */
    method ShowWindow(h: Handle) returns (ok: bool)
      modifies this`os
      ensures ok && os == ShowEffect(old(os), windowPositions, h)
    {
      ReenableStep(h);
      RepositionStep(h);
      RestyleStep(h);
      RevealStep(h);
      return true;
    }

    /** EnableWindow(True), then alpha 255 when the window is layered. */
    method ReenableStep(h: Handle)
      modifies this`os
      ensures os == Reenable(old(os), h)
    {
      os := EnableWindow(os, h, true);
      match GetWindowLong(os, h, GwlExStyle) {
        case Some(exStyle) =>
          if WS_EX_LAYERED in exStyle {
            var reply := SetLayeredWindowAttributes(os, h, OPAQUE);
            if reply.Returned? {
              os := reply.after;
            }
          }
        case None =>
      }
    }

    /** Back to the cached rectangle, or to (100, 100) keeping the size, on top and shown. */
    method RepositionStep(h: Handle)
      modifies this`os
      ensures os == Reposition(old(os), windowPositions, h)
    {
      var reply;
      if h in windowPositions {
        var rect := windowPositions[h];
        reply := SetWindowPos(os, h, HwndTop, rect.left, rect.top,
                              rect.right - rect.left, rect.bottom - rect.top, false, true);
      } else {
        reply := SetWindowPos(os, h, HwndTop, FALLBACK, FALLBACK, 0, 0, true, true);
      }
      if reply.Returned? {
        os := reply.after;
      }
    }

    /** Clear WS_EX_TOOLWINDOW from the extended style. */
    method RestyleStep(h: Handle)
      modifies this`os
      ensures os == Restyle(old(os), h)
    {
      match GetWindowLong(os, h, GwlExStyle) {
        case Some(exStyle) =>
          var reply := SetWindowLong(os, h, GwlExStyle, exStyle - {WS_EX_TOOLWINDOW});
          if reply.Returned? {
            os := reply.after;
          }
        case None =>
      }
    }

    /** SW_RESTORE, SW_SHOW, SW_NORMAL. */
    method RevealStep(h: Handle)
      modifies this`os
      ensures os == Reveal(old(os), h)
    {
      os := Win32.ShowWindow(os, h, SwRestore);
      os := Win32.ShowWindow(os, h, SwShow);
      os := Win32.ShowWindow(os, h, SwNormal);
    }

    /** `hide_selected`: hide each selected window, count the hides that returned True, then
        refresh; an empty selection changes nothing. */
    method HideSelected(rows: seq<nat>) returns (count: nat)
      requires Valid() && RowsIn(windows, rows)
      modifies this
      ensures Valid()
      ensures rows == [] ==> count == 0 && unchanged(this)
      ensures rows != [] ==>
        var hs := Handles(ResolveSelection(old(windows), rows));
        var t := HideEach(old(State()), hs);
        && count == t.count && State() == t.session
        && windows == Enumerate(os, hiddenWindows, os.zOrder)
        && count == Succeeding(old(os), hs)
        && forall x :: x in hiddenWindows <==> x in old(hiddenWindows) || (x in hs && HideSucceeds(old(os), x))
    {
      var selected := GetSelectedWindows(rows);
      if |selected| == 0 {
        return 0;
      }
      assert selected == ResolveSelection(windows, rows);
      count := HideHandles(Handles(selected));
      HideEachFrame(old(State()), Handles(selected));
      HideEachCount(old(State()), Handles(selected));
      HideEachHidden(old(State()), Handles(selected));
      RefreshApps();
    }

    /** The loop of `hide_selected`: `hide_window` on each handle in turn, counting the calls
        that returned True. */
    method HideHandles(hs: seq<Handle>) returns (count: nat)
      modifies this`os, this`hiddenWindows, this`windowPositions
      ensures HideEach(old(State()), hs) == Tally(count, State())
    {
      ghost var s0 := State();
      count := 0;
      for k := 0 to |hs|
        invariant HideEach(s0, hs[..k]) == Tally(count, State())
      {
        var ok := HideWindow(hs[k]);
        if ok {
          count := count + 1;
        }
        assert hs[..k + 1][..k] == hs[..k];
      }
      assert hs[..|hs|] == hs;
    }

    /** `show_selected`: show each selected window, count it and drop it from the hidden set
        when the show returned True, then refresh. An empty selection changes nothing. */
    method ShowSelected(rows: seq<nat>) returns (count: nat)
      requires Valid() && RowsIn(windows, rows)
      modifies this
      ensures Valid()
      ensures rows == [] ==> count == 0 && unchanged(this)
      ensures rows != [] ==>
        var hs := Handles(ResolveSelection(old(windows), rows));
        var t := ShowEach(old(State()), hs);
        && count == t.count && State() == t.session
        && windows == Enumerate(os, hiddenWindows, os.zOrder)
        && count == |rows| && windowPositions == old(windowPositions)
        && forall x :: x in hiddenWindows <==> x in old(hiddenWindows) && x !in hs
    {
      var selected := GetSelectedWindows(rows);
      if |selected| == 0 {
        return 0;
      }
      assert selected == ResolveSelection(windows, rows);
      count := ShowHandles(Handles(selected));
      ShowEachFrame(old(State()), Handles(selected));
      ShowEachCount(old(State()), Handles(selected));
      ShowEachHidden(old(State()), Handles(selected));
      RefreshApps();
    }

    /** The loop of `show_selected`. */
    method ShowHandles(hs: seq<Handle>) returns (count: nat)
      modifies this`os, this`hiddenWindows
      ensures ShowEach(old(State()), hs) == Tally(count, State())
    {
      ghost var s0 := State();
      count := 0;
      for k := 0 to |hs|
        invariant ShowEach(s0, hs[..k]) == Tally(count, State())
      {
        var h := hs[k];
        var ok := ShowWindow(h);
        if ok {
          count := count + 1;
          if h in hiddenWindows {
            hiddenWindows := hiddenWindows - {h};
          }
        }
        assert hs[..k + 1][..k] == hs[..k];
      }
      assert hs[..|hs|] == hs;
    }

    /** `hide_all_similar`: hide every listed window whose lower-cased process name is that of
        the first selected record, in list order, count the hides that returned True, then
        refresh. An empty selection changes nothing. */
    method HideAllSimilar(rows: seq<nat>) returns (count: nat)
      requires Valid() && RowsIn(windows, rows)
      modifies this
      ensures Valid()
      ensures rows == [] ==> count == 0 && unchanged(this)
      ensures rows != [] ==>
        var target := Lower(old(windows)[ResolveRow(old(windows), rows[0])].process);
        var similar := SimilarHandles(old(windows), target);
        var t := HideEach(old(State()), similar);
        && count == t.count && State() == t.session
        && windows == Enumerate(os, hiddenWindows, os.zOrder)
        && count == Succeeding(old(os), similar)
        && forall x :: x in hiddenWindows <==> x in old(hiddenWindows) || (x in similar && HideSucceeds(old(os), x))
    {
      var selected := GetSelectedWindows(rows);
      if |selected| == 0 {
        return 0;
      }
      var target := Lower(selected[0].process);
      count := HideSimilar(windows, target);
      ghost var similar := SimilarHandles(old(windows), target);
      HideEachFrame(old(State()), similar);
      HideEachCount(old(State()), similar);
      HideEachHidden(old(State()), similar);
      RefreshApps();
    }

    /** The loop of `hide_all_similar` over the records `listed`. */
    method HideSimilar(listed: seq<WindowRecord>, target: string) returns (count: nat)
      modifies this`os, this`hiddenWindows, this`windowPositions
      ensures HideEach(old(State()), SimilarHandles(listed, target)) == Tally(count, State())
    {
      ghost var s0 := State();
      count := 0;
      for i := 0 to |listed|
        invariant HideEach(s0, SimilarHandles(listed[..i], target)) == Tally(count, State())
      {
        ghost var before := SimilarHandles(listed[..i], target);
        assert listed[..i + 1][..i] == listed[..i];
        if Lower(listed[i].process) == target {
          assert SimilarHandles(listed[..i + 1], target) == before + [listed[i].hwnd];
          assert (before + [listed[i].hwnd])[..|before|] == before;
          var ok := HideWindow(listed[i].hwnd);
          if ok {
            count := count + 1;
          }
        } else {
          assert SimilarHandles(listed[..i + 1], target) == before;
        }
      }
      assert listed[..|listed|] == listed;
    }

    /** `close_selected`: post WM_CLOSE to each selected window, drop it from the hidden set
        and count it, then refresh. A raising post leaves the method by its exception
        (`raised`), before the refresh; an empty selection changes nothing. */
    method CloseSelected(rows: seq<nat>) returns (count: nat, raised: bool)
      requires RowsIn(windows, rows)
      modifies this`hiddenWindows, this`windows
      ensures rows == [] ==> count == 0 && !raised && unchanged(this)
      ensures rows != [] ==>
        var hs := Handles(ResolveSelection(old(windows), rows));
        var t := CloseEach(old(hiddenWindows), os, hs);
        && count == t.count && raised == t.raised && hiddenWindows == t.hidden
        && windows == (if raised then old(windows) else Enumerate(os, hiddenWindows, os.zOrder))
        && (!raised <==> forall i :: 0 <= i < |hs| ==> Accepts(os, hs[i], PostMessageApi))
        && (!raised ==> count == |rows| && forall x :: x in hiddenWindows <==> x in old(hiddenWindows) && x !in hs)
    {
      var selected := GetSelectedWindows(rows);
      if |selected| == 0 {
        return 0, false;
      }
      assert selected == ResolveSelection(windows, rows);
      count, raised := CloseHandles(Handles(selected));
      CloseEachRaises(old(hiddenWindows), os, Handles(selected));
      CloseEachCompletes(old(hiddenWindows), os, Handles(selected));
      if !raised {
        RefreshApps();
      }
    }

    /** The loop of `close_selected`, up to the first raise. */
    method CloseHandles(hs: seq<Handle>) returns (count: nat, raised: bool)
      modifies this`hiddenWindows
      ensures CloseEach(old(hiddenWindows), os, hs) == CloseTally(count, hiddenWindows, raised)
    {
      ghost var hidden0 := hiddenWindows;
      count := 0;
      for k := 0 to |hs|
        invariant CloseEach(hidden0, os, hs[..k]) == CloseTally(count, hiddenWindows, false)
      {
        var h := hs[k];
        assert hs[..k + 1][..k] == hs[..k];
        var reply := PostMessage(os, h);
        if reply.Raised? {
          CloseEachStaysRaised(hidden0, os, hs, k + 1);
          return count, true;
        }
        if h in hiddenWindows {
          hiddenWindows := hiddenWindows - {h};
        }
        count := count + 1;
      }
      assert hs[..|hs|] == hs;
      raised := false;
    }

    /** `reset_all`: show every handle of a snapshot of the hidden set, taking each out of the
        live set whatever the show returned, then refresh. With nothing hidden it changes
        nothing. `order` is the order the snapshot was visited in. */
    method ResetAll() returns (count: nat, ghost order: seq<Handle>)
      requires Valid()
      modifies this
      ensures Valid()
      ensures old(hiddenWindows) == {} ==> count == 0 && order == [] && unchanged(this)
      ensures old(hiddenWindows) != {} ==>
        && NoDuplicates(order) && (set x | x in order) == old(hiddenWindows)
        && var t := ShowEach(old(State()), order);
        && count == t.count && State() == t.session
        && windows == Enumerate(os, hiddenWindows, os.zOrder)
        && hiddenWindows == {} && count == |old(hiddenWindows)| && windowPositions == old(windowPositions)
    {
      order := [];
      if hiddenWindows == {} {
        return 0, order;
      }
      var snapshot := Snapshot(hiddenWindows);
      order := snapshot;
      count := ShowAndForget(snapshot);
      ShowEachFrame(old(State()), order);
      ShowEachCount(old(State()), order);
      ShowEachHidden(old(State()), order);
      DistinctCount(order);
      EmptyIffNoMember(hiddenWindows);
      RefreshApps();
    }

    /** The copy of the hidden set that `reset_all` iterates, in the order it visits it. */
    static method Snapshot(hidden: set<Handle>) returns (order: seq<Handle>)
      ensures NoDuplicates(order) && (set x | x in order) == hidden
    {
      var pending := hidden;
      order := [];
      while pending != {}
        invariant NoDuplicates(order)
        invariant forall x :: x in order <==> x in hidden && x !in pending
        invariant pending <= hidden
        decreases pending
      {
        EmptyIffNoMember(pending);
        var h :| h in pending;
        pending := pending - {h};
        order := order + [h];
      }
      EmptyIffNoMember(pending);
      assert forall x :: x in order <==> x in hidden;
    }

    /** The loop of `reset_all`: `show_window` on each handle, counting the calls that
        returned True, and each handle taken out of the live hidden set whatever the show
        returned. */
    method ShowAndForget(hs: seq<Handle>) returns (count: nat)
      modifies this`os, this`hiddenWindows
      ensures ShowEach(old(State()), hs) == Tally(count, State())
    {
      ghost var s0 := State();
      count := 0;
      for k := 0 to |hs|
        invariant ShowEach(s0, hs[..k]) == Tally(count, State())
      {
        var h := hs[k];
        var ok := ShowWindow(h);
        if ok {
          count := count + 1;
        }
        hiddenWindows := hiddenWindows - {h};
        assert hs[..k + 1][..k] == hs[..k];
      }
      assert hs[..|hs|] == hs;
    }
  }

  /** A set is empty exactly when nothing is a member of it. */
  lemma {:induction false} EmptyIffNoMember(s: set<Handle>)
    ensures s == {} <==> forall x :: x !in s
  {
    if forall x :: x !in s {
      assert s == {};
    }
  }

  /** Once a post has raised, the rest of the selection is not visited. */
  lemma {:induction false} CloseEachStaysRaised(hidden: set<Handle>, os: Os, hs: seq<Handle>, k: nat)
    requires k <= |hs| && CloseEach(hidden, os, hs[..k]).raised
    ensures CloseEach(hidden, os, hs) == CloseEach(hidden, os, hs[..k])
    decreases |hs| - k
  {
    if k < |hs| {
      assert hs[..k + 1][..k] == hs[..k];
      CloseEachStaysRaised(hidden, os, hs, k + 1);
    } else {
      assert hs[..k] == hs;
    }
  }
}
