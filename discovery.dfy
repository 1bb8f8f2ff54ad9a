// Which windows the manager lists, what it records about each, and how a
// selection in the list is resolved back to records.

module Discovery {
  import opened Wrappers
  import opened Win32

  /** The alt-tab test of `TaskbarManager.is_alt_tab_window`. Membership in `hidden` relaxes
      the visibility, tool-window, parent and title tests, but not the existence or
      WS_DISABLED tests. */
  function IsAltTabWindow(os: Os, hidden: set<Handle>, h: Handle): (r: bool)
    ensures r ==> IsWindow(os, h) && WS_DISABLED !in os.windows[h].style
    ensures h in hidden ==> (r <==> IsWindow(os, h) && WS_DISABLED !in os.windows[h].style)
    ensures h !in hidden ==>
      (r <==> && IsWindow(os, h)
              && os.windows[h].visible
              && WS_VISIBLE in os.windows[h].style
              && WS_DISABLED !in os.windows[h].style
              && WS_EX_TOOLWINDOW !in os.windows[h].exStyle
              && os.windows[h].parent == 0
              && os.windows[h].title != [])
  {
    if !IsWindow(os, h) then false
    else if !IsWindowVisible(os, h) && h !in hidden then false
    else
      var style := GetWindowLong(os, h, GwlStyle).value;
      var exStyle := GetWindowLong(os, h, GwlExStyle).value;
      if WS_VISIBLE !in style && h !in hidden then false
      else if WS_DISABLED in style then false
      else if WS_EX_TOOLWINDOW in exStyle && h !in hidden then false
      else if GetParent(os, h) != 0 && h !in hidden then false
      else if |GetWindowText(os, h)| == 0 && h !in hidden then false
      else true
  }

  datatype ProcessIdentity = ProcessIdentity(name: string, pid: int)

  /** `get_process_name_from_hwnd`: never fails; "Unknown" stands in for a name that cannot be
      read, and pid 0 for an owner that cannot be read. */
  function GetProcessNameFromHwnd(os: Os, h: Handle): (r: ProcessIdentity)
    ensures GetWindowThreadProcessId(os, h).None? ==> r == ProcessIdentity("Unknown", 0)
    ensures GetWindowThreadProcessId(os, h).Some? ==>
      && r.pid == GetWindowThreadProcessId(os, h).value
      && (r.pid in os.processes ==> r.name == os.processes[r.pid])
      && (r.pid !in os.processes ==> r.name == "Unknown")
    ensures r.name == "Unknown" || (r.pid in os.processes && r.name == os.processes[r.pid])
  {
    match GetWindowThreadProcessId(os, h)
    case None => ProcessIdentity("Unknown", 0)
    case Some(pid) =>
      if pid in os.processes then ProcessIdentity(os.processes[pid], pid)
      else ProcessIdentity("Unknown", pid)
  }

  datatype Visibility = Visible | Hidden

  /** One entry of `TaskbarManager.windows`. */
  datatype WindowRecord = WindowRecord(hwnd: Handle, title: string, process: string, pid: int, visible: Visibility)

  /** The enumeration test: the classifier, or membership in the hidden set. */
  predicate Listed(os: Os, hidden: set<Handle>, h: Handle)
  {
    IsAltTabWindow(os, hidden, h) || h in hidden
  }

  /** The record the enumeration callback builds for `h`. */
  function MakeRecord(os: Os, h: Handle): WindowRecord
  {
    var identity := GetProcessNameFromHwnd(os, h);
    WindowRecord(h, GetWindowText(os, h), identity.name, identity.pid,
                 if IsWindowVisible(os, h) then Visible else Hidden)
  }

  /** The records `refresh_apps` collects from the handles `z`, visited in that order. */
  function Enumerate(os: Os, hidden: set<Handle>, z: seq<Handle>): seq<WindowRecord>
    decreases |z|
  {
    if z == [] then []
    else
      var h := z[|z| - 1];
      Enumerate(os, hidden, z[..|z| - 1]) + if Listed(os, hidden, h) then [MakeRecord(os, h)] else []
  }

  /** `a` comes before `b` in `z`. */
  ghost predicate Precedes(z: seq<Handle>, a: Handle, b: Handle)
  {
    exists p, q :: 0 <= p < q < |z| && z[p] == a && z[q] == b
  }

  /** Every record is built from the current desktop for a listed handle of `z`, and shows
      "Visible" exactly when the window is visible. */
  lemma {:induction false} EnumerateRecordsListed(os: Os, hidden: set<Handle>, z: seq<Handle>)
    ensures forall i :: 0 <= i < |Enumerate(os, hidden, z)| ==>
      var rec := Enumerate(os, hidden, z)[i];
      && rec == MakeRecord(os, rec.hwnd)
      && rec.hwnd in z
      && Listed(os, hidden, rec.hwnd)
      && (rec.visible == Visible <==> IsWindowVisible(os, rec.hwnd))
    decreases |z|
  {
    if z != [] {
      EnumerateRecordsListed(os, hidden, z[..|z| - 1]);
    }
  }

  /** A handle of `z` has a record iff the classifier accepts it or it is hidden. */
  lemma {:induction false} EnumerateMembership(os: Os, hidden: set<Handle>, z: seq<Handle>, h: Handle)
    requires h in z
    ensures Listed(os, hidden, h) <==>
      exists i :: 0 <= i < |Enumerate(os, hidden, z)| && Enumerate(os, hidden, z)[i].hwnd == h
    decreases |z|
  {
    var front := z[..|z| - 1];
    var last := z[|z| - 1];
    var r := Enumerate(os, hidden, z);
    var e := Enumerate(os, hidden, front);
    assert r == e + if Listed(os, hidden, last) then [MakeRecord(os, last)] else [];
    EnumerateRecordsListed(os, hidden, front);
    if h == last {
      if Listed(os, hidden, h) {
        assert |r| == |e| + 1 && r[|e|].hwnd == h;
        assert exists i :: 0 <= i < |Enumerate(os, hidden, z)| && Enumerate(os, hidden, z)[i].hwnd == h;
      } else {
        assert r == e;
      }
    } else {
      assert h in front by { assert z == front + [last]; }
      EnumerateMembership(os, hidden, front, h);
      if Listed(os, hidden, h) {
        var i :| 0 <= i < |e| && e[i].hwnd == h;
        assert r[i] == e[i];
        assert exists i :: 0 <= i < |Enumerate(os, hidden, z)| && Enumerate(os, hidden, z)[i].hwnd == h;
      } else {
        forall i | 0 <= i < |r|
          ensures r[i].hwnd != h
        {
          if i < |e| {
            assert r[i] == e[i];
          }
        }
      }
    }
  }

  /** Records appear in the order their handles are visited; with distinct handles in `z`,
      no handle has two records. */
  lemma {:induction false} EnumerateOrder(os: Os, hidden: set<Handle>, z: seq<Handle>)
    ensures forall i, j :: 0 <= i < j < |Enumerate(os, hidden, z)| ==>
      Precedes(z, Enumerate(os, hidden, z)[i].hwnd, Enumerate(os, hidden, z)[j].hwnd)
    ensures NoDuplicates(z) ==> forall i, j :: 0 <= i < j < |Enumerate(os, hidden, z)| ==>
      Enumerate(os, hidden, z)[i].hwnd != Enumerate(os, hidden, z)[j].hwnd
    decreases |z|
  {
    var r := Enumerate(os, hidden, z);
    if z != [] {
      var front := z[..|z| - 1];
      var last := z[|z| - 1];
      var e := Enumerate(os, hidden, front);
      assert r == e + if Listed(os, hidden, last) then [MakeRecord(os, last)] else [];
      EnumerateOrder(os, hidden, front);
      EnumerateRecordsListed(os, hidden, front);
      forall i, j | 0 <= i < j < |r|
        ensures Precedes(z, r[i].hwnd, r[j].hwnd)
      {
        if j < |e| {
          var p, q :| 0 <= p < q < |front| && front[p] == e[i].hwnd && front[q] == e[j].hwnd;
          assert z[p] == r[i].hwnd && z[q] == r[j].hwnd;
        } else {
          var p :| 0 <= p < |front| && front[p] == e[i].hwnd;
          assert z[p] == r[i].hwnd && z[|z| - 1] == r[j].hwnd;
        }
      }
      if NoDuplicates(z) {
        forall i, j | 0 <= i < j < |r|
          ensures r[i].hwnd != r[j].hwnd
        {
          var p, q :| 0 <= p < q < |z| && z[p] == r[i].hwnd && z[q] == r[j].hwnd;
        }
      }
    }
  }

  /** The index of the first record whose pid is `pid`, searching from `k`; one is known to
      exist at `bound`. */
  function FirstWithPid(ws: seq<WindowRecord>, pid: int, k: nat, bound: nat): (i: nat)
    requires k <= bound < |ws| && ws[bound].pid == pid
    requires forall j :: 0 <= j < k ==> ws[j].pid != pid
    ensures k <= i <= bound && ws[i].pid == pid
    ensures forall j :: 0 <= j < i ==> ws[j].pid != pid
    decreases bound - k
  {
    if ws[k].pid == pid then k else FirstWithPid(ws, pid, k + 1, bound)
  }

  /** The record a selected list row resolves to in `get_selected_windows`: the first record
      with the row's pid, which is the row's own record only when no earlier record shares
      that pid. */
  function ResolveRow(ws: seq<WindowRecord>, row: nat): (i: nat)
    requires row < |ws|
    ensures i <= row && ws[i].pid == ws[row].pid
    ensures forall j :: 0 <= j < i ==> ws[j].pid != ws[row].pid
    ensures i == row <==> forall j :: 0 <= j < row ==> ws[j].pid != ws[row].pid
  {
    FirstWithPid(ws, ws[row].pid, 0, row)
  }

  /** Two selected rows of one process resolve to the same record. */
  lemma SamePidSameRecord(ws: seq<WindowRecord>, a: nat, b: nat)
    requires a < |ws| && b < |ws| && ws[a].pid == ws[b].pid
    ensures ResolveRow(ws, a) == ResolveRow(ws, b)
  {
  }

  predicate RowsIn(ws: seq<WindowRecord>, rows: seq<nat>)
  {
    forall k :: 0 <= k < |rows| ==> rows[k] < |ws|
  }

  /** The records `get_selected_windows` returns for the selected rows, in selection order. */
  function ResolveSelection(ws: seq<WindowRecord>, rows: seq<nat>): seq<WindowRecord>
    requires RowsIn(ws, rows)
  {
    seq(|rows|, k requires 0 <= k < |rows| => ws[ResolveRow(ws, rows[k])])
  }

  function Handles(records: seq<WindowRecord>): seq<Handle>
  {
    seq(|records|, k requires 0 <= k < |records| => records[k].hwnd)
  }
}
