# Taskbar manager: the window-visibility core, in Dafny

The taskbar manager (`src/taskbar_manager.py`) lists the top-level windows that
would appear in Alt+Tab. It hides selected windows from the taskbar and the
task switcher, shows them again, and keeps track of what it hid. This project
models the class `TaskbarManager` without its widgets:
- the classifier `is_alt_tab_window`;
- the process lookup;
- the record-building part of `refresh_apps`;
- `get_selected_windows`;
- the two window transformers `hide_window` and `show_window`;
- the five batch operations behind the buttons.

It proves what each operation does to the session state:
- `hidden_windows`, the set of handles the manager hid;
- `window_positions`, the rectangle cached for each hidden handle;
- `windows`, the records of the last refresh;
- the windows themselves.

## The desktop

Module `Win32` models the desktop as a value `Os`:
- a table from window handle to window state: visibility, minimized, style and
  extended style words, parent, title, rectangle, alpha, enabled, owning pid;
- the top-level z-order;
- the names of the processes that can be opened;
- the set `refused` of (window, call) pairs the system rejects, for instance on
  windows of an elevated process.

Each `win32gui` call the core makes becomes a function on that value. A
refused call either raises (`Reply.Raised`), as SetWindowLong,
SetLayeredWindowAttributes (also when the window is not layered),
SetWindowPos and PostMessage do, or does nothing, as ShowWindow and
EnableWindow do, since their failure is only a return value.

A 32-bit style word is the set of the positions of its set bits: `x | F` is
`x + {F}`, `x & ~F` is `x - {F}`, and a bit test is membership. The four flags
the core touches are WS_VISIBLE (bit 28), WS_DISABLED (27),
WS_EX_TOOLWINDOW (7) and WS_EX_LAYERED (19). `WellFormed` says the z-order
lists every existing window exactly once; every operation keeps it.

## Structure

- `win32.dfy`: the desktop and the native calls.
- `discovery.dfy`: the classifier, the process lookup, the enumeration as a
  function of the desktop and the hidden set, and the resolution of selected
  rows to records by pid.
- `visibility.dfy`: `hide_window` and `show_window` as functions (`HideEffect`,
  `ShowEffect`), each built from the stages the source runs in order, and
  lemmas about what they do to a window.
- `batch.dfy`: the loops of the batch operations as left folds (`HideEach`,
  `ShowEach`, `CloseEach`, and the handle list `SimilarHandles` of
  `hide_all_similar`), with lemmas on counts, the hidden set and the cache.
- `manager.dfy`: class `TaskbarManager` with fields `os`, `windows`,
  `hiddenWindows` and `windowPositions`. Its methods make the native calls
  statement by statement and run the loops of the source. Each method is
  proved to end in the state the functions above describe.

## Behaviour of the code worth knowing

- **`hide_window` stops at the first failure.** Its steps run under one `try`
  (src/taskbar_manager.py:204-253). The first raising call makes it return
  False, and the handle is not added to the hidden set (line 247 is never
  reached). The steps before the raise, the rectangle capture and the
  ShowWindow calls included, stay done. So a window whose SetWindowLong,
  SetLayeredWindowAttributes or SetWindowPos is refused is left hidden but
  untracked. The next refresh drops it from the list (lines 98-101 and 153),
  and no row is left through which it could be shown again
  (`Visibility.FailedHideDropsWindow`).
- **`show_window` never checks the handle.** It has no existence check, and
  every step has its own `try` (lines 261-313), so it always returns True
  (line 315).
- **The hidden-set exemption is partial.** The classifier exempts hidden
  handles from the visibility, WS_VISIBLE, tool-window, parent and title tests
  (lines 99-126, as the comment at line 99 says). It still rejects a handle
  that is not a window or has WS_DISABLED set (lines 95-96 and 112-113), and a
  completed hide sets WS_DISABLED (line 244). Such windows are listed only
  because the enumeration tests hidden-set membership itself (line 153).
- **A refused close escapes.** `close_selected` has no `try` around
  PostMessage (line 390). A refused call raises out of the method, skipping
  the count, the rest of the selection and the refresh.
- **Selection is by pid.** A selected row resolves to the first record with
  the row's pid (lines 187-195), so two selected windows of one process
  resolve to one record.

## Model

| member | source | states |
|---|---|---|
| Discovery.IsAltTabWindow | src/taskbar_manager.py:93-128 | A handle outside the hidden set is accepted iff it exists, is visible, has WS_VISIBLE, lacks WS_DISABLED and WS_EX_TOOLWINDOW, has parent 0 and a non-empty title. A handle in the hidden set is accepted iff it exists and lacks WS_DISABLED. A non-window or disabled window is rejected either way. |
| Discovery.GetProcessNameFromHwnd | src/taskbar_manager.py:130-141 | Never fails. It gives ("Unknown", 0) when the pid cannot be read, ("Unknown", pid) when the process cannot be opened, and otherwise the process name and pid. |
| Discovery.EnumerateRecordsListed | src/taskbar_manager.py:152-166 | Every record is built from the current desktop for a visited handle the enumeration test accepts. Its visibility reads "Visible" exactly when the window is visible. |
| Discovery.EnumerateMembership | src/taskbar_manager.py:152-153 | A visited handle gets a record iff the classifier accepts it or it is in the hidden set. |
| Discovery.EnumerateOrder | src/taskbar_manager.py:166-173 | Records appear in the order their handles are visited; with a duplicate-free z-order, no handle gets two records. |
| Discovery.FirstWithPid | src/taskbar_manager.py:192-195 | The search returns the first index at or after its start whose record has the pid. |
| Discovery.ResolveRow | src/taskbar_manager.py:187-195 | A row resolves to the first record with the row's pid. That is the row's own record iff no earlier record shares the pid. |
| Discovery.SamePidSameRecord | src/taskbar_manager.py:187-195 | Two rows with the same pid resolve to the same record. |
| Manager.TaskbarManager.constructor | src/taskbar_manager.py:65-74 | Starts with an empty hidden set and cache, then refreshes: `windows` is the enumeration of the desktop with nothing hidden. |
| Manager.TaskbarManager.RefreshApps | src/taskbar_manager.py:143-173 | `windows` is rebuilt from empty as the enumeration of the whole z-order. The hidden set, the cache and the desktop are untouched. |
| Manager.TaskbarManager.GetSelectedWindows | src/taskbar_manager.py:182-197 | Returns one record per selected row, in selection order: the first record with that row's pid. |
| Visibility.Conceal | src/taskbar_manager.py:216-223 | SW_HIDE, SW_MINIMIZE, SW_HIDE leave the window hidden and minimized with WS_VISIBLE clear. Nothing else changes, and a refused ShowWindow changes nothing. |
| Visibility.MarkToolLayered | src/taskbar_manager.py:225-233 | Succeeds iff SetWindowLong is accepted, and then ORs exactly WS_EX_TOOLWINDOW and WS_EX_LAYERED into the extended style. Either way the extended style only grows, by those two bits at most. A refused first call leaves the desktop unchanged. |
| Visibility.Park | src/taskbar_manager.py:235-244 | Succeeds iff the window is layered and SetLayeredWindowAttributes and SetWindowPos are accepted. Then the window is transparent, at (-32000, -32000) with its size kept, at the bottom of the z-order, and disabled when EnableWindow is accepted. Visibility and the extended style are never touched. |
| Visibility.Disguise | src/taskbar_manager.py:225-244 | The steps after the ShowWindow calls, under one `try`, succeed iff SetWindowLong, SetLayeredWindowAttributes and SetWindowPos are accepted. On success the window gains both extended bits and is parked; otherwise the extended style has gained at most those bits. Visibility is never touched. |
| Visibility.HideEffect | src/taskbar_manager.py:199-253 | A non-window gives False with nothing changed. Otherwise the result is True iff the three raising calls are accepted. The rectangle is cached iff it can be read, whether or not a later step raises. Only that window and the z-order change. The window ends visible iff it was visible and ShowWindow was accepted, whatever raised later. |
| Visibility.HideKeepsWellFormed | src/taskbar_manager.py:239-241 | A hide keeps the z-order listing every window exactly once. |
| Visibility.HideOnlyAddsExStyleBits | src/taskbar_manager.py:225-233 | The extended style only gains bits, and no bit other than WS_EX_TOOLWINDOW and WS_EX_LAYERED changes, whether or not the hide completed. |
| Visibility.HideParksWindow | src/taskbar_manager.py:214-244 | A completed hide leaves the window tool-windowed and layered, transparent, and off-screen with its size kept. It is hidden and minimized if ShowWindow is accepted and disabled if EnableWindow is accepted. No style bit other than WS_VISIBLE and WS_DISABLED changes. |
| Visibility.Reenable | src/taskbar_manager.py:260-272 | Enables the window and clears WS_DISABLED when EnableWindow is accepted. Sets alpha 255 when the window is layered and the call is accepted. Nothing else changes. |
| Visibility.RestoreOpacity | src/taskbar_manager.py:266-272 | Sets alpha 255 exactly when the window is layered and the call is accepted. |
| Visibility.Reposition | src/taskbar_manager.py:274-294 | When SetWindowPos is accepted, the window moves to the top of the z-order and is shown with WS_VISIBLE set, at its cached rectangle, or at (100, 100) with its size kept when none is cached. Otherwise nothing changes. |
| Visibility.Restyle | src/taskbar_manager.py:296-305 | Clears only WS_EX_TOOLWINDOW from the extended style when SetWindowLong is accepted. |
| Visibility.Reveal | src/taskbar_manager.py:307-313 | SW_RESTORE, SW_SHOW, SW_NORMAL leave the window shown, not minimized, with WS_VISIBLE set. |
| Visibility.ShowEffect | src/taskbar_manager.py:255-320 | A non-window is left unchanged, with no check needed. Only that window and its z-order position change. It is moved to the top iff SetWindowPos is accepted. |
| Visibility.ShowKeepsWellFormed | src/taskbar_manager.py:274-294 | A show keeps the z-order listing every window exactly once. |
| Visibility.ShowPlacesWindow | src/taskbar_manager.py:266-305 | After a show, the rectangle is the cached one, or (100, 100) with the size kept. WS_EX_TOOLWINDOW is cleared with no other extended bit touched. Alpha is 255 if the window was layered. Each effect holds when its own call is accepted. |
| Visibility.ShowReenablesWindow | src/taskbar_manager.py:260-313 | After a show, the window is enabled with WS_DISABLED clear, visible with WS_VISIBLE set when SetWindowPos or ShowWindow is accepted, and not minimized when ShowWindow is. No other style bit changes. |
| Visibility.HideThenShowRestoresRect | src/taskbar_manager.py:207-284 | A completed hide whose rectangle could be read, followed by a show, puts the window back on its original rectangle. |
| Visibility.HideThenShowRestoresAltTab | src/taskbar_manager.py:93-320 | A window the classifier accepted, hidden and shown again with every call accepted, is accepted again once it is out of the hidden set. |
| Visibility.FailedHideDropsWindow | src/taskbar_manager.py:95-101 | A hide of an untracked window that raises after its ShowWindow calls were accepted returns False and leaves the window hidden, outside the hidden set and not listed by the enumeration test, so no row can show it again. |
| Visibility.HiddenWindowListedOnlyAsHidden | src/taskbar_manager.py:112-156 | After a completed hide whose EnableWindow was accepted, the classifier rejects the window even though it is hidden. The enumeration still lists it, through its own hidden-set test, as "Hidden". |
| Visibility.RepeatHideCachesOffscreenRect | src/taskbar_manager.py:207-210 | Hiding a hidden window again succeeds but caches the off-screen rectangle, so a later show leaves it off-screen. |
| Manager.TaskbarManager.HideWindow | src/taskbar_manager.py:199-253 | The result, desktop and cache are those of `HideEffect`. The handle joins the hidden set iff the result is True, with set semantics, so a repeat hide keeps it there once. |
| Manager.TaskbarManager.ConcealStep | src/taskbar_manager.py:216-223 | The three ShowWindow calls, statement by statement, equal `Conceal`. |
| Manager.TaskbarManager.MarkStep | src/taskbar_manager.py:225-233 | The two read-then-OR updates, stopping at a raise, equal `MarkToolLayered`. |
| Manager.TaskbarManager.ParkStep | src/taskbar_manager.py:235-244 | Transparency, the move and the disable, stopping at a raise, equal `Park`. |
| Manager.TaskbarManager.ShowWindow | src/taskbar_manager.py:255-320 | Returns True and leaves the desktop as `ShowEffect` says. It changes neither the hidden set nor the cache. |
| Manager.TaskbarManager.ReenableStep | src/taskbar_manager.py:260-272 | The enable and the guarded opacity restore, each failure passed over, equal `Reenable`. |
| Manager.TaskbarManager.RepositionStep | src/taskbar_manager.py:274-294 | The cached-or-fallback SetWindowPos, failure passed over, equals `Reposition`. |
| Manager.TaskbarManager.RestyleStep | src/taskbar_manager.py:296-305 | The read-and-clear of WS_EX_TOOLWINDOW equals `Restyle`. |
| Manager.TaskbarManager.RevealStep | src/taskbar_manager.py:307-313 | The three ShowWindow calls equal `Reveal`. |
| Batch.Succeeding | src/taskbar_manager.py:330-334 | The reference count for the hiding loops: the number of entries whose hide would return True on a given desktop, never more than the number of entries. `Batch.HideEachCount` ties the loop to it. |
| Batch.HideEachFrame | src/taskbar_manager.py:330-334 | The hiding loop keeps the set of windows, what the system refuses and well-formedness. It does not touch any window it does not visit. |
| Batch.HideEachCount | src/taskbar_manager.py:330-334 | The hiding loop's count is the number of visited handles whose hide succeeds on the starting desktop. |
| Batch.HideEachHidden | src/taskbar_manager.py:330-334 | A handle is hidden after the hiding loop iff it was hidden before, or it was visited and its hide succeeds. |
| Batch.HideEachPositions | src/taskbar_manager.py:330-334 | The hiding loop keeps the cache entries of unvisited handles and of handles whose rectangle cannot be read. It leaves an entry for every visited handle whose rectangle could be read. |
| Batch.HideEachCachesStartRect | src/taskbar_manager.py:207-210 | A handle visited once by the hiding loop, with a readable rectangle, ends up cached with the rectangle it had before the loop, which a later show restores. |
| Manager.TaskbarManager.HideHandles | src/taskbar_manager.py:330-334 | The loop of `hide_selected` ends with the count and state of the fold `HideEach` over the handles. |
| Manager.TaskbarManager.HideSelected | src/taskbar_manager.py:322-337 | An empty selection changes nothing. Otherwise the count is the number of resolved selections whose hide succeeds. Exactly those handles join the hidden set, and `windows` is refreshed. |
| Batch.ShowEachFrame | src/taskbar_manager.py:347-353 | The showing loop keeps the set of windows, what the system refuses and well-formedness. It does not touch any window it does not visit. |
| Batch.ShowEachCount | src/taskbar_manager.py:347-353 | The showing loop counts every visited handle and never changes the cache. |
| Batch.ShowEachHidden | src/taskbar_manager.py:347-353 | A handle is hidden after the showing loop iff it was hidden before and was not visited. |
| Manager.TaskbarManager.ShowHandles | src/taskbar_manager.py:347-353 | The loop of `show_selected` ends with the count and state of the fold `ShowEach`. A handle leaves the hidden set only after its show returned True. |
| Manager.TaskbarManager.ShowSelected | src/taskbar_manager.py:339-356 | An empty selection changes nothing. Otherwise the count is the number of selected rows, the selected handles leave the hidden set, the cache is kept, and `windows` is refreshed. |
| Batch.LowerChar | src/taskbar_manager.py:367-371 | Lower-cases an ASCII capital and keeps every other character; the result is never a capital. |
| Batch.Lower | src/taskbar_manager.py:367-371 | Lower-casing keeps the length. |
| Batch.LowerIdempotent | src/taskbar_manager.py:367-371 | Lower-casing a lower-cased name changes nothing. |
| Batch.SimilarHandlesExactly | src/taskbar_manager.py:370-373 | A handle is passed to `hide_window` iff some listed record carries it with a lower-cased process name equal to the target. |
| Manager.TaskbarManager.HideSimilar | src/taskbar_manager.py:369-374 | The loop over `windows` hides exactly the `SimilarHandles` in list order and counts the successes. |
| Manager.TaskbarManager.HideAllSimilar | src/taskbar_manager.py:358-377 | An empty selection changes nothing. Otherwise the count is the number of same-process windows whose hide succeeds, exactly those join the hidden set, and `windows` is refreshed. |
| Batch.CloseEachRaises | src/taskbar_manager.py:387-393 | The close loop raises iff some selected handle refuses PostMessage. |
| Batch.CloseEachCompletes | src/taskbar_manager.py:387-393 | Without a raise, every selected handle is counted and leaves the hidden set, whether or not it was in it. |
| Batch.CloseEachStops | src/taskbar_manager.py:387-393 | After a raise, the loop stopped at the first refusing handle. The handles before it were counted and left the hidden set. |
| Manager.CloseEachStaysRaised | src/taskbar_manager.py:387-393 | Once a post has raised, the remaining handles are not visited. |
| Manager.TaskbarManager.CloseHandles | src/taskbar_manager.py:387-393 | The loop of `close_selected` ends, or escapes, with the tally of the fold `CloseEach`. |
| Manager.TaskbarManager.CloseSelected | src/taskbar_manager.py:379-396 | An empty selection changes nothing. The call escapes iff some post is refused, and then skips the refresh. Otherwise the count is the number of resolved selections, every selected handle leaves the hidden set, and `windows` is refreshed. |
| Win32.DistinctCount | src/taskbar_manager.py:404-414 | A snapshot visited without repeats has as many entries as the hidden set has members. |
| Manager.TaskbarManager.Snapshot | src/taskbar_manager.py:405-408 | The copy of the hidden set is visited once per member, without repeats. |
| Manager.TaskbarManager.ShowAndForget | src/taskbar_manager.py:408-414 | The loop of `reset_all` shows each handle and takes it out of the hidden set whatever the show returned. It ends with the count and state of `ShowEach`. |
| Manager.TaskbarManager.ResetAll | src/taskbar_manager.py:398-417 | With nothing hidden it changes nothing. Otherwise the hidden set ends empty, the count equals its former size, the cache is kept, and `windows` is refreshed. |

## Left out

- Tkinter widgets, button styles, the tree view and the status-bar text, along
  with the messages built from each count: presentation only. A selection is
  modelled as the list-row indices the tree view returns, one row per record.
- `is_admin` and its warning dialog: a foreign call with no effect on the
  state here.
- `time.sleep`, `print` and `traceback` in `hide_window` and `show_window`:
  timing and diagnostics.
- `main`, the Tk main loop, `build.py`, `cleanup.py`, `setup.py` and
  `src/__init__.py`: none of them is part of this model.
- Real Win32 and psutil behaviour. Each native call is an update or query on
  the window table. A refusal is fixed per window and call (`Os.refused`)
  rather than transient. The order of `EnumWindows` is the z-order held in the
  table.
- SWP_NOACTIVATE and window activation, the LWA_ALPHA colour key, and the
  asynchronous effect of WM_CLOSE: the target window is not modelled as
  closing.
- Manager.TaskbarManager.ResetAll: Python iterates the copied set in an order
  of its own. The method picks some order and returns it as `order`; its
  contract holds for whatever order is picked.
- Batch.Lower and Batch.LowerChar: `str.lower` is modelled for ASCII letters only. Other Unicode
  case mappings are not.
- Style words are sets of bit positions rather than 32-bit integers. Only the
  OR, AND-NOT and bit-test operations the core uses are modelled.
