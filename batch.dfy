// The loops of the batch operations, as folds over the handles they visit.
// Each fold is the specification a loop of module Manager is proved against;
// the lemmas say what the whole loop does to the hidden set, the position
// cache, the desktop and the counter.

module Batch {
  import opened Wrappers
  import opened Win32
  import opened Discovery
  import opened Visibility

  /** The state the batch operations change: the desktop, `hidden_windows` and
      `window_positions`. */
  datatype Session = Session(os: Os, hidden: set<Handle>, positions: map<Handle, Rect>)

  /** A loop's counter together with the state it has reached. */
  datatype Tally = Tally(count: nat, session: Session)

  // ---------------------------------------------------------------- hiding

  /** One turn of the hiding loops: `hide_window`, then the count and the hidden set grow
      when it returned True. */
  function HideStep(t: Tally, h: Handle): Tally
  {
    var e := HideEffect(t.session.os, t.session.positions, h);
    Tally(if e.ok then t.count + 1 else t.count,
          Session(e.os, if e.ok then t.session.hidden + {h} else t.session.hidden, e.positions))
  }

  /** The hiding loop of `hide_selected` and `hide_all_similar` over `hs`, in order. */
  function HideEach(s: Session, hs: seq<Handle>): Tally
    decreases |hs|
  {
    if hs == [] then Tally(0, s)
    else HideStep(HideEach(s, hs[..|hs| - 1]), hs[|hs| - 1])
  }

  /** How many entries of `hs` name a window that can be hidden on `os`. */
  function Succeeding(os: Os, hs: seq<Handle>): (n: nat)
    ensures n <= |hs|
    decreases |hs|
  {
    if hs == [] then 0
    else Succeeding(os, hs[..|hs| - 1]) + if HideSucceeds(os, hs[|hs| - 1]) then 1 else 0
  }

  /** The hiding loop changes only the windows it visits, keeps the set of windows and what
      the system refuses on them, and keeps the z-order well formed. */
  lemma {:induction false} HideEachFrame(s: Session, hs: seq<Handle>)
    ensures var r := HideEach(s, hs).session.os;
      && r.windows.Keys == s.os.windows.Keys
      && r.refused == s.os.refused
      && (WellFormed(s.os) ==> WellFormed(r))
      && (forall x :: x in s.os.windows && x !in hs ==> r.windows[x] == s.os.windows[x])
    decreases |hs|
  {
    if hs != [] {
      var t := HideEach(s, hs[..|hs| - 1]);
      HideEachFrame(s, hs[..|hs| - 1]);
      if WellFormed(s.os) {
        HideKeepsWellFormed(t.session.os, t.session.positions, hs[|hs| - 1]);
      }
    }
  }

  /** The hiding loop counts the calls that returned True. Whether a hide succeeds does not
      depend on the hides before it, so the count is read off the starting desktop. */
  lemma {:induction false} HideEachCount(s: Session, hs: seq<Handle>)
    ensures HideEach(s, hs).count == Succeeding(s.os, hs)
    decreases |hs|
  {
    if hs != [] {
      var front := hs[..|hs| - 1];
      HideEachCount(s, front);
      HideEachFrame(s, front);
    }
  }

  /** The hiding loop adds to the hidden set exactly the visited handles whose hide returned
      True, which are those that can be hidden on the starting desktop. */
  lemma {:induction false} HideEachHidden(s: Session, hs: seq<Handle>)
    ensures forall x :: x in HideEach(s, hs).session.hidden <==> x in s.hidden || (x in hs && HideSucceeds(s.os, x))
    decreases |hs|
  {
    if hs != [] {
      var front := hs[..|hs| - 1];
      HideEachHidden(s, front);
      HideEachFrame(s, front);
      assert forall x :: x in hs <==> x in front || x == hs[|hs| - 1];
    }
  }

  /** The hiding loop keeps the cache entries of the handles it does not visit and of those
      whose rectangle cannot be read, and leaves an entry for every visited handle whose
      rectangle could be read. */
  lemma {:induction false} HideEachPositions(s: Session, hs: seq<Handle>)
    ensures var r := HideEach(s, hs).session;
      && (forall x :: x !in hs ==> (x in r.positions <==> x in s.positions))
      && (forall x :: x !in hs && x in s.positions ==> r.positions[x] == s.positions[x])
      && (forall x :: !Accepts(s.os, x, GetWindowRectApi) ==> (x in r.positions <==> x in s.positions))
      && (forall x :: !Accepts(s.os, x, GetWindowRectApi) && x in s.positions ==> r.positions[x] == s.positions[x])
      && (forall x :: x in hs && Accepts(s.os, x, GetWindowRectApi) ==> x in r.positions)
    decreases |hs|
  {
    if hs != [] {
      var front, h := hs[..|hs| - 1], hs[|hs| - 1];
      assert hs == front + [h];
      HideEachPositions(s, front);
      HideEachFrame(s, front);
    }
  }

  /** A handle visited once by the hiding loop, with a readable rectangle, ends up with the
      rectangle it had on the starting desktop in the cache: the one a later show restores. */
  lemma {:induction false} HideEachCachesStartRect(s: Session, hs: seq<Handle>, x: Handle)
    requires Accepts(s.os, x, GetWindowRectApi)
    requires multiset(hs)[x] == 1
    ensures var r := HideEach(s, hs).session;
      x in r.positions && r.positions[x] == s.os.windows[x].rect
    decreases |hs|
  {
    var front, h := hs[..|hs| - 1], hs[|hs| - 1];
    assert hs == front + [h];
    assert multiset(hs) == multiset(front) + multiset{h};
    HideEachFrame(s, front);
    if h == x {
      assert x !in multiset(front);
    } else {
      HideEachCachesStartRect(s, front, x);
    }
  }

  // ---------------------------------------------------------------- showing

  /** One turn of `show_selected`'s loop, and of `reset_all`'s: `show_window` always returns
      True, so the count grows and the handle leaves the hidden set. */
  function ShowStep(t: Tally, h: Handle): Tally
  {
    Tally(t.count + 1,
          Session(ShowEffect(t.session.os, t.session.positions, h), t.session.hidden - {h}, t.session.positions))
  }

  /** The showing loop over `hs`, in order. */
  function ShowEach(s: Session, hs: seq<Handle>): Tally
    decreases |hs|
  {
    if hs == [] then Tally(0, s)
    else ShowStep(ShowEach(s, hs[..|hs| - 1]), hs[|hs| - 1])
  }

  /** The showing loop changes only the windows it visits, keeps the set of windows and
      what the system refuses on them, and keeps the z-order well formed. */
  lemma {:induction false} ShowEachFrame(s: Session, hs: seq<Handle>)
    ensures var r := ShowEach(s, hs).session.os;
      && r.windows.Keys == s.os.windows.Keys
      && r.refused == s.os.refused
      && (WellFormed(s.os) ==> WellFormed(r))
      && (forall x :: x in s.os.windows && x !in hs ==> r.windows[x] == s.os.windows[x])
    decreases |hs|
  {
    if hs != [] {
      var t := ShowEach(s, hs[..|hs| - 1]);
      ShowEachFrame(s, hs[..|hs| - 1]);
      if WellFormed(s.os) {
        ShowKeepsWellFormed(t.session.os, t.session.positions, hs[|hs| - 1]);
      }
    }
  }

  /** The showing loop counts every handle it visits and never touches the position cache. */
  lemma {:induction false} ShowEachCount(s: Session, hs: seq<Handle>)
    ensures ShowEach(s, hs).count == |hs|
    ensures ShowEach(s, hs).session.positions == s.positions
    decreases |hs|
  {
    if hs != [] {
      ShowEachCount(s, hs[..|hs| - 1]);
    }
  }

  /** The showing loop takes every visited handle out of the hidden set, and no other. */
  lemma {:induction false} ShowEachHidden(s: Session, hs: seq<Handle>)
    ensures forall x :: x in ShowEach(s, hs).session.hidden <==> x in s.hidden && x !in hs
    decreases |hs|
  {
    if hs != [] {
      var front := hs[..|hs| - 1];
      ShowEachHidden(s, front);
      assert forall x :: x in hs <==> x in front || x == hs[|hs| - 1];
    }
  }

  // ---------------------------------------------------------------- closing

  /** `close_selected`'s counter and hidden set; `raised` when a PostMessage raised, which
      ends the loop and leaves the method by the exception. */
  datatype CloseTally = CloseTally(count: nat, hidden: set<Handle>, raised: bool)

  /** One turn of `close_selected`'s loop: post WM_CLOSE, then drop the handle from the
      hidden set and count it. Posting never changes the desktop. */
  function CloseStep(t: CloseTally, os: Os, h: Handle): CloseTally
  {
    if t.raised then t
    else match PostMessage(os, h)
      case Raised => t.(raised := true)
      case Returned(_) => CloseTally(t.count + 1, t.hidden - {h}, false)
  }

  /** `close_selected`'s loop over `hs`, in order, up to the first raise. */
  function CloseEach(hidden: set<Handle>, os: Os, hs: seq<Handle>): CloseTally
    decreases |hs|
  {
    if hs == [] then CloseTally(0, hidden, false)
    else CloseStep(CloseEach(hidden, os, hs[..|hs| - 1]), os, hs[|hs| - 1])
  }

  /** The loop raises exactly when some post is refused. */
  lemma {:induction false} CloseEachRaises(hidden: set<Handle>, os: Os, hs: seq<Handle>)
    ensures !CloseEach(hidden, os, hs).raised <==> forall i :: 0 <= i < |hs| ==> Accepts(os, hs[i], PostMessageApi)
    decreases |hs|
  {
    if hs != [] {
      var front := hs[..|hs| - 1];
      CloseEachRaises(hidden, os, front);
      assert forall i :: 0 <= i < |front| ==> front[i] == hs[i];
    }
  }

  /** Without a raise, every visited handle is counted and leaves the hidden set, whether or
      not it was in it. */
  lemma {:induction false} CloseEachCompletes(hidden: set<Handle>, os: Os, hs: seq<Handle>)
    ensures var r := CloseEach(hidden, os, hs);
      !r.raised ==> r.count == |hs| && r.hidden == hidden - set x | x in hs
    decreases |hs|
  {
    if hs != [] {
      var front, h := hs[..|hs| - 1], hs[|hs| - 1];
      assert hs == front + [h];
      CloseEachCompletes(hidden, os, front);
      assert (set x | x in hs) == (set x | x in front) + {h};
    }
  }

  /** After a raise, the loop stopped at the first refused handle, with the handles before it
      counted and taken out of the hidden set. */
  lemma {:induction false} CloseEachStops(hidden: set<Handle>, os: Os, hs: seq<Handle>)
    ensures var r := CloseEach(hidden, os, hs);
      r.raised ==>
        && r.count < |hs|
        && !Accepts(os, hs[r.count], PostMessageApi)
        && (forall i :: 0 <= i < r.count ==> Accepts(os, hs[i], PostMessageApi))
        && r.hidden == hidden - set x | x in hs[..r.count]
    decreases |hs|
  {
    if hs != [] {
      var front := hs[..|hs| - 1];
      var t := CloseEach(hidden, os, front);
      if t.raised {
        CloseEachStops(hidden, os, front);
        assert hs[..t.count] == front[..t.count];
      } else {
        CloseEachRaises(hidden, os, front);
        CloseEachCompletes(hidden, os, front);
        assert hs[..|front|] == front;
      }
    }
  }

  // ---------------------------------------------------------------- hide_all_similar

  /** Python's `str.lower` on one character, for the ASCII letters. */
  function LowerChar(c: char): (d: char)
    ensures 'A' <= c <= 'Z' ==> d as int == c as int + 32
    ensures !('A' <= c <= 'Z') ==> d == c
    ensures !('A' <= d <= 'Z')
  {
    if 'A' <= c <= 'Z' then (c as int + 32) as char else c
  }

  function Lower(s: string): (r: string)
    ensures |r| == |s|
  {
    seq(|s|, i requires 0 <= i < |s| => LowerChar(s[i]))
  }

  /** Lower-casing twice is lower-casing once, so a name compared with an already lower-cased
      target matches iff the lower-cased names match. */
  lemma LowerIdempotent(s: string)
    ensures Lower(Lower(s)) == Lower(s)
  {
    forall i | 0 <= i < |s|
      ensures Lower(Lower(s))[i] == Lower(s)[i]
    {
      assert Lower(s)[i] == LowerChar(s[i]);
    }
  }

  /** The handles of the records whose lower-cased process name is `target`, in record order:
      the windows `hide_all_similar` passes to `hide_window`. */
  function SimilarHandles(ws: seq<WindowRecord>, target: string): seq<Handle>
    decreases |ws|
  {
    if ws == [] then []
    else
      var rec := ws[|ws| - 1];
      SimilarHandles(ws[..|ws| - 1], target) + if Lower(rec.process) == target then [rec.hwnd] else []
  }

  /** A handle is visited iff one of the records carries it with a matching process name. */
  lemma {:induction false} SimilarHandlesExactly(ws: seq<WindowRecord>, target: string, h: Handle)
    ensures h in SimilarHandles(ws, target) <==>
      exists i :: 0 <= i < |ws| && ws[i].hwnd == h && Lower(ws[i].process) == target
    decreases |ws|
  {
    if ws != [] {
      var front, rec := ws[..|ws| - 1], ws[|ws| - 1];
      SimilarHandlesExactly(front, target, h);
      var matched := Lower(rec.process) == target;
      assert SimilarHandles(ws, target) == SimilarHandles(front, target) + if matched then [rec.hwnd] else [];
      if exists i :: 0 <= i < |ws| && ws[i].hwnd == h && Lower(ws[i].process) == target {
        var i :| 0 <= i < |ws| && ws[i].hwnd == h && Lower(ws[i].process) == target;
        if i < |front| {
          assert front[i] == ws[i];
        }
      }
      if h in SimilarHandles(front, target) {
        var i :| 0 <= i < |front| && front[i].hwnd == h && Lower(front[i].process) == target;
        assert ws[i] == front[i];
      }
    }
  }
}
