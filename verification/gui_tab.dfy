/** The split-pane layout of a tab (gui-tab.c).

    A tab holds a chain of paneds from first_paned down to last_paned. The
    first child of each paned is the next paned; the second child is an
    optional pane. The chain is modelled as `Tab.slots`, one slot per paned,
    the last slot being the empty terminal paned. Reparenting a pane widget
    into another paned is a move between slots. */
module GuiTab {
  import opened Common
  import opened GuiObjects

  // ---------------------------------------------------------------------
  // The chain as a sequence of slots
  // ---------------------------------------------------------------------

  /** The panes held by the chain, in chain order (first_paned first). */
  function Filled<T>(s: seq<Option<T>>): seq<T> {
    if s == [] then []
    else Filled(s[..|s| - 1]) + (if s[|s| - 1].Some? then [s[|s| - 1].value] else [])
  }

  /** Every element in a slot of its own. */
  function Lift<T>(xs: seq<T>): seq<Option<T>> {
    seq(|xs|, i requires 0 <= i < |xs| => Some(xs[i]))
  }

  ghost predicate AllSome<T>(s: seq<Option<T>>) {
    forall i :: 0 <= i < |s| ==> s[i].Some?
  }

  ghost predicate AllNone<T>(s: seq<Option<T>>) {
    forall i :: 0 <= i < |s| ==> s[i].None?
  }

  /** A chain without gaps: every paned before the terminal one holds a pane,
      and the terminal one holds none. */
  ghost predicate Gapless<T>(s: seq<Option<T>>) {
    |s| >= 1 && s[|s| - 1].None? && AllSome(s[..|s| - 1])
  }

  /** What packing leaves: the held panes, in order, in the first slots,
      followed by one empty terminal slot. */
  function Compacted<T>(s: seq<Option<T>>): seq<Option<T>> {
    Lift(Filled(s)) + [None]
  }

  /** A slot sequence with the slot holding `x` emptied. */
  function Vacate<T(==)>(s: seq<Option<T>>, x: T): seq<Option<T>> {
    seq(|s|, i requires 0 <= i < |s| => if s[i] == Some(x) then None else s[i])
  }

  lemma {:induction false} FilledAppend<T>(a: seq<Option<T>>, b: seq<Option<T>>)
    ensures Filled(a + b) == Filled(a) + Filled(b)
    decreases |b|
  {
    if b == [] {
      assert a + b == a;
    } else {
      var init := b[..|b| - 1];
      FilledAppend(a, init);
      assert (a + b)[..|a + b| - 1] == a + init;
    }
  }

  lemma {:induction false} FilledLift<T>(xs: seq<T>)
    ensures Filled(Lift(xs)) == xs
  {
    if xs != [] {
      FilledLift(xs[..|xs| - 1]);
      assert Lift(xs)[..|xs| - 1] == Lift(xs[..|xs| - 1]);
    }
  }

  lemma {:induction false} LiftFilledAllSome<T>(s: seq<Option<T>>)
    requires AllSome(s)
    ensures Lift(Filled(s)) == s
  {
    if s != [] {
      var init := s[..|s| - 1];
      LiftFilledAllSome(init);
      assert Filled(s) == Filled(init) + [s[|s| - 1].value];
      assert Lift(Filled(init) + [s[|s| - 1].value]) == Lift(Filled(init)) + [s[|s| - 1]];
      assert s == init + [s[|s| - 1]];
    }
  }

  lemma {:induction false} FilledAllNone<T>(s: seq<Option<T>>)
    requires AllNone(s)
    ensures Filled(s) == []
  {
    if s != [] {
      FilledAllNone(s[..|s| - 1]);
    }
  }

  /** Packing closes every gap and keeps the held panes, their number and
      their order from first_paned on. */
  lemma {:induction false} CompactedSpec<T>(s: seq<Option<T>>)
    ensures Gapless(Compacted(s))
    ensures Filled(Compacted(s)) == Filled(s)
  {
    FilledAppend(Lift(Filled(s)), [None]);
    FilledLift(Filled(s));
    assert Compacted(s)[..|Compacted(s)| - 1] == Lift(Filled(s));
  }

  /** A chain that already has no gap is left as it is. */
  lemma {:induction false} GaplessFixed<T>(s: seq<Option<T>>)
    requires Gapless(s)
    ensures Compacted(s) == s
  {
    var init := s[..|s| - 1];
    assert s == init + [None];
    FilledAppend(init, [None]);
    assert Filled<T>([None]) == [];
    LiftFilledAllSome(init);
  }

  /** Packing twice is packing once. */
  lemma CompactedIdempotent<T>(s: seq<Option<T>>)
    ensures Compacted(Compacted(s)) == Compacted(s)
  {
    CompactedSpec(s);
    GaplessFixed(Compacted(s));
  }

  /** Moving the pane of slot p back into the empty slot e, across empty
      slots only, keeps the held panes and their order. */
  lemma MoveKeepsFilled<T>(s: seq<Option<T>>, e: nat, p: nat)
    requires e < p < |s| && s[p].Some?
    requires forall i :: e <= i < p ==> s[i].None?
    ensures Filled(s[e := s[p]][p := None]) == Filled(s)
  {
    var t := s[e := s[p]][p := None];
    var a, gap, rest := s[..e], s[e..p], s[p + 1..];
    var gap' := t[e + 1..p + 1];
    assert s == a + gap + [s[p]] + rest;
    assert t == a + [s[p]] + gap' + rest;
    FilledAllNone(gap);
    FilledAllNone(gap');
    FilledAppend(a + gap + [s[p]], rest);
    FilledAppend(a + gap, [s[p]]);
    FilledAppend(a, gap);
    FilledAppend(a + [s[p]] + gap', rest);
    FilledAppend(a + [s[p]], gap');
    FilledAppend(a, [s[p]]);
  }

  /** Emptying the slot of `x` drops `x` from the held panes. */
  lemma {:induction false} FilledVacate<T>(s: seq<Option<T>>, x: T)
    ensures Filled(Vacate(s, x)) == Without(Filled(s), x)
  {
    if s != [] {
      var init, last := s[..|s| - 1], s[|s| - 1];
      var v := Vacate(s, x);
      FilledVacate(init, x);
      assert v[..|s| - 1] == Vacate(init, x);
      var tail := if last.Some? then [last.value] else [];
      assert Filled(s) == Filled(init) + tail;
      WithoutAppend(Filled(init), tail, x);
      if last.Some? {
        WithoutSingleton(last.value, x);
      }
      assert Filled(v) == Filled(Vacate(init, x)) + (if v[|s| - 1].Some? then [v[|s| - 1].value] else []);
    }
  }

  // ---------------------------------------------------------------------
  // The tab invariant
  // ---------------------------------------------------------------------

  /** The chain ends in the empty terminal paned, no pane is listed twice,
      and the chain read from first_paned down holds exactly the tab's
      panes, oldest first (the pane list is newest first). */
  ghost predicate Valid(tab: Tab)
    reads tab
  {
    && |tab.slots| >= 1
    && tab.slots[|tab.slots| - 1].None?
    && Distinct(tab.panes)
    && Filled(tab.slots) == Reversed(tab.panes)
  }

  /** The newest pane, the head of the pane list, is the one in the last
      paned before last_paned in a packed chain: on screen, the uppermost
      pane. */
  lemma NewestPaneIsUppermost(tab: Tab)
    requires Valid(tab) && Gapless(tab.slots) && tab.panes != []
    ensures |tab.slots| >= 2 && tab.slots[|tab.slots| - 2] == Some(tab.panes[0])
  {
    var s := tab.slots;
    GaplessFixed(s);
    ReversedIndex(tab.panes, |tab.panes| - 1);
  }

  /** The chain part of gui_tab_new: one empty paned, which is both
      first_paned and last_paned, and no panes. */
  method TabNew() returns (tab: Tab)
    ensures fresh(tab) && Valid(tab)
    ensures tab.slots == [None] && tab.panes == [] && tab.activeWin == null
    ensures tab.dataLevel == 0 && !tab.destroying
  {
    tab := new Tab();
    assert Filled(tab.slots) == [] by {
      assert tab.slots[..0] == [];
    }
  }

  // ---------------------------------------------------------------------
  // Growing the chain
  // ---------------------------------------------------------------------

  /** gui_tab_add_paned: hangs a fresh empty paned under last_paned, makes
      it the new last_paned and returns the old one (by its index). */
  method AddPaned(tab: Tab) returns (k: nat)
    requires Valid(tab)
    modifies tab`slots
    ensures k == |old(tab.slots)| - 1
    ensures tab.slots == old(tab.slots) + [None]
    ensures Valid(tab)
  {
    k := |tab.slots| - 1;
    FilledAppend(tab.slots, [None]);
    assert Filled<TabPane>([None]) == [];
    tab.slots := tab.slots + [None];
  }

  /** gui_tab_pane_new: a new pane goes into the old last_paned, a fresh
      empty paned becomes last_paned, and the pane heads the pane list. */
  method PaneNew(tab: Tab) returns (pane: TabPane)
    requires Valid(tab)
    modifies tab`slots, tab`panes
    ensures fresh(pane) && pane.tab == tab && pane.view == null && !pane.focused
    ensures |tab.slots| == |old(tab.slots)| + 1
    ensures tab.slots == old(tab.slots)[..|old(tab.slots)| - 1] + [Some(pane), None]
    ensures tab.panes == [pane] + old(tab.panes)
    ensures Valid(tab)
  {
    pane := new TabPane(tab);
    ghost var before := tab.slots;
    var k := AddPaned(tab);
    tab.slots := tab.slots[k := Some(pane)];
    assert pane !in tab.panes;
    PrependDistinct(pane, tab.panes);
    ReversedCons(pane, tab.panes);
    tab.panes := [pane] + tab.panes;

    var init := before[..k];
    assert before == init + [None];
    assert tab.slots == init + [Some(pane)] + [None];
    assert Filled<TabPane>([None]) == [];
    assert Filled([Some(pane)]) == [pane] by {
      assert [Some(pane)][..0] == [];
    }
    FilledAppend(init, [None]);
    FilledAppend(init + [Some(pane)], [None]);
    FilledAppend(init, [Some(pane)]);
  }

  // ---------------------------------------------------------------------
  // Packing
  // ---------------------------------------------------------------------

  /** gui_tab_pack_panes: moves every pane back into the first empty paned
      towards first_paned, keeping their order, then cuts the chain after
      the first empty paned, which becomes last_paned. Nothing happens
      while the tab is being destroyed, when it has no panes, or when the
      chain has no gap. */
  method PackPanes(tab: Tab)
    requires Valid(tab)
    modifies tab`slots
    ensures Valid(tab)
    ensures tab.slots == if tab.destroying || tab.panes == [] then old(tab.slots)
                         else Compacted(old(tab.slots))
  {
    if tab.destroying || tab.panes == [] {
      return;
    }
    var last := |tab.slots| - 1;

    // find the first paned with an empty child
    var e := 0;
    while e < last && tab.slots[e].Some?
      invariant 0 <= e <= last
      invariant forall i :: 0 <= i < e ==> tab.slots[i].Some?
    {
      e := e + 1;
    }
    if e == last {
      assert tab.slots[..last] == tab.slots[..e];
      GaplessFixed(tab.slots);
      return;
    }

    // find the next paned with a child
    var p := e;
    while p < last && tab.slots[p].None?
      invariant e <= p <= last
      invariant forall i :: e <= i < p ==> tab.slots[i].None?
    {
      p := p + 1;
    }

    // move the children back into the first empty paneds
    while p < last
      invariant 0 <= e < p <= last == |tab.slots| - 1
      invariant tab.slots[last].None?
      invariant forall i :: 0 <= i < e ==> tab.slots[i].Some?
      invariant forall i :: e <= i < p ==> tab.slots[i].None?
      invariant Filled(tab.slots) == Filled(old(tab.slots))
    {
      if tab.slots[p].Some? {
        MoveKeepsFilled(tab.slots, e, p);
        tab.slots := tab.slots[e := tab.slots[p]][p := None];
        e := e + 1;
      }
      p := p + 1;
    }

    // drop the paneds after the first empty one, which becomes last_paned
    CutIsCompacted(tab.slots, e);
    tab.slots := tab.slots[..e + 1];
    CompactedSpec(old(tab.slots));
  }

  /** A chain whose first e slots are full and whose others are empty,
      cut after slot e, is its packed form. */
  lemma CutIsCompacted<T>(s: seq<Option<T>>, e: nat)
    requires e < |s|
    requires forall i :: 0 <= i < e ==> s[i].Some?
    requires forall i :: e <= i < |s| ==> s[i].None?
    ensures s[..e + 1] == Compacted(s)
  {
    assert s == s[..e] + s[e..];
    FilledAllNone(s[e..]);
    FilledAppend(s[..e], s[e..]);
    LiftFilledAllSome(s[..e]);
    assert s[..e + 1] == s[..e] + [None];
  }

  // ---------------------------------------------------------------------
  // Finding a pane and reacting to a drag of a divider
  // ---------------------------------------------------------------------

  /** The paned at index k holds `pane` as its second child. */
  ghost predicate HeldAt(tab: Tab, pane: TabPane, k: int)
    reads tab
  {
    0 <= k < |tab.slots| && tab.slots[k] == Some(pane)
  }

  /** tab_find_pane: the pane of the list whose widget's parent is the
      paned at index k, or null when no listed pane sits there. */
  method FindPane(tab: Tab, k: int) returns (pane: TabPane?)
    ensures pane != null ==> pane in tab.panes && HeldAt(tab, pane, k)
    ensures pane == null ==> forall p :: p in tab.panes ==> !HeldAt(tab, p, k)
  {
    var i := 0;
    while i < |tab.panes|
      invariant 0 <= i <= |tab.panes|
      invariant forall j :: 0 <= j < i ==> !HeldAt(tab, tab.panes[j], k)
    {
      var candidate := tab.panes[i];
      if 0 <= k < |tab.slots| && tab.slots[k] == Some(candidate) {
        return candidate;
      }
      i := i + 1;
    }
    return null;
  }

  /** What releasing a dragged divider asks for. */
  datatype DragOutcome =
    | NoChange
    | SnapToZero                   // the paned's position is set back to 0
    | RequestSplit(from: Window?)  // "window new split" for the active window's server
    | DestroyTopPane(top: TabPane) // the uppermost pane is to be destroyed

  /** The pane held by the paned at index k, when it is a listed pane. */
  ghost function Occupant(tab: Tab, k: int): TabPane?
    reads tab
  {
    if 0 <= k < |tab.slots| && tab.slots[k].Some? && tab.slots[k].value in tab.panes
    then tab.slots[k].value else null
  }

  /** event_pane_moved: the divider of the paned at index k was released at
      `pos`. Dragging the divider above the uppermost pane (the head of the
      pane list) past 20 pixels asks for a new split, a short drag snaps it
      back; squeezing the second pane to 20 pixels or less closes the
      uppermost one. */
  method PaneMoved(tab: Tab, k: int, pos: int) returns (outcome: DragOutcome)
    requires tab.panes != []
    ensures Occupant(tab, k) == tab.panes[0] ==>
              (pos <= 1 ==> outcome == NoChange)
              && (1 < pos <= 20 ==> outcome == SnapToZero)
              && (pos > 20 ==> outcome == RequestSplit(tab.activeWin))
    ensures Occupant(tab, k) != tab.panes[0] ==>
              outcome == if pos <= 20 && |tab.panes| > 1 && Occupant(tab, k) == tab.panes[1]
                         then DestroyTopPane(tab.panes[0]) else NoChange
  {
    var pane := FindPane(tab, k);
    if pane == tab.panes[0] {
      if pos <= 1 {
        return NoChange;
      }
      if pos <= 20 {
        return SnapToZero;
      }
      return RequestSplit(tab.activeWin);
    } else if pos <= 20 && |tab.panes| > 1 && pane == tab.panes[1] {
      return DestroyTopPane(tab.panes[0]);
    }
    return NoChange;
  }

  // ---------------------------------------------------------------------
  // The active window and pane focus
  // ---------------------------------------------------------------------

  /** The windows the panes show (null for a pane without a view). */
  ghost function Views(panes: seq<TabPane>): set<Window?>
    reads (set p | p in panes)`view
  {
    set p | p in panes :: p.view
  }

  /** Some pane of the list shows `w`. */
  ghost predicate Shows(panes: seq<TabPane>, w: Window?)
    reads (set p | p in panes)`view
  {
    w != null && exists i :: 0 <= i < |panes| && panes[i].view == w
  }

  /** The window of the first pane in list order that has a view. */
  ghost function FirstShown(panes: seq<TabPane>): Window?
    reads (set p | p in panes)`view
  {
    if panes == [] then null
    else
      var earlier := FirstShown(panes[..|panes| - 1]);
      if earlier != null then earlier else panes[|panes| - 1].view
  }

  /** The window gui_tab_update_active_window settles on. */
  ghost function ActiveChoice(panes: seq<TabPane>, active: Window?): Window?
    reads (set p | p in panes)`view
  {
    if Shows(panes, active) then active else FirstShown(panes)
  }

  lemma {:induction false} FirstShownSpec(panes: seq<TabPane>)
    ensures FirstShown(panes) == null <==> forall i :: 0 <= i < |panes| ==> panes[i].view == null
    ensures FirstShown(panes) != null ==>
              exists i :: 0 <= i < |panes| && panes[i].view == FirstShown(panes)
                          && forall j :: 0 <= j < i ==> panes[j].view == null
  {
    if panes != [] {
      var init := panes[..|panes| - 1];
      FirstShownSpec(init);
      assert forall i :: 0 <= i < |init| ==> init[i] == panes[i];
      if FirstShown(init) != null {
        var i :| 0 <= i < |init| && init[i].view == FirstShown(init)
                 && forall j :: 0 <= j < i ==> init[j].view == null;
        assert panes[i].view == FirstShown(panes);
      } else if panes[|panes| - 1].view != null {
        assert panes[|panes| - 1].view == FirstShown(panes);
      }
    }
  }

  /** The choice keeps the active window while some pane still shows it;
      otherwise it is the window of the first pane in list order that has a
      view, and null when no pane has one. */
  lemma ActiveChoiceSpec(panes: seq<TabPane>, active: Window?)
    ensures Shows(panes, active) ==> ActiveChoice(panes, active) == active
    ensures !Shows(panes, active) && ActiveChoice(panes, active) != null ==>
              exists i :: 0 <= i < |panes| && panes[i].view == ActiveChoice(panes, active)
                          && forall j :: 0 <= j < i ==> panes[j].view == null
    ensures ActiveChoice(panes, active) == null <==>
              forall i :: 0 <= i < |panes| ==> panes[i].view == null
    ensures ActiveChoice(panes, active) != null ==> ActiveChoice(panes, active) in Views(panes)
  {
    FirstShownSpec(panes);
  }

  /** The first loop of gui_tab_update_active_window. */
  method ChooseActiveWindow(tab: Tab) returns (window: Window?)
    ensures window == ActiveChoice(tab.panes, tab.activeWin)
  {
    window := null;
    var i := 0;
    while i < |tab.panes|
      invariant 0 <= i <= |tab.panes|
      invariant window == FirstShown(tab.panes[..i])
      invariant tab.activeWin == null || forall j :: 0 <= j < i ==> tab.panes[j].view != tab.activeWin
    {
      var pane := tab.panes[i];
      assert tab.panes[..i + 1][..i] == tab.panes[..i];
      if pane.view != null {
        if pane.view == tab.activeWin {
          assert Shows(tab.panes, tab.activeWin);
          return pane.view;
        }
        if window == null {
          window := pane.view;
        }
      }
      i := i + 1;
    }
    assert tab.panes[..i] == tab.panes;
  }

  /** The panes whose focus flag can change when the active window moves
      from `a` to `b`: the panes of their active views. */
  ghost function FocusPanes(a: Window?, b: Window?): set<TabPane?>
    reads a, b
  {
    (if a != null then {a.activePane} else {}) + (if b != null then {b.activePane} else {})
  }

  /** Every window shown by one of the panes has an active view: a window
      with a view on screen always has one of them marked active. */
  ghost predicate ShownHaveActivePane(panes: seq<TabPane>)
    reads (set p | p in panes)`view, Views(panes)`activePane
  {
    forall p :: p in panes && p.view != null ==> p.view.activePane != null
  }

  /** gui_tab_set_active_window: switching to another window unfocuses the
      pane of the old window's active view and focuses the pane of the new
      one; switching to the current window changes no focus flag. */
  method SetActiveWindow(tab: Tab, window: Window?)
    requires window != null ==> window.activePane != null
    modifies tab`activeWin, FocusPanes(tab.activeWin, window)`focused
    ensures tab.activeWin == window
    ensures old(tab.activeWin) != window && window != null ==> window.activePane.focused
    ensures old(tab.activeWin) != window && old(tab.activeWin) != null
            && old(tab.activeWin.activePane) != null
            && (window == null || old(tab.activeWin.activePane) != window.activePane)
            ==> !old(tab.activeWin.activePane).focused
    ensures old(tab.activeWin) == window ==>
              forall p :: p in FocusPanes(window, window) && p != null ==> p.focused == old(p.focused)
  {
    if tab.activeWin != window {
      if tab.activeWin != null {
        var gui := tab.activeWin;
        if gui.activePane != null {
          gui.activePane.focused := false;
        }
      }
      if window != null {
        window.activePane.focused := true;
      }
      tab.activeWin := window;
    }
  }

  /** gui_tab_update_active_window: picks the window by ActiveChoice and
      makes it the tab's active window. */
  method UpdateActiveWindow(tab: Tab)
    requires ShownHaveActivePane(tab.panes)
    modifies tab`activeWin, FocusPanes(tab.activeWin, ActiveChoice(tab.panes, tab.activeWin))`focused
    ensures tab.activeWin == ActiveChoice(tab.panes, old(tab.activeWin))
    ensures tab.activeWin != old(tab.activeWin) && tab.activeWin != null ==>
              tab.activeWin.activePane != null && tab.activeWin.activePane.focused
    ensures tab.activeWin != old(tab.activeWin) && old(tab.activeWin) != null
            && old(tab.activeWin).activePane != null
            && (tab.activeWin == null || old(tab.activeWin).activePane != tab.activeWin.activePane)
            ==> !old(tab.activeWin).activePane.focused
    ensures tab.activeWin == old(tab.activeWin) && tab.activeWin != null && tab.activeWin.activePane != null
            ==> tab.activeWin.activePane.focused == old(tab.activeWin.activePane.focused)
  {
    var window := ChooseActiveWindow(tab);
    ActiveChoiceSpec(tab.panes, tab.activeWin);
    SetActiveWindow(tab, window);
  }

  // ---------------------------------------------------------------------
  // Destroying a pane
  // ---------------------------------------------------------------------

  /** The panes whose focus may change when a pane of the tab is destroyed. */
  ghost function FocusCandidates(tab: Tab): set<TabPane?>
    reads tab, (set p | p in tab.panes)`view, Views(tab.panes)`activePane, {tab.activeWin}`activePane
  {
    (set w | w in Views(tab.panes) && w != null :: w.activePane)
    + (if tab.activeWin != null then {tab.activeWin.activePane} else {})
  }

  /** The first half of event_destroy_pane. The pane's widget has already
      left its paned when the handler runs, so its slot is empty; the pane
      leaves the pane list. */
  method DetachPane(tab: Tab, pane: TabPane)
    requires Valid(tab) && pane in tab.panes
    modifies tab`slots, tab`panes
    ensures Valid(tab)
    ensures tab.slots == Vacate(old(tab.slots), pane)
    ensures tab.panes == Remove(old(tab.panes), pane) && pane !in tab.panes
  {
    FilledVacate(tab.slots, pane);
    RemoveIsWithout(tab.panes, pane);
    RemoveDistinct(tab.panes, pane);
    ReversedWithout(tab.panes, pane);
    tab.slots := Vacate(tab.slots, pane);
    tab.panes := Remove(tab.panes, pane);
  }

  /** event_destroy_pane: after the pane is detached, a tab without panes is
      destroyed; otherwise the chain is packed and the active window
      recomputed. */
  method DestroyPane(tab: Tab, pane: TabPane) returns (tabDestroyed: bool)
    requires Valid(tab) && pane in tab.panes
    requires ShownHaveActivePane(tab.panes)
    modifies tab`slots, tab`panes, tab`activeWin, FocusCandidates(tab)`focused
    ensures Valid(tab)
    ensures tab.panes == Remove(old(tab.panes), pane) && pane !in tab.panes
    ensures tabDestroyed <==> tab.panes == []
    ensures tabDestroyed || tab.destroying ==> tab.slots == Vacate(old(tab.slots), pane)
    ensures !tabDestroyed && !tab.destroying ==> tab.slots == Compacted(Vacate(old(tab.slots), pane))
    ensures tabDestroyed ==> tab.activeWin == old(tab.activeWin)
    ensures !tabDestroyed ==> tab.activeWin == ActiveChoice(tab.panes, old(tab.activeWin))
    ensures tab.activeWin != old(tab.activeWin) && tab.activeWin != null ==>
              tab.activeWin.activePane != null && tab.activeWin.activePane.focused
    ensures tab.activeWin != old(tab.activeWin) && old(tab.activeWin) != null
            && old(tab.activeWin).activePane != null
            && (tab.activeWin == null || old(tab.activeWin).activePane != tab.activeWin.activePane)
            ==> !old(tab.activeWin).activePane.focused
    ensures tab.activeWin == old(tab.activeWin) && tab.activeWin != null && tab.activeWin.activePane != null
            ==> tab.activeWin.activePane.focused == old(tab.activeWin.activePane.focused)
    ensures forall p :: p in old(FocusCandidates(tab)) && p != null
                        && p !in FocusPanes(old(tab.activeWin), tab.activeWin)
                        ==> p.focused == old(p.focused)
  {
    ghost var oldPanes := tab.panes;
    ghost var candidates := FocusCandidates(tab);
    DetachPane(tab, pane);
    if tab.panes == [] {
      return true;
    }
    assert Views(tab.panes) <= Views(oldPanes);
    ActiveChoiceSpec(tab.panes, tab.activeWin);
    assert FocusPanes(tab.activeWin, ActiveChoice(tab.panes, tab.activeWin)) <= candidates;
    Repack(tab);
    return false;
  }

  /** The second half of event_destroy_pane for a tab that still has
      panes: the chain is packed and the active window chosen again. */
  method Repack(tab: Tab)
    requires Valid(tab) && tab.panes != [] && ShownHaveActivePane(tab.panes)
    modifies tab`slots, tab`activeWin
    modifies FocusPanes(tab.activeWin, ActiveChoice(tab.panes, tab.activeWin))`focused
    ensures Valid(tab)
    ensures tab.slots == if tab.destroying then old(tab.slots) else Compacted(old(tab.slots))
    ensures tab.activeWin == ActiveChoice(tab.panes, old(tab.activeWin))
    ensures tab.activeWin != old(tab.activeWin) && tab.activeWin != null ==>
              tab.activeWin.activePane != null && tab.activeWin.activePane.focused
    ensures tab.activeWin != old(tab.activeWin) && old(tab.activeWin) != null
            && old(tab.activeWin).activePane != null
            && (tab.activeWin == null || old(tab.activeWin).activePane != tab.activeWin.activePane)
            ==> !old(tab.activeWin).activePane.focused
    ensures tab.activeWin == old(tab.activeWin) && tab.activeWin != null && tab.activeWin.activePane != null
            ==> tab.activeWin.activePane.focused == old(tab.activeWin.activePane.focused)
  {
    PackPanes(tab);
    assert Views(tab.panes) == old(Views(tab.panes));
    assert ActiveChoice(tab.panes, tab.activeWin) == old(ActiveChoice(tab.panes, tab.activeWin));
    assert FocusPanes(tab.activeWin, ActiveChoice(tab.panes, tab.activeWin))
        == old(FocusPanes(tab.activeWin, ActiveChoice(tab.panes, tab.activeWin)));
    UpdateActiveWindow(tab);
  }

  // ---------------------------------------------------------------------
  // Tab label numbering
  // ---------------------------------------------------------------------

  predicate IsDigit(c: char) {
    '0' <= c <= '9'
  }

  /** The decimal rendering of n, most significant digit first, as printf's
      "%d" writes a non-negative number. */
  function Decimal(n: nat): string {
    if n < 10 then [(48 + n) as char] else Decimal(n / 10) + [(48 + n % 10) as char]
  }

  /** The number a string of decimal digits denotes. */
  function DigitsValue(s: string): nat
    requires forall i :: 0 <= i < |s| ==> IsDigit(s[i])
  {
    if s == [] then 0
    else
      assert IsDigit(s[|s| - 1]);
      10 * DigitsValue(s[..|s| - 1]) + (s[|s| - 1] as int - 48)
  }

  function Pow10(k: nat): nat {
    if k == 0 then 1 else 10 * Pow10(k - 1)
  }

  /** Reading back the decimal rendering of n gives n. */
  lemma {:induction false} DecimalRoundTrip(n: nat)
    ensures |Decimal(n)| >= 1
    ensures forall i :: 0 <= i < |Decimal(n)| ==> IsDigit(Decimal(n)[i])
    ensures DigitsValue(Decimal(n)) == n
  {
    if n >= 10 {
      DecimalRoundTrip(n / 10);
      var d := Decimal(n);
      assert d[..|d| - 1] == Decimal(n / 10);
    }
  }

  /** A number below 10^k has at most k digits. */
  lemma {:induction false} DecimalLength(n: nat, k: nat)
    requires 1 <= k && n < Pow10(k)
    ensures |Decimal(n)| <= k
  {
    if n >= 10 {
      assert Pow10(1) == 10;
      assert k >= 2;
      DecimalLength(n / 10, k - 1);
    }
  }

  /** A number a C int holds has at most ten digits. */
  lemma DecimalFitsInt(n: nat)
    ensures n <= 0x7fff_ffff ==> |Decimal(n)| <= 10
  {
    if n <= 0x7fff_ffff {
      assert Pow10(10) == 10000000000;
      DecimalLength(n, 10);
    }
  }

  /** gui_tab_set_label: the label of the tab at notebook index pageNum
      (-1 when the notebook does not hold it) is the 1-based page number
      followed by a colon. Any page number a C int holds fits the 20-byte
      buffer with its terminating NUL. */
  function TabLabel(pageNum: int): (text: string)
    requires pageNum >= -1
    ensures |text| >= 2 && text[|text| - 1] == ':'
    ensures forall i :: 0 <= i < |text| - 1 ==> IsDigit(text[i])
    ensures DigitsValue(text[..|text| - 1]) == pageNum + 1
    ensures pageNum + 1 <= 0x7fff_ffff ==> |text| <= 19
  {
    DecimalRoundTrip(pageNum + 1);
    DecimalFitsInt(pageNum + 1);
    assert (Decimal(pageNum + 1) + ":")[..|Decimal(pageNum + 1)|] == Decimal(pageNum + 1);
    Decimal(pageNum + 1) + ":"
  }
}
