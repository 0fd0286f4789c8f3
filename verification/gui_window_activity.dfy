/** Window activity as the front-end shows it: a window whose activity is
    already on screen is cleared at once, and a tab's label carries the
    highest activity level among the windows its panes show. */
module GuiWindowActivity {
  import opened Common
  import opened GuiObjects
  import opened GuiTab

  /** sig_activity, run first on "window hilight" and "window activity".
      `visible` is what gui_window_is_visible answers for the window. A
      visible window with pending activity has the activity of itself and
      of every item cleared, and the signal is stopped (`stopped`);
      otherwise nothing changes and the signal goes on. */
  method SigActivity(window: Window, visible: bool) returns (stopped: bool)
    modifies window`dataLevel, window`hilightColor
    modifies (set it | it in window.items)`dataLevel, (set it | it in window.items)`hilightColor
    ensures stopped <==> visible && old(window.dataLevel) != 0
    ensures stopped ==> window.dataLevel == 0 && window.hilightColor == 0
    ensures stopped ==> forall it :: it in window.items ==> it.dataLevel == 0 && it.hilightColor == 0
    ensures !stopped ==> window.dataLevel == old(window.dataLevel)
                         && window.hilightColor == old(window.hilightColor)
    ensures !stopped ==> forall it :: it in window.items ==>
                           it.dataLevel == old(it.dataLevel) && it.hilightColor == old(it.hilightColor)
  {
    if !visible || window.dataLevel == 0 {
      return false;
    }
    window.dataLevel := 0;
    window.hilightColor := 0;
    var i := 0;
    while i < |window.items|
      invariant 0 <= i <= |window.items|
      invariant window.dataLevel == 0 && window.hilightColor == 0
      invariant forall j :: 0 <= j < i ==>
                  window.items[j].dataLevel == 0 && window.items[j].hilightColor == 0
    {
      var item := window.items[i];
      item.dataLevel := 0;
      item.hilightColor := 0;
      i := i + 1;
    }
    return true;
  }

  /** The highest activity level among the windows the panes show, and 0
      when none shows a window with activity. */
  ghost function MaxLevel(panes: seq<TabPane>): int
    reads (set p | p in panes)`view, Views(panes)`dataLevel
  {
    if panes == [] then 0
    else
      var rest := MaxLevel(panes[..|panes| - 1]);
      var p := panes[|panes| - 1];
      if p.view != null && p.view.dataLevel > rest then p.view.dataLevel else rest
  }

  /** MaxLevel is the maximum: never negative, at least the level of every
      shown window, and either 0 or the level of one of them. */
  lemma {:induction false} MaxLevelIsMaximum(panes: seq<TabPane>)
    ensures MaxLevel(panes) >= 0
    ensures forall i :: 0 <= i < |panes| && panes[i].view != null ==>
              panes[i].view.dataLevel <= MaxLevel(panes)
    ensures MaxLevel(panes) == 0 ||
            exists i :: 0 <= i < |panes| && panes[i].view != null
                        && panes[i].view.dataLevel == MaxLevel(panes)
  {
    if panes != [] {
      var init := panes[..|panes| - 1];
      MaxLevelIsMaximum(init);
      assert forall i :: 0 <= i < |init| ==> init[i] == panes[i];
      if MaxLevel(init) != 0 && MaxLevel(panes) == MaxLevel(init) {
        var i :| 0 <= i < |init| && init[i].view != null && init[i].view.dataLevel == MaxLevel(init);
        assert panes[i].view.dataLevel == MaxLevel(panes);
      }
    }
  }

  /** A pane of the list that shows `w` bounds the maximum from below. */
  lemma ShownBoundsMaxLevel(panes: seq<TabPane>, p: TabPane, w: Window)
    requires p in panes && p.view == w
    ensures MaxLevel(panes) >= w.dataLevel
  {
    MaxLevelIsMaximum(panes);
  }

  /** tab_update_activity: the tab takes the highest level among the
      windows its panes show. */
  method TabUpdateActivity(tab: Tab)
    modifies tab`dataLevel
    ensures tab.dataLevel == MaxLevel(tab.panes)
  {
    var level := 0;
    var i := 0;
    while i < |tab.panes|
      invariant 0 <= i <= |tab.panes|
      invariant level == MaxLevel(tab.panes[..i])
    {
      var pane := tab.panes[i];
      assert tab.panes[..i + 1][..i] == tab.panes[..i];
      if pane.view != null && pane.view.dataLevel > level {
        level := pane.view.dataLevel;
      }
      i := i + 1;
    }
    assert tab.panes[..i] == tab.panes;
    tab.dataLevel := level;
  }

  /** tab_clear_activity. */
  method TabClearActivity(tab: Tab)
    modifies tab`dataLevel
    ensures tab.dataLevel == 0
  {
    tab.dataLevel := 0;
  }

  /** The tabs holding the panes that show views of a window. */
  ghost function ViewTabs(window: Window): set<Tab>
    reads window, (set v | v in window.views)`tab
  {
    set v | v in window.views :: v.tab
  }

  /** What sig_activity_update leaves in a tab whose level was `before`
      when the window's level is `level`. */
  ghost predicate Settled(t: Tab, before: int, level: int)
    reads t, (set p | p in t.panes)`view, Views(t.panes)`dataLevel
  {
    if level == 0 then t.dataLevel == 0
    else (before >= level ==> t.dataLevel == before)
         && (before < level ==> t.dataLevel == MaxLevel(t.panes))
  }

  /** The body of sig_activity_update's loop for the tab of one view; a tab
      met again through another view stays settled. */
  method UpdateViewTab(t: Tab, level: int, ghost before: int)
    requires t.dataLevel == before || Settled(t, before, level)
    modifies t`dataLevel
    ensures Settled(t, before, level)
  {
    if level == 0 {
      if t.dataLevel != 0 {
        TabClearActivity(t);
      }
    } else if t.dataLevel < level {
      TabUpdateActivity(t);
    }
  }

  /** sig_activity_update, run on "window hilight" and "window changed".
      With no activity left in the window every tab showing it is cleared.
      Otherwise a tab whose level is below the window's takes the maximum
      over its panes again, and a tab already at or above it is left as it
      is. When each view of the window sits in its tab's pane list, every
      such tab ends at least at the window's level. */
  method SigActivityUpdate(window: Window)
    modifies ViewTabs(window)`dataLevel
    ensures window.dataLevel == 0 ==> forall t :: t in ViewTabs(window) ==> t.dataLevel == 0
    ensures window.dataLevel != 0 ==>
              forall t :: t in ViewTabs(window) && old(t.dataLevel) >= window.dataLevel ==>
                t.dataLevel == old(t.dataLevel)
    ensures window.dataLevel != 0 ==>
              forall t :: t in ViewTabs(window) && old(t.dataLevel) < window.dataLevel ==>
                t.dataLevel == MaxLevel(t.panes)
    ensures (forall v :: v in window.views ==> v.view == window && v in v.tab.panes) ==>
              forall t :: t in ViewTabs(window) ==> t.dataLevel >= window.dataLevel
  {
    var level := window.dataLevel;
    ghost var before := map t | t in ViewTabs(window) :: t.dataLevel;
    ghost var visited: set<Tab> := {};
    var i := 0;
    while i < |window.views|
      invariant 0 <= i <= |window.views|
      invariant visited == set j | 0 <= j < i :: window.views[j].tab
      invariant forall t :: t in visited ==> Settled(t, before[t], level)
      invariant forall t :: t in before && t !in visited ==> t.dataLevel == before[t]
    {
      var t := window.views[i].tab;
      assert t in before;
      label Before:
      UpdateViewTab(t, level, before[t]);
      forall u | u in visited && u != t ensures Settled(u, before[u], level) {
        assert old@Before(Settled(u, before[u], level));
        assert Views(u.panes) == old@Before(Views(u.panes));
      }
      visited := visited + {t};
      i := i + 1;
    }
    assert forall t :: t in ViewTabs(window) ==> t in visited && Settled(t, before[t], level);
    if forall v :: v in window.views ==> v.view == window && v in v.tab.panes {
      forall t | t in ViewTabs(window) ensures t.dataLevel >= level {
        var v :| v in window.views && v.tab == t;
        ShownBoundsMaxLevel(t.panes, v, window);
      }
    }
  }
}
