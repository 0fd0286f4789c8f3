/** The records the front-end's functions update in place: a tab with its
    chain of split panes, the panes themselves, and the client-core windows
    (with their GUI side, WindowGui) that the panes show. They live in one
    module because a pane points at the window it shows and a window points
    back at the panes showing it. */
module GuiObjects {
  import opened Common

  /** A window item (channel or query) of the client core; only its two
      activity fields are touched here. */
  class WindowItem {
    var dataLevel: int
    var hilightColor: int

    constructor (dataLevel: int, hilightColor: int)
      ensures this.dataLevel == dataLevel && this.hilightColor == hilightColor
    {
      this.dataLevel := dataLevel;
      this.hilightColor := hilightColor;
    }
  }

  /** A client-core window joined with its WindowGui. Each of its views is
      given by the pane that holds it, and the active view by that view's
      pane. */
  class Window {
    var dataLevel: int
    var hilightColor: int
    var items: seq<WindowItem>
    var views: seq<TabPane>
    var activePane: TabPane?

    constructor ()
      ensures dataLevel == 0 && hilightColor == 0 && items == []
      ensures views == [] && activePane == null
    {
      dataLevel, hilightColor, items := 0, 0, [];
      views, activePane := [], null;
    }
  }

  /** One split view of a tab. Its widget sits as the second child of one
      paned of the tab's chain; `view` is the window it shows, if any. */
  class TabPane {
    var tab: Tab
    var view: Window?
    var focused: bool

    constructor (tab: Tab)
      ensures this.tab == tab && view == null && !focused
    {
      this.tab := tab;
      view := null;
      focused := false;
    }
  }

  /** One notebook page. `slots` is the chain of paneds from first_paned to
      last_paned: slot i is the optional pane held by the i-th paned, whose
      first child is paned i + 1. The last slot is last_paned itself, the
      empty terminal link. `panes` is the tab's pane list, newest first. */
  class Tab {
    var slots: seq<Option<TabPane>>
    var panes: seq<TabPane>
    var activeWin: Window?
    var dataLevel: int
    var destroying: bool

    /** A new tab holds one empty paned (first_paned == last_paned), no
        panes, no active window and no activity. */
    constructor ()
      ensures slots == [None] && panes == [] && activeWin == null
      ensures dataLevel == 0 && !destroying
    {
      slots, panes, activeWin := [None], [], null;
      dataLevel, destroying := 0, false;
    }
  }
}
