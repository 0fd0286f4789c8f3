# xirssi front-end core in Dafny

This project models the parts of xirssi, the GTK front-end of the irssi IRC client, that hold rules of their own rather than widget plumbing:

- **The split-pane chain of a tab** (`gui_tab.dfy`, module `GuiTab`). A tab holds a chain of paneds from `first_paned` down to `last_paned`. Each paned's first child is the next paned, and its second child is an optional pane. The chain is `Tab.slots`, a sequence of optional panes whose last slot is the empty terminal paned. Moving a pane widget into another paned is a move between slots.
  - Adding a pane grows the chain by one link.
  - Destroying a pane empties its slot.
  - `gui_tab_pack_panes` moves every pane back into the first empty paned towards `first_paned` and cuts the chain after them.
  - The tab invariant `Valid` ties the chain to the tab's pane list: read from `first_paned` down the chain, the slots hold the pane list reversed, because the list is newest first.
  - Around the chain sit the pane search, the divider-drag thresholds, the choice of the tab's active window, the transfer of the focus flag between panes, and the numbering of tab labels.
- **Activity levels** (`gui_window_activity.dfy`, module `GuiWindowActivity`).
  - A window that is already visible has its activity, and its items' activity, cleared at once.
  - A tab's level is the highest level among the windows its panes show.
  - Tabs showing a window are recomputed, or cleared, when that window's level changes.
- **Frames** (`gui_frame.dfy`, module `GuiFrame`).
  - The name a key press gets for the key-binding lookup.
  - The filter for bare modifier keys.
  - Frame reference counts.
  - The global frame list with its active frame and the quit request on the last frame.
- **The ignore dialog** (`setup_ignores_edit.dfy`, module `SetupIgnoresEdit`).
  - Saving the form into an ignore record: mask and level defaults, and the expiry time.
  - Splitting a rule's expiry time into days, hours and minutes, with C's division.
  - The carry and borrow between the hours and minutes spin buttons.
  - Filling the channel list.
- **The URL pop-up menu** (`gui_menu_url.dfy`, module `GuiMenuUrl`). A bare `www.` or `ftp.` host is completed with its scheme, and the scheme prefix selects the command table.

Shared pieces:
- `common.dfy` (module `Common`) has `Option` and the list helpers `Remove` (GLib's remove-first-occurrence), `Without` and `Reversed`, with their lemmas.
- `gui_objects.dfy` (module `GuiObjects`) has the records that are updated in place:
  - `Tab` and `TabPane`;
  - `Window`, which is the client-core window joined with its `WindowGui`;
  - `WindowItem`.

Calls into code outside the model are parameters:
- `gui_window_is_visible` is the `visible` flag of `SigActivity`.
- `gdk_keyval_name` is `keyName`.
- `key_pressed` is the function `bound`.
- `level2bits` is `IgnoreForm.levelBits`.
- MSGLEVEL_ALL is `allLevels`.
- `time(NULL)` is `now`.
- Whether the entry has focus is `entryHasFocus`.

Requests that the source makes of the client core are returned as values:
- `window_set_active` (`Option<Window?>`);
- "command window new" and destroying the top pane (`DragOutcome`);
- the quit request (`FrameList.quitRequested`).

## Model

| member | source | states |
|---|---|---|
| GuiTab.TabNew | src/gui-tab.c:115-169 | a new tab has one empty paned, which is both first and last paned; it has no panes, no active window and no activity, and it satisfies the tab invariant |
| GuiTab.AddPaned | src/gui-tab.c:291-311 | returns the old last paned and hangs exactly one new empty paned under it as the new last paned; keeps the tab invariant |
| GuiTab.PaneNew | src/gui-tab.c:313-359 | the new pane sits in the old last paned, a fresh empty paned becomes last, the chain grows by one, and the pane heads the pane list; keeps the tab invariant |
| GuiTab.PackPanes | src/gui-tab.c:373-411 | does nothing while the tab is being destroyed or has no panes; otherwise the chain becomes its compacted form (the held panes in order, then one empty terminal paned); keeps the tab invariant |
| GuiTab.CompactedSpec | src/gui-tab.c:380-407 | after packing every paned above the last holds a pane and the last holds none, and the held panes, their number and their order from first_paned on are those before packing |
| GuiTab.GaplessFixed | src/gui-tab.c:385-386 | packing a chain that has no gap changes nothing |
| GuiTab.CompactedIdempotent | src/gui-tab.c:373-411 | packing a packed chain changes nothing |
| GuiTab.MoveKeepsFilled | src/gui-tab.c:394-400 | moving a pane back into the first empty paned towards first_paned, across empty paneds only, keeps the held panes and their order |
| GuiTab.FilledVacate | src/gui-tab.c:253-257 | emptying the paned of a destroyed pane drops exactly that pane from the panes the chain holds |
| GuiTab.NewestPaneIsUppermost | src/gui-tab.c:199-217 | in a packed chain the head of the pane list, which the drag rule treats as the uppermost pane on screen, sits in the paned just before last_paned |
| GuiTab.FindPane | src/gui-tab.c:177-190 | returns a listed pane held by the given paned, or null exactly when no listed pane is held there |
| GuiTab.PaneMoved | src/gui-tab.c:192-223 | on the uppermost pane a release at 1 or less does nothing, at 2..20 snaps to 0, and above 20 requests a new split for the active window; on the second pane a release at 20 or less destroys the uppermost pane; anything else does nothing |
| GuiTab.FirstShownSpec | src/gui-tab.c:498-513 | the first window in list order is null exactly when no pane has a view, and otherwise is the view of a pane with no view before it |
| GuiTab.ActiveChoiceSpec | src/gui-tab.c:494-516 | the active window is kept while some pane shows it; otherwise the choice is the first pane's view in list order; it is null exactly when no pane has a view, and a chosen window is always shown |
| GuiTab.ChooseActiveWindow | src/gui-tab.c:498-513 | the loop's result is the choice ActiveChoiceSpec characterises |
| GuiTab.SetActiveWindow | src/gui-tab.c:435-468 | switching to another window unfocuses the old window's active-view pane, focuses the new one's, and sets the active window; switching to the same window changes no focus flag |
| GuiTab.UpdateActiveWindow | src/gui-tab.c:494-516 | the tab's active window becomes the choice of ActiveChoiceSpec, and a newly chosen window's active pane is focused; on a change the old window's active pane loses focus (unless the new window shares it), and with the same window that pane's flag is unchanged |
| GuiTab.DetachPane | src/gui-tab.c:253-257 | the pane's paned is empty and the pane leaves the pane list; the tab invariant holds again |
| GuiTab.DestroyPane | src/gui-tab.c:253-276 | the pane leaves the list; the tab is destroyed exactly when no pane is left; otherwise the chain is packed (unless the tab is being destroyed) and the active window is chosen again, moving the focus flags as UpdateActiveWindow does and leaving every other candidate pane's flag alone; keeps the tab invariant |
| GuiTab.Repack | src/gui-tab.c:270-273 | with panes left, the chain is packed unless the tab is being destroyed, and the active window becomes the choice of ActiveChoiceSpec, with the focus flags moved as UpdateActiveWindow does; keeps the tab invariant |
| GuiTab.DecimalRoundTrip | src/gui-tab.c:110 | "%d" of a non-negative number is a non-empty run of digits that reads back as the number |
| GuiTab.DecimalFitsInt | src/gui-tab.c:107-111 | any non-negative C int has at most ten decimal digits |
| GuiTab.TabLabel | src/gui-tab.c:105-113 | the label is the 1-based page number in decimal followed by ':' and reads back as that number; for any page number a C int holds it fits the 20-byte buffer |
| GuiWindowActivity.SigActivity | src/gui-window-activity.c:31-49 | the signal is stopped exactly when the window is visible and has activity; then the window and every item have level and colour 0; otherwise nothing changes |
| GuiWindowActivity.MaxLevelIsMaximum | src/gui-window-activity.c:56-64 | the tab level is not negative, is at least the level of every shown window, and is either 0 or the level of a shown window |
| GuiWindowActivity.ShownBoundsMaxLevel | src/gui-window-activity.c:61-63 | a pane showing a window makes the tab level at least that window's level |
| GuiWindowActivity.TabUpdateActivity | src/gui-window-activity.c:51-66 | the tab's level becomes the maximum of MaxLevelIsMaximum over the windows its panes show |
| GuiWindowActivity.TabClearActivity | src/gui-window-activity.c:68-71 | the tab's level becomes 0 |
| GuiWindowActivity.UpdateViewTab | src/gui-window-activity.c:80-89 | one view's tab ends settled: 0 for a window without activity, unchanged if it was at or above the window's level, recomputed if below; a tab met again stays settled |
| GuiWindowActivity.SigActivityUpdate | src/gui-window-activity.c:73-91 | every tab with a view of a window without activity ends at 0; otherwise tabs at or above the window's level are untouched and tabs below it are recomputed; when each view is in its tab's pane list, every such tab ends at least at the window's level |
| GuiFrame.ToUpper | src/gui-frame.c:78 | only 'a'..'z' change, each to its capital |
| GuiFrame.Lower | src/gui-frame.c:97 | only 'A'..'Z' change, each to its small letter; the length is kept |
| GuiFrame.Key2Str | src/gui-frame.c:64-108 | the name, built back to front, reads "ctrl-" (above 255) or "^", then "meta-", then "shift-" (above 255 only), then the key: the lower-cased GDK name above 255, "space", "return", or the character, upper-cased under shift or control |
| GuiFrame.ShiftUpperCases | src/gui-frame.c:74-79 | shift with any key up to 255 names the upper-cased key without shift |
| GuiFrame.ShiftNamesHighKeys | src/gui-frame.c:74-76 | shift with a key above 255 puts "shift-" just before the lower-cased GDK name, after the other modifiers |
| GuiFrame.ControlIgnoresCase | src/gui-frame.c:84-91 | control with a key up to 255 gives a name starting with '^' that is the same for a letter and its capital |
| GuiFrame.DistinctLettersDistinctNames | src/gui-frame.c:98-103 | two different capital letters never get the same name under the same modifiers |
| GuiFrame.KeyPress | src/gui-frame.c:110-144 | bare Control, Meta and Alt keys are passed on; otherwise the key's name goes to the binding lookup; a bound key stops the emission; an unbound one focuses the entry exactly when the entry lacks focus and neither control nor Alt is held |
| GuiFrame.Frame.constructor | src/gui-frame.c:165-166 | a new frame holds one reference and no active tab |
| GuiFrame.Ref | src/gui-frame.c:205-208 | the count goes up by one and the frame stays alive |
| GuiFrame.Unref | src/gui-frame.c:210-216 | the count goes down by one; the frame is released exactly when the count reaches 0 and stays alive exactly when it held more than one reference |
| GuiFrame.NewFrame | src/gui-frame.c:160-203 | a fresh frame with one reference goes to the front of the list; the active frame is unchanged; the list stays valid (distinct, alive frames, active frame listed) |
| GuiFrame.SetActive | src/gui-frame.c:230-235 | the frame becomes active, and the core is asked to activate its active tab's window exactly when there is a frame with an active tab |
| GuiFrame.FrameFocus | src/gui-frame.c:55-62 | the focused frame becomes active; the core is asked to activate its active tab's window once, and a second time when that window exists |
| GuiFrame.SwitchPage | src/gui-frame.c:146-158 | the tab switched to becomes the frame's active tab, and the core is asked to activate that tab's active window |
| GuiFrame.FrameDestroy | src/gui-frame.c:35-53 | the frame leaves the list; if it was active, the new head (or none) becomes active and the core is asked to activate that head's active-tab window when it has an active tab; an empty list requests quit; the list's reference is dropped; the destroyed frame is never left active; the list stays valid |
| GuiFrame.Unlist | src/gui-frame.c:37-39 | the frame leaves the list, which keeps no repetitions; if it was active, the new head (or none) becomes active and the core is asked to activate that head's active-tab window when it has an active tab; an active frame is always listed |
| SetupIgnoresEdit.SavedMask | src/setup-ignores-edit.c:50-51 | no mask exactly for an empty text or a lone "*"; the text itself otherwise |
| SetupIgnoresEdit.SavedMaskStable | src/setup-ignores-edit.c:50-51 | saving a kept mask again keeps it |
| SetupIgnoresEdit.SavedLevel | src/setup-ignores-edit.c:55-57 | level bits of 0 become every level; other bits are kept; the result is never 0 when every level is not |
| SetupIgnoresEdit.IgnoreSave | src/setup-ignores-edit.c:29-98 | a null rule gives a fresh record, otherwise the rule itself is written; every field comes from the form with the mask and level defaults; the expiry becomes now plus days*86400 + hours*3600 + mins*60 when that is positive and is left alone otherwise |
| SetupIgnoresEdit.WriteForm | src/setup-ignores-edit.c:47-92 | the field writes of the save, with the expiry rule above |
| SetupIgnoresEdit.CDiv | src/setup-ignores-edit.c:300-306 | C division by a positive number rounds toward zero |
| SetupIgnoresEdit.CMod | src/setup-ignores-edit.c:304-306 | C remainder by a positive number has the sign of the dividend and is smaller than the divisor |
| SetupIgnoresEdit.LoadExpiry | src/setup-ignores-edit.c:299-307 | a rule without an expiry time shows no split |
| SetupIgnoresEdit.CDivTwice | src/setup-ignores-edit.c:302-306 | dividing by 60 twice with C's division is dividing by 3600 |
| SetupIgnoresEdit.DecomposeRecombine | src/setup-ignores-edit.c:300-306 | for any time left, recombining its split with the save formula gives the time cut toward zero to whole minutes |
| SetupIgnoresEdit.DecomposeAhead | src/setup-ignores-edit.c:300-306 | for a time still ahead the split has non-negative days, hours below 24 and minutes below 60, and recombines to the time less its odd seconds |
| SetupIgnoresEdit.DecomposeInverse | src/setup-ignores-edit.c:85-89 | splitting the saved length of in-range spin values gives those values back |
| SetupIgnoresEdit.SaveThenShow | src/setup-ignores-edit.c:91-92 | a rule saved with a positive in-range expiry and shown at the same moment shows the saved spin values |
| SetupIgnoresEdit.HoursRule | src/setup-ignores-edit.c:195-207 | the minutes are untouched, and hours within 0..23 are left as they are |
| SetupIgnoresEdit.HoursRuleKeepsTotal | src/setup-ignores-edit.c:195-207 | an hour edit to -1 or 24 keeps days*24 + hours unless clamped at zero (where only the hours become 0), and leaves hours in 0..23 and days non-negative |
| SetupIgnoresEdit.MinsEdit | src/setup-ignores-edit.c:220-234 | minutes within 0..59 leave everything as it is |
| SetupIgnoresEdit.MinsEditKeepsTotal | src/setup-ignores-edit.c:220-234 | a minute edit to -1 or 60 from in-range values keeps the expiry length unless clamped at zero (where only the minutes become 0), and leaves every value in range |
| SetupIgnoresEdit.ExpirySpins.HoursChanged | src/setup-ignores-edit.c:186-209 | the spins end as HoursRule prescribes |
| SetupIgnoresEdit.ExpirySpins.MinsChanged | src/setup-ignores-edit.c:211-236 | the spins end as MinsEdit prescribes, the hours handler included |
| SetupIgnoresEdit.StoreFill | src/setup-ignores-edit.c:111-123 | no channels leave the store unchanged; otherwise the channels are above the old rows in reverse order |
| SetupIgnoresEdit.StoreFillOrder | src/setup-ignores-edit.c:119-122 | after the fill, row k holds the channel k places from the end, and each channel occurs as often as in the rule |
| GuiMenuUrl.FixUrl | src/gui-menu-url.c:73-77 | "www." gets "http://" in front, "ftp." gets "ftp://", and any other URL is unchanged |
| GuiMenuUrl.Classify | src/gui-menu-url.c:79-94 | the scheme is http, ftp, mail or irc exactly when the URL starts "http://", "ftp://", "mailto:" or "irc://", and none otherwise |
| GuiMenuUrl.ItemsFor | src/gui-menu-url.c:29-45 | http and ftp offer two commands, mail and irc one, and every command takes the URL as $0 |
| GuiMenuUrl.UrlPopup | src/gui-menu-url.c:63-110 | no menu for a missing URL or an unknown scheme; otherwise the menu of the completed URL's scheme, with one or two items, stores the completed URL |
| GuiMenuUrl.FixUrlKeepsUrl | src/gui-menu-url.c:74-77 | the original URL is the tail of the stored one, and the part in front is exactly the added scheme |
| GuiMenuUrl.FixUrlIdempotent | src/gui-menu-url.c:73-77 | completing a completed URL changes nothing |
| GuiMenuUrl.WwwIsHttp | src/gui-menu-url.c:74-81 | a "www." URL always gets the web menu with "http://" in front |
| GuiMenuUrl.FtpHostIsFtp | src/gui-menu-url.c:76-84 | an "ftp." URL always gets the FTP menu with "ftp://" in front |

## Left out

- Widgets, layout and colours: boxes, labels, buttons, pixbufs, showing and hiding, `colors_setup`, `gui_tab_set_focus_colors`, and the menu creation and pop-up at the end of `gui_menu_url_popup`. These are toolkit calls with no rule of their own.
- Paned positions: the 100-pixel minimum that `gui_tab_add_paned` sets on the parent paned, and the position reset at the end of `gui_tab_pack_panes`. Positions are widget state. The drag rule takes the released position as a parameter.
- Signal emission and dispatch: "gui tab created", "tab pane focused", "gui frame destroyed" and the like. Requests that the source makes of the client core are returned as values.
- `gui_tab_set_active_window_item` (the nicklist) and `gui_frame_set_active_window` (the entry line). These are GTK calls at the end of `gui_tab_set_active_window`.
- The tab's own destroy handler (src/gui-tab.c:57-79). It sets `destroying`, then destroys the panes one at a time until none is left. Each destruction is a `DestroyPane` with `destroying` set, so the chain is not packed. It then clears the frame's `active_tab` if it pointed at the tab. The frame's tab is not a field of `Tab` here, and the loop's changing focus frame is not modelled as one method.
- `gui_tab_get_page`, `gui_reset_tab_labels` and `gui_frame_set_active_tab`. These are notebook page lookups: the first returns the tab of a page, the second relabels every page in notebook order through `gui_tab_set_label`, and the third switches the notebook to a tab's page. The notebook's page order is not modelled, so `TabLabel` takes the page index as a parameter.
- `gui_frame_new_tab`. It creates the tab with `gui_tab_new` (modelled as `GuiTab.TabNew`), then tags the widget and appends it as a notebook page, which are toolkit calls.
- `gui_tab_set_active`. It does nothing while the frame is being destroyed. Otherwise it switches the notebook to the tab's page, which runs `event_switch_page` (modelled as `GuiFrame.SwitchPage`), and passes the tab's active window to the entry line. Neither the notebook switch nor the entry line is modelled.
- Frame.activeTab: the page switch that sets it is `GuiFrame.SwitchPage`, but no member models the notebook signal that triggers it. Callers of `SetActive`, `FrameFocus`, `FrameDestroy` and `Unlist` therefore find it as `SwitchPage` or the constructor left it.
- GuiFrame.SwitchPage: the tab of the page is given as a parameter. The lookup through the page's widget data is not modelled, and neither is a page without a tab.
- GuiFrame.ToUpper: only the C and UTF-8 locales are modelled, where `i_toupper` changes only 'a'..'z'. Under a single-byte locale such as Latin-1, the C library also upper-cases letters like 0xE9, so Control with that keyval names "^É" rather than "^é"; the model does not follow the locale. `Lower` is ASCII in the same way, which is all GDK's key names use.
- `event_notify` and `event_notify_pane`. These re-point a tab or a pane at its new parent after a widget moves between frames.
- Freeing memory. `Frame.freed` records the release of a frame; nothing else is freed.
- `regexp_update_invalid`. Whether a pattern compiles depends on the regex library.
- `gui_entry_update`, `gui_tree_model_get_string` and `g_strsplit`. Their results are the form's `pattern` and `channels`.
- Spin values. GTK returns them as doubles and clamps them to ranges set in the dialog description; neither is modelled, and the spins are integers. HoursRuleKeepsTotal and MinsEditKeepsTotal cover single-step edits only.
- The `(int)` casts of the split and a `time_t` wider than `int`. Integers are unbounded here.
- The re-runs of the hours and minutes handlers caused by their own writes of 0, 23 or 59. These find the values in range and do nothing. The run of the hours handler caused by the minutes handler is modelled.
- `ignore_add_rec` and `ignore_update_rec`. `IgnoreSave` reports which of the two the source calls.
- `menu_callback`. The command runs through the client core's `eval_special_string` with the URL as $0.
- gui-menu-main.c. It is a static menu table and visibility toggles.
- gui-window-view.c, which keeps `WindowGui.views` and `active_view`, is not part of this model. A view is represented by its pane.
- ShownHaveActivePane: `gui_tab_set_active_window` dereferences the new window's active view without a check. The model requires that every window a pane shows has an active view.
- GuiTab.PaneMoved: requires the tab to have a pane, because the handler reads the head of the pane list without a check. No caller meets an empty list, since destroying the last pane destroys the tab (src/gui-tab.c:268-270).
- GuiFrame.FrameFocus: requires the frame to have an active tab, because `event_focus` reads its active window without a check.
- GuiFrame.CharText: a keyval of 0 formats as a NUL character. It ends the returned C string, so the key part is empty.
