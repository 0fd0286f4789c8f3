/** A frame is one top-level window of the front-end: a notebook of tabs, an
    entry line and a status bar. This module keeps the list of frames with
    the active one, the frames' reference counts, and the naming of key
    presses that the key-binding lookup uses. */
module GuiFrame {
  import opened Common
  import opened GuiObjects

  // ---------------------------------------------------------------------
  // Key names
  // ---------------------------------------------------------------------

  /** GDK modifier bits of a key event's state. */
  const ShiftMask: bv32 := 1
  const ControlMask: bv32 := 4
  const Mod1Mask: bv32 := 8

  /** GDK keyvals of the bare modifier keys. */
  const ControlL: nat := 0xffe3
  const ControlR: nat := 0xffe4
  const MetaL: nat := 0xffe7
  const MetaR: nat := 0xffe8
  const AltL: nat := 0xffe9
  const AltR: nat := 0xffea

  predicate Held(state: bv32, mask: bv32) {
    state & mask != 0
  }

  /** i_toupper on a character code in the C locale: only 'a'..'z'
      change. */
  function ToUpper(c: nat): (u: nat)
    ensures 'a' as nat <= c <= 'z' as nat ==> u == c - 32 && 'A' as nat <= u <= 'Z' as nat
    ensures !('a' as nat <= c <= 'z' as nat) ==> u == c
  {
    if 'a' as nat <= c <= 'z' as nat then c - 32 else c
  }

  /** g_strdown: ASCII upper-case letters become lower-case. */
  function Lower(s: string): (r: string)
    ensures |r| == |s|
    ensures forall i :: 0 <= i < |s| ==>
              r[i] == if 'A' <= s[i] <= 'Z' then (s[i] as int + 32) as char else s[i]
  {
    if s == [] then []
    else
      var c := s[0];
      [if 'A' <= c <= 'Z' then (c as int + 32) as char else c] + Lower(s[1..])
  }

  /** The text "%c" gives for a character code of at most 255; the string
      handed back is a C string, so a code of 0 ends it. */
  function CharText(c: nat): (r: string)
    requires c <= 255
    ensures c == 0 <==> r == []
    ensures c != 0 ==> r == [c as char]
  {
    if c == 0 then [] else [c as char]
  }

  /** The modifier part of a binding name in reading order: "ctrl-" or "^"
      for control, then "meta-" for Alt, then "shift-" for shift on a
      keyval above 255. */
  function ModifierText(keyval: nat, state: bv32): string {
    (if Held(state, ControlMask) then (if keyval > 255 then "ctrl-" else "^") else "")
    + (if Held(state, Mod1Mask) then "meta-" else "")
    + (if Held(state, ShiftMask) && keyval > 255 then "shift-" else "")
  }

  /** The key part of a binding name: the lower-cased GDK name above 255,
      "space" and "return" for those two keys, and otherwise the character,
      upper-cased when shift or control is held. */
  function KeyText(keyval: nat, state: bv32, keyName: string): string {
    if keyval > 255 then Lower(keyName)
    else if keyval == ' ' as nat then "space"
    else if keyval == '\n' as nat then "return"
    else if Held(state, ShiftMask) || Held(state, ControlMask) then CharText(ToUpper(keyval))
    else CharText(keyval)
  }

  /** gui_key2str. `keyName` is what gdk_keyval_name answers for the
      keyval. The name is built back to front, each modifier being put in
      front of the ones before it; read front to back it is the modifier
      part followed by the key part. */
  function Key2Str(keyval: nat, state: bv32, keyName: string): (r: string)
    ensures r == ModifierText(keyval, state) + KeyText(keyval, state, keyName)
  {
    var shifted := Held(state, ShiftMask) && keyval <= 255;
    var chr := if shifted then ToUpper(keyval) else keyval;
    var cmd1 := if Held(state, ShiftMask) && chr > 255 then "shift-" else "";
    var cmd2 := if Held(state, Mod1Mask) then "meta-" + cmd1 else cmd1;
    var cmd3 := if Held(state, ControlMask) then (if chr > 255 then "ctrl-" else "^") + cmd2 else cmd2;
    var chr2 := if Held(state, ControlMask) && chr <= 255 then ToUpper(chr) else chr;
    var key := if keyval > 255 then Lower(keyName)
               else if keyval == ' ' as nat then "space"
               else if keyval == '\n' as nat then "return"
               else CharText(chr2);
    assert chr > 255 <==> keyval > 255;
    assert cmd3 == ModifierText(keyval, state);
    assert key == KeyText(keyval, state, keyName);
    cmd3 + key
  }

  /** With shift held, a key of at most 255 is named as its upper-cased
      key without shift. */
  lemma ShiftUpperCases(keyval: nat, state: bv32, keyName: string)
    requires keyval <= 255
    requires Held(state, ShiftMask)
    ensures Key2Str(keyval, state, keyName)
            == Key2Str(ToUpper(keyval), state & !ShiftMask, keyName)
  {
    var s' := state & !ShiftMask;
    assert !Held(s', ShiftMask);
    assert Held(s', ControlMask) == Held(state, ControlMask);
    assert Held(s', Mod1Mask) == Held(state, Mod1Mask);
    assert ToUpper(ToUpper(keyval)) == ToUpper(keyval);
  }

  /** With shift held, a key above 255 is named with "shift-" just before
      its lower-cased GDK name. */
  lemma ShiftNamesHighKeys(keyval: nat, state: bv32, keyName: string)
    requires keyval > 255 && Held(state, ShiftMask)
    ensures Key2Str(keyval, state, keyName)
            == Key2Str(keyval, state & !ShiftMask, keyName)[..|ModifierText(keyval, state & !ShiftMask)|]
               + "shift-" + Lower(keyName)
  {
    var s' := state & !ShiftMask;
    assert !Held(s', ShiftMask);
    assert Held(s', ControlMask) == Held(state, ControlMask);
    assert Held(s', Mod1Mask) == Held(state, Mod1Mask);
    var m := ModifierText(keyval, s');
    assert (m + KeyText(keyval, s', keyName))[..|m|] == m;
  }

  /** Control bindings of keys up to 255 do not depend on case: control
      with a lower-case letter is named as with its upper-case letter, a
      "^" followed by that capital. */
  lemma ControlIgnoresCase(keyval: nat, state: bv32, keyName: string)
    requires keyval <= 255 && Held(state, ControlMask)
    ensures Key2Str(keyval, state, keyName) == Key2Str(ToUpper(keyval), state, keyName)
    ensures Key2Str(keyval, state, keyName)[0] == '^'
  {
  }

  /** Different letters give different names under the same modifiers. */
  lemma DistinctLettersDistinctNames(a: nat, b: nat, state: bv32, keyName: string)
    requires 'A' as nat <= a <= 'Z' as nat && 'A' as nat <= b <= 'Z' as nat && a != b
    ensures Key2Str(a, state, keyName) != Key2Str(b, state, keyName)
  {
    var m := ModifierText(a, state);
    assert ModifierText(b, state) == m;
    var ra, rb := Key2Str(a, state, keyName), Key2Str(b, state, keyName);
    assert ra == m + [a as char] && rb == m + [b as char];
    assert ra[|m|] != rb[|m|];
  }

  /** What event_key_press does with a key press. */
  datatype KeyOutcome =
    | ModifierOnly                          // a bare modifier key: passed on
    | Bound(name: string)                   // a binding took it: emission stopped
    | Unbound(name: string, focusEntry: bool) // passed on; maybe focus the entry

  /** event_key_press. `bound` is key_pressed on the frame's keyboard (it
      runs the binding and says whether there was one), `entryHasFocus`
      whether the entry line already has the keyboard focus. */
  function KeyPress(keyval: nat, state: bv32, keyName: string,
                    bound: string -> bool, entryHasFocus: bool): (o: KeyOutcome)
    ensures o.ModifierOnly? <==> keyval in {ControlL, ControlR, MetaL, MetaR, AltL, AltR}
    ensures o.Bound? || o.Unbound? ==> o.name == Key2Str(keyval, state, keyName)
    ensures o.Bound? <==> !o.ModifierOnly? && bound(Key2Str(keyval, state, keyName))
    ensures o.Unbound? ==> (o.focusEntry <==> !entryHasFocus
                                              && !Held(state, ControlMask) && !Held(state, Mod1Mask))
  {
    if keyval == ControlL || keyval == ControlR || keyval == MetaL
       || keyval == MetaR || keyval == AltL || keyval == AltR then ModifierOnly
    else
      var name := Key2Str(keyval, state, keyName);
      if bound(name) then Bound(name)
      else Unbound(name, !entryHasFocus && state & (ControlMask | Mod1Mask) == 0)
  }

  // ---------------------------------------------------------------------
  // Frames and their reference counts
  // ---------------------------------------------------------------------

  /** A frame record. `freed` marks a frame whose memory was released. */
  class Frame {
    var refcount: int
    var freed: bool
    var activeTab: Tab?

    /** The zero-filled record of gui_frame_new, holding one reference. */
    constructor ()
      ensures refcount == 1 && !freed && activeTab == null
    {
      refcount, freed, activeTab := 1, false, null;
    }
  }

  /** A frame is released exactly when its count has dropped to zero. */
  ghost predicate Alive(frame: Frame)
    reads frame
  {
    !frame.freed && frame.refcount >= 1
  }

  /** gui_frame_ref. */
  method Ref(frame: Frame)
    requires Alive(frame)
    modifies frame`refcount
    ensures frame.refcount == old(frame.refcount) + 1
    ensures Alive(frame)
  {
    frame.refcount := frame.refcount + 1;
  }

  /** gui_frame_unref: drops one reference and releases the frame when none
      is left. */
  method Unref(frame: Frame)
    requires Alive(frame)
    modifies frame`refcount, frame`freed
    ensures frame.refcount == old(frame.refcount) - 1
    ensures frame.freed <==> frame.refcount == 0
    ensures Alive(frame) <==> old(frame.refcount) > 1
  {
    frame.refcount := frame.refcount - 1;
    if frame.refcount > 0 {
      return;
    }
    frame.freed := true;
  }

  // ---------------------------------------------------------------------
  // The frame list and the active frame
  // ---------------------------------------------------------------------

  /** The globals `frames` (newest first) and `active_frame`, with the
      quit request raised when the last frame goes. */
  class FrameList {
    var frames: seq<Frame>
    var active: Frame?
    var quitRequested: bool

    constructor ()
      ensures frames == [] && active == null && !quitRequested
    {
      frames, active, quitRequested := [], null, false;
    }
  }

  /** Every listed frame occurs once and is alive, and the active frame,
      if any, is listed. */
  ghost predicate Valid(list: FrameList)
    reads list, list.frames
  {
    Distinct(list.frames)
    && (forall f :: f in list.frames ==> Alive(f))
    && (list.active != null ==> list.active in list.frames)
  }

  /** gui_frame_new: a new frame with one reference goes to the front of
      the list; the active frame stays as it was. */
  method NewFrame(list: FrameList) returns (frame: Frame)
    requires Valid(list)
    modifies list`frames
    ensures fresh(frame) && frame.refcount == 1 && !frame.freed && frame.activeTab == null
    ensures list.frames == [frame] + old(list.frames)
    ensures Valid(list)
  {
    frame := new Frame();
    list.frames := [frame] + list.frames;
    PrependDistinct(frame, old(list.frames));
  }

  /** gui_frame_set_active. The answer is the window the client core is
      asked to make active: the active window of the frame's active tab,
      when there is a frame and it has an active tab. */
  method SetActive(list: FrameList, frame: Frame?) returns (activate: Option<Window?>)
    modifies list`active
    ensures list.active == frame
    ensures frame != null && frame.activeTab != null <==> activate.Some?
    ensures activate.Some? ==> activate.value == frame.activeTab.activeWin
  {
    list.active := frame;
    if frame != null && frame.activeTab != null {
      return Some(frame.activeTab.activeWin);
    }
    return None;
  }

  /** event_focus: the frame that got the keyboard focus becomes active.
      The handler reads the active window of the frame's active tab without
      a check, so the frame must have an active tab. The answer lists the
      windows the client core is asked to activate, in order: once by
      gui_frame_set_active, whatever that window is, and once more by the
      handler itself when there is one. */
  method FrameFocus(list: FrameList, frame: Frame) returns (requests: seq<Window?>)
    requires frame.activeTab != null
    modifies list`active
    ensures list.active == frame
    ensures frame.activeTab.activeWin == null ==> requests == [null]
    ensures frame.activeTab.activeWin != null ==>
              |requests| == 2 && forall i :: 0 <= i < 2 ==> requests[i] == frame.activeTab.activeWin
  {
    var activate := SetActive(list, frame);
    requests := [activate.value];
    if frame.activeTab.activeWin != null {
      requests := requests + [frame.activeTab.activeWin];
    }
  }

  /** event_switch_page: the tab of the page the notebook switched to
      becomes the frame's active tab, and the client core is asked to
      activate that tab's active window (null included). */
  method SwitchPage(frame: Frame, tab: Tab) returns (activate: Window?)
    modifies frame`activeTab
    ensures frame.activeTab == tab
    ensures activate == tab.activeWin
  {
    frame.activeTab := tab;
    activate := tab.activeWin;
  }

  /** event_destroy of a frame's window: the frame leaves the list; if it
      was active the first remaining frame, or none, becomes active; an
      empty list asks the client to quit; the list's reference is
      dropped. */
  method FrameDestroy(list: FrameList, frame: Frame) returns (activate: Option<Window?>)
    requires Valid(list) && frame in list.frames
    modifies list`frames, list`active, list`quitRequested, frame`refcount, frame`freed
    ensures list.frames == Remove(old(list.frames), frame)
    ensures frame !in list.frames
    ensures old(list.active) == frame ==> list.active == (if list.frames != [] then list.frames[0] else null)
    ensures old(list.active) != frame ==> list.active == old(list.active) && activate.None?
    ensures old(list.active) == frame ==>
              activate == if list.frames != [] && list.frames[0].activeTab != null
                          then Some(list.frames[0].activeTab.activeWin) else None
    ensures list.quitRequested <==> old(list.quitRequested) || list.frames == []
    ensures frame.refcount == old(frame.refcount) - 1
    ensures frame.freed <==> frame.refcount == 0
    ensures list.active != frame
    ensures Valid(list)
  {
    activate := Unlist(list, frame);
    if list.frames == [] {
      list.quitRequested := true;
    }
    Unref(frame);
  }

  /** The list part of event_destroy: the frame leaves the list, and the
      first remaining frame, or none, replaces it as the active frame. */
  method Unlist(list: FrameList, frame: Frame) returns (activate: Option<Window?>)
    requires Valid(list) && frame in list.frames
    modifies list`frames, list`active
    ensures list.frames == Remove(old(list.frames), frame)
    ensures Distinct(list.frames) && frame !in list.frames
    ensures old(list.active) == frame ==> list.active == (if list.frames != [] then list.frames[0] else null)
    ensures old(list.active) != frame ==> list.active == old(list.active) && activate.None?
    ensures old(list.active) == frame ==>
              activate == if list.frames != [] && list.frames[0].activeTab != null
                          then Some(list.frames[0].activeTab.activeWin) else None
    ensures list.active != null ==> list.active in list.frames
  {
    RemoveDistinct(list.frames, frame);
    if list.active != null && list.active != frame {
      var active: Frame := list.active;
      RemoveKeeps(list.frames, frame, active);
    }
    list.frames := Remove(list.frames, frame);
    activate := None;
    if list.active == frame {
      activate := SetActive(list, if list.frames != [] then list.frames[0] else null);
    }
  }
}
