/**
 * The screen of zellij-server/src/screen.rs: the tabs of a session, kept in
 * a map from tab index to tab, and which of them is active. The screen only
 * chooses the active tab and renumbers the tab bar; pane work is the tab's.
 */
module Screens {
  import opened Wrappers
  import opened Panes
  import opened TabEntries
  import opened Tabs

  /** Each tab's key and place on the tab bar, in key order. */
  ghost function EntriesOf(ts: seq<Tab>): (r: seq<TabEntry>)
    reads ts
    ensures |r| == |ts|
    ensures forall i | 0 <= i < |ts| :: r[i] == TabEntry(ts[i].index, ts[i].position)
  {
    seq(|ts|, i requires 0 <= i < |ts| reads ts => TabEntry(ts[i].index, ts[i].position))
  }

  /** Taking the tab at `k` out of the map takes its entry out of the bar. */
  lemma EntriesAfterRemove(ts: seq<Tab>, k: nat)
    requires k < |ts|
    ensures EntriesOf(ts[..k] + ts[k + 1..]) == EntriesOf(ts)[..k] + EntriesOf(ts)[k + 1..]
  {
  }

  class Screen {
    /** The map's values in key order. */
    var tabs: seq<Tab>
    var activeTabIndex: Option<nat>
    var maxPanes: Option<nat>
    var positionAndSize: Rect
    var modeInfo: ModeInfo
    var colors: nat

    ghost function Entries(): (r: seq<TabEntry>)
      reads this, tabs
    {
      EntriesOf(tabs)
    }

    /** A map iterates its keys in increasing order, each once. */
    ghost predicate Valid()
      reads this, tabs
    {
      IndicesIncreasing(Entries())
    }

    /** `get_active_tab`: where the active tab sits, if there is one. */
    ghost function ActivePlace(): (r: Option<nat>)
      reads this, tabs
      ensures r.Some? ==> r.value < |tabs|
    {
      match activeTabIndex
      case None => None
      case Some(a) => FindIndex(Entries(), a)
    }

    /** The active tab itself. */
    ghost function ActiveTab(): Tab
      requires ActivePlace().Some?
      reads this, tabs
    {
      tabs[ActivePlace().value]
    }

    /** The fields the tab operations leave alone. */
    ghost function Settings(): (Option<nat>, Rect, ModeInfo, nat)
      reads this
    {
      (maxPanes, positionAndSize, modeInfo, colors)
    }

    /** `Screen::new`: no tabs and none active. */
    constructor(maxPanes: Option<nat>, positionAndSize: Rect, modeInfo: ModeInfo, colors: nat)
      ensures Valid() && Contiguous(Entries())
      ensures tabs == [] && activeTabIndex == None
      ensures Settings() == (maxPanes, positionAndSize, modeInfo, colors)
    {
      this.tabs := [];
      this.activeTabIndex := None;
      this.maxPanes := maxPanes;
      this.positionAndSize := positionAndSize;
      this.modeInfo := modeInfo;
      this.colors := colors;
    }

    /** `get_new_tab_index`: one past the last key, or 0 without tabs. */
    function GetNewTabIndex(): (r: nat)
      reads this, tabs
      ensures r == NewIndex(Entries())
    {
      if tabs == [] then 0 else tabs[|tabs| - 1].index + 1
    }

    /** `get_active_tab`, as a place in the key order. */
    method GetActiveTab() returns (r: Option<nat>)
      ensures r == ActivePlace()
    {
      if activeTabIndex.None? {
        return None;
      }
      r := FindTab(activeTabIndex.value);
    }

    /** `tabs.get(&index)`, as a place in the key order. */
    method FindTab(index: nat) returns (r: Option<nat>)
      ensures r == FindIndex(Entries(), index)
    {
      var i := |tabs|;
      assert Entries()[..i] == Entries();
      while i > 0
        invariant 0 <= i <= |tabs|
        invariant FindIndex(Entries(), index) == FindIndex(Entries()[..i], index)
      {
        assert Entries()[..i][..i - 1] == Entries()[..i - 1];
        if tabs[i - 1].index == index {
          return Some(i - 1);
        }
        i := i - 1;
      }
      return None;
    }

    /** The loop of `switch_tab_next` and `switch_tab_prev`: the first tab, in key order, at `position`. */
    method FindTabAtPosition(position: nat) returns (r: Option<nat>)
      ensures r == FindPosition(Entries(), position)
    {
      var i := 0;
      while i < |tabs|
        invariant 0 <= i <= |tabs|
        invariant forall j | 0 <= j < i :: tabs[j].position != position
      {
        if tabs[i].position == position {
          return Some(i);
        }
        i := i + 1;
      }
      return None;
    }

    /**
     * `new_tab`: a tab holding one terminal over the whole screen, under the
     * next key and at the end of the tab bar, becomes the active tab.
     */
    method NewTab(paneId: int)
      requires Valid()
      modifies this`tabs, this`activeTabIndex
      ensures Valid()
      ensures |tabs| == |old(tabs)| + 1 && tabs[..|old(tabs)|] == old(tabs)
      ensures fresh(tabs[|old(tabs)|])
      ensures Entries() == old(Entries()) + [TabEntry(old(GetNewTabIndex()), |old(tabs)|)]
      ensures Contiguous(old(Entries())) ==> Contiguous(Entries())
      ensures activeTabIndex == Some(old(GetNewTabIndex()))
      ensures var t := tabs[|old(tabs)|];
        t.Valid() && t.name == "" && t.maxPanes == maxPanes && t.modeInfo == modeInfo &&
        t.panes == [NewTerminalPane(Terminal(paneId), positionAndSize)] &&
        t.activeTerminal == Some(Terminal(paneId)) && !t.fullscreenIsActive
    {
      var tabIndex := GetNewTabIndex();
      var position := |tabs|;
      ghost var before := Entries();
      var tab := new Tab(tabIndex, position, "", positionAndSize, maxPanes, Some(Terminal(paneId)), modeInfo);
      activeTabIndex := Some(tabIndex);
      tabs := tabs + [tab];
      assert Entries() == before + [TabEntry(tabIndex, position)];
      NewTabKeepsBar(before);
    }

    /** `switch_tab_next`: the tab one place further along the bar, wrapping to the first. */
    method SwitchTabNext()
      requires Valid() && ActivePlace().Some?
      modifies this`activeTabIndex
      ensures activeTabIndex == SwitchNext(old(Entries()), old(activeTabIndex).value)
    {
      ghost var es := Entries();
      var place := GetActiveTab();
      var activePosition := tabs[place.value].position;
      assert activePosition == PositionOf(es, activeTabIndex.value);
      var newPosition := NextPosition(activePosition, |tabs|);
      var at := FindTabAtPosition(newPosition);
      assert at == FindPosition(es, newPosition);
      if at.Some? {
        assert tabs[at.value].index == es[at.value].index;
        activeTabIndex := Some(tabs[at.value].index);
      }
    }

    /** `switch_tab_prev`: the tab one place back along the bar, wrapping to the last. */
    method SwitchTabPrev()
      requires Valid() && ActivePlace().Some?
      modifies this`activeTabIndex
      ensures activeTabIndex == SwitchPrevious(old(Entries()), old(activeTabIndex).value)
    {
      ghost var es := Entries();
      var place := GetActiveTab();
      var activePosition := tabs[place.value].position;
      assert activePosition == PositionOf(es, activeTabIndex.value);
      var newPosition := PreviousPosition(activePosition, |tabs|);
      var at := FindTabAtPosition(newPosition);
      assert at == FindPosition(es, newPosition);
      if at.Some? {
        assert tabs[at.value].index == es[at.value].index;
        activeTabIndex := Some(tabs[at.value].index);
      }
    }

    /**
     * `go_to_tab`: the tab at place `tabIndex` of the bar, counted from 1,
     * becomes active; nothing changes when no tab is there.
     */
    method GoToTab(tabIndex: nat)
      requires Valid() && tabIndex >= 1 && ActivePlace().Some?
      modifies this`activeTabIndex
      ensures activeTabIndex == SwitchTo(old(Entries()), old(activeTabIndex), tabIndex - 1)
    {
      var position := tabIndex - 1;
      var place := GetActiveTab();
      var active := tabs[place.value].index;
      var at := FindTabAtPosition(position);
      if at.Some? && tabs[at.value].index != active {
        activeTabIndex := Some(tabs[at.value].index);
      }
    }

    /**
     * `close_tab`: with other tabs left, the focus first moves back one
     * place on the bar; then the active tab leaves the map, the tabs after
     * it on the bar move one place left, and without tabs none is active.
     * The ids of the closed tab's panes are handed back to be closed.
     */
    method CloseTab() returns (closedPanes: seq<PaneId>)
      requires Valid() && ActivePlace().Some?
      modifies this`tabs, this`activeTabIndex, tabs`position
      ensures Valid()
      ensures Entries() == CloseEntries(old(Entries()), old(ActivePlace()).value)
      ensures closedPanes == old(tabs[ActivePlace().value].GetPaneIds())
      ensures tabs == old(tabs[..ActivePlace().value] + tabs[ActivePlace().value + 1..])
      ensures activeTabIndex ==
        if |old(tabs)| > 1 then SwitchPrevious(old(Entries()), old(activeTabIndex).value) else None
    {
      ghost var start := Entries();
      ghost var k0 := ActivePlace().value;
      var closing := activeTabIndex.value;
      if |tabs| > 1 {
        SwitchTabPrev();
        assert Entries() == start;
      }
      assert FindIndex(Entries(), closing) == Some(k0);
      closedPanes := RemoveTab(closing);
    }

    /**
     * The removal half of `close_tab`: the tab with key `closing` leaves the
     * map and the tabs right of it on the bar move one place left.
     */
    method RemoveTab(closing: nat) returns (closedPanes: seq<PaneId>)
      requires Valid() && FindIndex(Entries(), closing).Some?
      modifies this`tabs, this`activeTabIndex, tabs`position
      ensures Valid()
      ensures var k := old(FindIndex(Entries(), closing)).value;
        Entries() == CloseEntries(old(Entries()), k) &&
        closedPanes == old(tabs[k].GetPaneIds()) &&
        tabs == old(tabs[..k] + tabs[k + 1..])
      ensures activeTabIndex == if tabs == [] then None else old(activeTabIndex)
    {
      var place := FindTab(closing);
      var k := place.value;
      closedPanes := tabs[k].GetPaneIds();
      DropTabAt(k);
    }

    /**
     * The tab at place `k` of the key order leaves the map; the tabs right
     * of it on the bar move one place left.
     */
    method DropTabAt(k: nat)
      requires Valid() && k < |tabs|
      modifies this`tabs, this`activeTabIndex, tabs`position
      ensures Valid()
      ensures Entries() == CloseEntries(old(Entries()), k)
      ensures tabs == old(tabs[..k] + tabs[k + 1..])
      ensures activeTabIndex == if tabs == [] then None else old(activeTabIndex)
    {
      ghost var start := Entries();
      var closedPosition := tabs[k].position;
      tabs := tabs[..k] + tabs[k + 1..];
      EntriesAfterRemove(old(tabs), k);
      RemoveKeepsIndicesIncreasing(start, k);
      RenumberAfterClose(closedPosition);
      CloseEntriesAsShift(start, k);
      CloseKeepsIndicesIncreasing(start, k);
    }

    /**
     * The end of `close_tab` once the tab has left the map: without tabs
     * none is active; otherwise every tab right of `closed` on the bar
     * moves one place left.
     */
    method RenumberAfterClose(closed: nat)
      requires Valid()
      modifies this`activeTabIndex, tabs`position
      ensures Entries() == ShiftAll(old(Entries()), closed)
      ensures activeTabIndex == if tabs == [] then None else old(activeTabIndex)
    {
      if tabs == [] {
        activeTabIndex := None;
      } else {
        ShiftTabsAfter(closed);
      }
    }

    /** The renumbering loop of `close_tab`: every tab right of `closed` on the bar moves one place left. */
    method ShiftTabsAfter(closed: nat)
      requires Valid()
      modifies tabs`position
      ensures Entries() == ShiftAll(old(Entries()), closed)
    {
      var i := 0;
      while i < |tabs|
        invariant 0 <= i <= |tabs|
        invariant forall j | 0 <= j < i :: tabs[j].position == Shifted(old(Entries())[j], closed).position
        invariant forall j | i <= j < |tabs| :: tabs[j].position == old(tabs[j].position)
      {
        if tabs[i].position > closed {
          tabs[i].position := tabs[i].position - 1;
        }
        i := i + 1;
      }
      assert forall j | 0 <= j < |tabs| :: Entries()[j] == ShiftAll(old(Entries()), closed)[j];
    }

    /**
     * `update_active_tab_name`: NUL clears the active tab's name, delete
     * and backspace drop its last character, anything else is appended.
     */
    method UpdateActiveTabName(input: string)
      requires Valid() && ActivePlace().Some?
      modifies ActiveTab()`name
      ensures var t := tabs[old(ActivePlace()).value];
        t.name == EditName(old(t.name), input)
      ensures Entries() == old(Entries())
    {
      var place := GetActiveTab();
      var t := tabs[place.value];
      if input == CLEAR {
        t.name := "";
      } else if input == DELETE || input == BACKSPACE {
        if t.name != "" {
          t.name := t.name[..|t.name| - 1];
        }
      } else {
        t.name := t.name + input;
      }
    }

    /** `change_mode`: the new mode and its palette reach the screen and every tab. */
    method ChangeMode(mi: ModeInfo)
      requires Valid()
      modifies this`colors, this`modeInfo, tabs`modeInfo
      ensures colors == mi.palette && modeInfo == mi
      ensures Entries() == old(Entries())
      ensures forall j | 0 <= j < |tabs| :: tabs[j].modeInfo == mi
    {
      colors := mi.palette;
      modeInfo := mi;
      var i := 0;
      while i < |tabs|
        invariant 0 <= i <= |tabs|
        invariant colors == mi.palette && modeInfo == mi
        invariant forall j | 0 <= j < i :: tabs[j].modeInfo == mi
      {
        tabs[i].modeInfo := mi;
        i := i + 1;
      }
    }

    /** The `ToggleActiveSyncTab` instruction: the active tab's synchronised input flips. */
    method ToggleActiveSyncTab()
      requires Valid() && ActivePlace().Some?
      modifies ActiveTab()`synchronizeIsActive
      ensures var t := tabs[old(ActivePlace()).value];
        t.synchronizeIsActive == !old(t.synchronizeIsActive)
      ensures Entries() == old(Entries())
    {
      var place := GetActiveTab();
      tabs[place.value].ToggleSyncPanesIsActive();
    }
  }
}
