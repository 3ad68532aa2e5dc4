/**
 * The `Tab` of zellij-server/src/tab.rs as a class: a map of panes kept as
 * a sequence in key order, the active pane, the fullscreen and
 * synchronisation flags. Each method is proved against the layout function
 * of the same name in `TabLayouts`.
 */
module Tabs {
  import opened Wrappers
  import opened Panes
  import opened PaneMaps
  import opened Focus
  import opened TabLayouts

  /** The input mode and colour palette a tab draws with; their contents do not matter here. */
  datatype ModeInfo = ModeInfo(mode: nat, palette: nat)

  class Tab {
    var index: nat
    var position: nat
    var name: string
    var panes: seq<Pane>
    var panesToHide: set<PaneId>
    var activeTerminal: Option<PaneId>
    var maxPanes: Option<nat>
    var fullScreenWs: Rect
    var fullscreenIsActive: bool
    var synchronizeIsActive: bool
    var modeInfo: ModeInfo

    /** The part of the tab the pane operations change. */
    function State(): Layout
      reads this
    {
      Layout(panes, panesToHide, activeTerminal, fullscreenIsActive)
    }

    ghost predicate Valid()
      reads this
    {
      ValidLayout(State())
    }

    /** The fields no pane operation changes. */
    ghost function Settings(): (nat, nat, string, Option<nat>, Rect, bool, ModeInfo)
      reads this
    {
      (index, position, name, maxPanes, fullScreenWs, synchronizeIsActive, modeInfo)
    }

    /**
     * `Tab::new`: a terminal pane id gives a tab holding that terminal over
     * the whole screen; any other start leaves the tab empty. The given id
     * is the active pane either way.
     */
    constructor(index: nat, position: nat, name: string, fullScreenWs: Rect, maxPanes: Option<nat>,
                paneId: Option<PaneId>, modeInfo: ModeInfo)
      ensures Valid()
      ensures Settings() == (index, position, name, maxPanes, fullScreenWs, false, modeInfo)
      ensures panes == if paneId.Some? && paneId.value.Terminal? then [NewTerminalPane(paneId.value, fullScreenWs)] else []
      ensures activeTerminal == paneId && panesToHide == {} && !fullscreenIsActive
    {
      this.index := index;
      this.position := position;
      this.name := name;
      this.panes := if paneId.Some? && paneId.value.Terminal? then [NewTerminalPane(paneId.value, fullScreenWs)] else [];
      this.panesToHide := {};
      this.activeTerminal := paneId;
      this.maxPanes := maxPanes;
      this.fullScreenWs := fullScreenWs;
      this.fullscreenIsActive := false;
      this.synchronizeIsActive := false;
      this.modeInfo := modeInfo;
    }

    predicate HasPanes()
      reads this
    {
      panes != []
    }

    predicate HasSelectablePanes()
      reads this
    {
      SelectableIds(panes) != []
    }

    /** `get_active_pane`: the active pane, if there is one and it is in the tab. */
    function GetActivePane(): (r: Option<Pane>)
      reads this
      ensures r.Some? ==> r.value in panes && activeTerminal == Some(r.value.id)
      ensures r.None? <==> activeTerminal.None? || activeTerminal.value !in Ids(panes)
    {
      match activeTerminal
      case None => None
      case Some(a) => if a in Ids(panes) then Some(Lookup(panes, a)) else None
    }

    /** `get_pane_ids`: the pane ids in key order. */
    function GetPaneIds(): (r: seq<PaneId>)
      reads this
      ensures |r| == |panes| && forall i | 0 <= i < |panes| :: r[i] == panes[i].id
      ensures IdsIncreasing(panes) ==> Increasing(r)
    {
      IdsIncreasingAreIncreasing(panes);
      Ids(panes)
    }

    /**
     * `pane_ids_directly_left_of` (side `Left`) and its three siblings: the
     * ids, in key order, of the panes whose border touches the pane `id`
     * on that side, or None when there are none.
     */
    method PaneIdsDirectly(id: PaneId, side: Side) returns (r: Option<seq<PaneId>>)
      requires id in Ids(panes)
      ensures r == NeighbourGroup(panes, Lookup(panes, id), side)
      ensures r.Some? ==> forall q | q in r.value :: exists p | p in panes :: p.id == q && Adjacent(p, Lookup(panes, id), side)
      ensures r.None? ==> forall p | p in panes :: !Adjacent(p, Lookup(panes, id), side)
    {
      var t := Lookup(panes, id);
      if side == Left && t.x == 0 {
        NothingLeftOfFirstColumn(panes, t);
        return None;
      }
      var ids: seq<PaneId> := [];
      var i := 0;
      while i < |panes|
        invariant 0 <= i <= |panes|
        invariant ids == Neighbours(panes[..i], t, side)
      {
        var p := panes[i];
        var touches := match side
          case Left => p.x + p.columns == t.x - 1
          case Right => p.x == t.x + t.columns + 1
          case Below => p.y == t.y + t.rows + 1
          case Above => p.y + p.rows + 1 == t.y;
        assert touches == Adjacent(p, t, side);
        NeighboursStep(panes, i, t, side);
        if touches {
          ids := ids + [p.id];
        }
        i := i + 1;
      }
      assert panes[..i] == panes;
      r := if ids == [] then None else Some(ids);
    }

    /** `toggle_fullscreen_is_active`. */
    method ToggleFullscreenIsActive()
      modifies this`fullscreenIsActive
      ensures fullscreenIsActive == !old(fullscreenIsActive)
    {
      fullscreenIsActive := !fullscreenIsActive;
    }

    /** `toggle_sync_panes_is_active`. */
    method ToggleSyncPanesIsActive()
      modifies this`synchronizeIsActive
      ensures synchronizeIsActive == !old(synchronizeIsActive)
    {
      synchronizeIsActive := !synchronizeIsActive;
    }

    /** `toggle_active_pane_fullscreen`. */
    method ToggleActivePaneFullscreen()
      requires Valid() && CanToggleFullscreen(State())
      modifies this`panesToHide, this`fullscreenIsActive
      ensures Valid()
      ensures State() == ToggleFullscreen(old(State()))
    {
      if activeTerminal.Some? {
        var active := activeTerminal.value;
        if fullscreenIsActive {
          panesToHide := {};
        } else {
          panesToHide := set q | q in Ids(panes) && q != active;
          if panesToHide == {} {
            return;
          }
        }
        ToggleFullscreenIsActive();
      }
    }

    /** The unwraps of the focus methods: with selectable panes and no fullscreen, the active pane is selectable. */
    predicate CanCycleFocus()
      reads this
    {
      HasSelectablePanes() && !fullscreenIsActive ==>
        activeTerminal.Some? && activeTerminal.value in SelectableIds(panes)
    }

    /**
     * `move_focus`: the focus goes to the next selectable pane in key
     * order, from the last to the first; nothing happens in fullscreen or
     * without selectable panes.
     */
    method MoveFocus()
      requires Valid() && CanCycleFocus()
      modifies this`activeTerminal
      ensures Valid()
      ensures activeTerminal ==
        if old(HasSelectablePanes()) && !old(fullscreenIsActive)
        then Some(NextInCycle(SelectableIds(old(panes)), old(activeTerminal).value))
        else old(activeTerminal)
    {
      if !HasSelectablePanes() || fullscreenIsActive {
        return;
      }
      activeTerminal := Some(NextInCycle(SelectableIds(panes), activeTerminal.value));
    }

    /**
     * `focus_next_pane`: the focus goes to the next selectable pane in
     * reading order (by row, then by column), from the last to the first.
     */
    method FocusNextPane()
      requires Valid() && CanCycleFocus()
      modifies this`activeTerminal
      ensures Valid()
      ensures activeTerminal ==
        if old(HasSelectablePanes()) && !old(fullscreenIsActive)
        then Some(NextInCycle(FocusOrder(old(panes)), old(activeTerminal).value))
        else old(activeTerminal)
    {
      if !HasSelectablePanes() || fullscreenIsActive {
        return;
      }
      activeTerminal := Some(NextInCycle(FocusOrder(panes), activeTerminal.value));
    }

    /**
     * `focus_previous_pane`: the focus goes to the previous selectable pane
     * in reading order, from the first to the last.
     */
    method FocusPreviousPane()
      requires Valid() && CanCycleFocus()
      modifies this`activeTerminal
      ensures Valid()
      ensures activeTerminal ==
        if old(HasSelectablePanes()) && !old(fullscreenIsActive)
        then Some(PreviousInCycle(FocusOrder(old(panes)), old(activeTerminal).value))
        else old(activeTerminal)
    {
      if !HasSelectablePanes() || fullscreenIsActive {
        return;
      }
      activeTerminal := Some(PreviousInCycle(FocusOrder(panes), activeTerminal.value));
    }

    /**
     * `increase_pane_width_right`, `increase_pane_width_left`,
     * `increase_pane_height_down` and `increase_pane_height_up`: the pane
     * `id` grows toward a closed pane on `side`.
     */
    method IncreasePane(id: PaneId, side: Side, count: nat)
      requires id in Ids(panes)
      requires side == Right ==> Lookup(panes, id).x >= count
      requires side == Below ==> Lookup(panes, id).y >= count
      modifies this`panes
      ensures var k := IndexOf(old(panes), id).value;
        panes == old(panes)[k := Grow(old(panes)[k], side, count)]
    {
      var k := IndexOf(panes, id).value;
      panes := panes[k := Grow(panes[k], side, count)];
    }

    /**
     * `close_pane_without_rerender`: fullscreen ends; then, when `id` is a
     * pane of the tab, the first neighbour group that lines up with it and
     * may grow takes over its space, and it leaves the tab.
     */
    method ClosePaneWithoutRerender(id: PaneId)
      requires Valid()
      modifies this`panes, this`panesToHide, this`activeTerminal, this`fullscreenIsActive
      ensures Valid()
      ensures State() == CloseLayoutPane(old(State()), id)
    {
      ghost var before := State();
      if fullscreenIsActive {
        ToggleActivePaneFullscreen();
      }
      assert State() == FullscreenOff(before);
      RemoveClosedPane(id);
    }

    /** The part of `close_pane_without_rerender` after fullscreen has ended. */
    method RemoveClosedPane(id: PaneId)
      requires Valid() && !fullscreenIsActive
      modifies this`panes, this`activeTerminal
      ensures Valid()
      ensures State() == CloseLayoutPane(old(State()), id)
    {
      ghost var open := State();
      var found := IndexOf(panes, id);
      if found.None? {
        CloseMissingPane(open, id);
        return;
      }
      var k := found.value;
      var closing := panes[k];
      var absorbing := Absorbing(panes, closing);
      if absorbing.None? {
        CloseLeavesGap(open, id, k);
        panes := RemovePane(panes, id);
        return;
      }
      var (side, group) := absorbing.value;
      CloseHandsSpaceToGroup(open, id, k);
      AbsorbClosedPane(k, side, group);
    }

    /**
     * The branch of `close_pane_without_rerender` where a group takes over
     * the space of the pane at `k`: the group grows, the pane goes, and its
     * focus passes to the group's `next_active_pane`.
     */
    method AbsorbClosedPane(k: nat, side: Side, group: seq<PaneId>)
      requires IdsIncreasing(panes) && k < |panes| && Absorbs(panes, panes[k], side, group)
      modifies this`panes, this`activeTerminal
      ensures panes == AbsorbInto(old(panes), k, side, group)
      ensures activeTerminal ==
        if old(activeTerminal) == Some(old(panes)[k].id) then NextActivePane(panes, group) else old(activeTerminal)
    {
      var closing := panes[k];
      AbsorbIntoInSteps(panes, k, side, group);
      GrowGroup(group, side, Amount(closing, side));
      panes := RemovePane(panes, closing.id);
      if activeTerminal == Some(closing.id) {
        activeTerminal := NextActivePane(panes, group);
      }
    }

    /** The loop of `close_pane_without_rerender` that grows every pane of the group by `count`. */
    method GrowGroup(group: seq<PaneId>, side: Side, count: nat)
      requires IdsIncreasing(panes) && Increasing(group)
      requires forall q | q in group :: q in Ids(panes)
      requires RoomToGrow(panes, group, side, count)
      modifies this`panes
      ensures panes == GrowMembers(old(panes), group, side, count)
    {
      ghost var before := panes;
      var j := 0;
      while j < |group|
        invariant 0 <= j <= |group|
        invariant RoomToGrow(before, group[..j], side, count)
        invariant panes == GrowMembers(before, group[..j], side, count)
      {
        var member := IndexOf(before, group[j]).value;
        GrowStepReady(before, group, j, member, side, count);
        IncreasePane(group[j], side, count);
        j := j + 1;
      }
      assert group[..j] == group;
    }

    /** `close_pane`: only a pane of the tab is closed. */
    method ClosePane(id: PaneId)
      requires Valid()
      modifies this`panes, this`panesToHide, this`activeTerminal, this`fullscreenIsActive
      ensures Valid()
      ensures State() == if id in Ids(old(panes)) then CloseLayoutPane(old(State()), id) else old(State())
    {
      if id in Ids(panes) {
        ClosePaneWithoutRerender(id);
      }
    }

    /** `close_focused_pane`: closes the active pane, if any. */
    method CloseFocusedPane()
      requires Valid()
      modifies this`panes, this`panesToHide, this`activeTerminal, this`fullscreenIsActive
      ensures Valid()
      ensures State() ==
        if old(activeTerminal).Some? && old(activeTerminal).value in Ids(old(panes))
        then CloseLayoutPane(old(State()), old(activeTerminal).value)
        else old(State())
    {
      if activeTerminal.Some? {
        ClosePane(activeTerminal.value);
      }
    }

    /**
     * `close_down_to_max_terminals`: with a maximum of `m` panes, the panes
     * from the `m`-th on, in key order, are closed one by one.
     */
    method CloseDownToMaxTerminals()
      requires Valid() && maxPanes != Some(0)
      modifies this`panes, this`panesToHide, this`activeTerminal, this`fullscreenIsActive
      ensures Valid()
      ensures State() == CloseDownToMax(old(State()), old(maxPanes))
    {
      if maxPanes.None? {
        return;
      }
      var m := maxPanes.value;
      var ids := GetPaneIds();
      var toClose := if m - 1 <= |ids| then ids[m - 1..] else [];
      ghost var start := State();
      var j := 0;
      while j < |toClose|
        invariant 0 <= j <= |toClose|
        invariant Valid()
        invariant State() == CloseAll(start, toClose[..j])
      {
        CloseAllStep(start, toClose, j);
        ClosePaneWithoutRerender(toClose[j]);
        j := j + 1;
      }
      assert toClose[..j] == toClose;
    }

    /**
     * What `horizontal_split` and `vertical_split` unwrap once the tab was
     * closed down to its maximum: a tab with panes has its active pane
     * among them.
     */
    predicate CanSplitActive()
      reads this
      requires Valid() && maxPanes != Some(0)
    {
      CanSplit(CloseDownToMax(State(), maxPanes))
    }

    /**
     * `horizontal_split` (`horizontal` true) and `vertical_split`: close
     * down to the maximum, end fullscreen, then put the new terminal `pid`
     * over the whole screen in an empty tab, or in the second half of the
     * active pane when that pane is large enough.
     */
    method SplitActivePane(pid: PaneId, horizontal: bool)
      requires Valid() && maxPanes != Some(0)
      requires pid.Terminal? ==> CanSplitActive()
      modifies this`panes, this`panesToHide, this`activeTerminal, this`fullscreenIsActive
      ensures Valid()
      ensures State() == Split(FullscreenOff(CloseDownToMax(old(State()), old(maxPanes))), pid, old(fullScreenWs), horizontal)
    {
      CloseDownToMaxTerminals();
      if fullscreenIsActive {
        ToggleActivePaneFullscreen();
      }
      SplitOpenTab(pid, horizontal);
    }

    /**
     * The part of `horizontal_split` and `vertical_split` after fullscreen
     * is off: the new terminal goes over the whole screen in an empty tab,
     * or into the second half of a large enough active pane.
     */
    method SplitOpenTab(pid: PaneId, horizontal: bool)
      requires Valid() && !fullscreenIsActive
      requires pid.Terminal? ==> CanSplit(State())
      modifies this`panes, this`panesToHide, this`activeTerminal, this`fullscreenIsActive
      ensures Valid()
      ensures State() == Split(old(State()), pid, old(fullScreenWs), horizontal)
    {
      if !HasPanes() {
        if pid.Terminal? {
          panes := [NewTerminalPane(pid, fullScreenWs)];
          activeTerminal := Some(pid);
        }
      } else if pid.Terminal? {
        var activeId := activeTerminal.value;
        var k := IndexOf(panes, activeId).value;
        var active := panes[k];
        if horizontal && active.rows < MIN_TERMINAL_HEIGHT * 2 + 1 {
          return;
        }
        if !horizontal && active.columns < MIN_TERMINAL_WIDTH * 2 + 1 {
          return;
        }
        panes := SplitPane(panes, k, pid, horizontal);
        activeTerminal := Some(pid);
      }
    }

    /** `horizontal_split`: the new terminal goes below the active pane. */
    method HorizontalSplit(pid: PaneId)
      requires Valid() && maxPanes != Some(0)
      requires pid.Terminal? ==> CanSplitActive()
      modifies this`panes, this`panesToHide, this`activeTerminal, this`fullscreenIsActive
      ensures Valid()
      ensures State() == Split(FullscreenOff(CloseDownToMax(old(State()), old(maxPanes))), pid, old(fullScreenWs), true)
    {
      SplitActivePane(pid, true);
    }

    /** `vertical_split`: the new terminal goes right of the active pane. */
    method VerticalSplit(pid: PaneId)
      requires Valid() && maxPanes != Some(0)
      requires pid.Terminal? ==> CanSplitActive()
      modifies this`panes, this`panesToHide, this`activeTerminal, this`fullscreenIsActive
      ensures Valid()
      ensures State() == Split(FullscreenOff(CloseDownToMax(old(State()), old(maxPanes))), pid, old(fullScreenWs), false)
    {
      SplitActivePane(pid, false);
    }
  }
}
