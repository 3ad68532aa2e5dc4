/**
 * What the pane operations of a tab (zellij-server/src/tab.rs) do to its
 * layout, stated on values: the fullscreen toggle, the neighbour searches,
 * closing a pane and letting its neighbours take its space, closing down to
 * the maximum number of panes, and splitting the active pane.
 */
module TabLayouts {
  import opened Wrappers
  import opened Panes
  import opened PaneMaps
  import opened Focus

  /**
   * The part of a tab that the pane operations change: the panes in id
   * order, the panes hidden behind a fullscreen pane, the active pane and
   * whether the active pane is fullscreen.
   */
  datatype Layout = Layout(panes: seq<Pane>, hidden: set<PaneId>, active: Option<PaneId>, fullscreen: bool)

  /**
   * The keys are in order; a fullscreen tab has an active pane, and it and
   * the panes hidden behind it are panes of the tab.
   */
  predicate ValidLayout(l: Layout)
  {
    IdsIncreasing(l.panes) &&
    (l.fullscreen ==>
      l.active.Some? && l.active.value in Ids(l.panes) &&
      forall h | h in l.hidden :: h in Ids(l.panes))
  }

  // ---------------------------------------------------------------------------
  // Fullscreen
  // ---------------------------------------------------------------------------

  /** The pane ids other than the active one (`active` is Some). */
  function OtherIds(l: Layout): set<PaneId>
    requires l.active.Some?
  {
    set q | q in Ids(l.panes) && q != l.active.value
  }

  /**
   * What `toggle_active_pane_fullscreen` unwraps: entering fullscreen looks
   * the active pane up as soon as there is another pane to hide.
   */
  predicate CanToggleFullscreen(l: Layout)
  {
    l.active.Some? && !l.fullscreen && OtherIds(l) != {} ==> l.active.value in Ids(l.panes)
  }

  /**
   * `toggle_active_pane_fullscreen`: without an active pane nothing happens;
   * leaving fullscreen shows every hidden pane again; entering it hides
   * every other pane, and when there is none the tab stays as it is.
   */
  function ToggleFullscreen(l: Layout): (r: Layout)
    requires ValidLayout(l) && CanToggleFullscreen(l)
    ensures ValidLayout(r)
    ensures r.panes == l.panes && r.active == l.active
    ensures l.active.Some? && l.fullscreen ==> !r.fullscreen && r.hidden == {}
  {
    if l.active.None? then l
    else if l.fullscreen then l.(hidden := {}, fullscreen := false)
    else
      var others := OtherIds(l);
      l.(hidden := others, fullscreen := others != {})
  }

  /**
   * Entering fullscreen with another pane in the tab hides exactly the
   * other panes and never the active one.
   */
  lemma FullscreenHidesOthers(l: Layout)
    requires ValidLayout(l) && CanToggleFullscreen(l)
    requires l.active.Some? && !l.fullscreen
    requires exists q | q in Ids(l.panes) :: q != l.active.value
    ensures var r := ToggleFullscreen(l);
      r.fullscreen && l.active.value !in r.hidden &&
      forall q :: q in r.hidden <==> q in Ids(l.panes) && q != l.active.value
  {
    var q :| q in Ids(l.panes) && q != l.active.value;
    assert q in OtherIds(l);
  }

  /** Toggling fullscreen on and off again gives back a tab that hid nothing. */
  lemma FullscreenTwiceRestores(l: Layout)
    requires ValidLayout(l) && CanToggleFullscreen(l)
    requires !l.fullscreen && l.hidden == {}
    ensures CanToggleFullscreen(ToggleFullscreen(l))
    ensures ToggleFullscreen(ToggleFullscreen(l)) == l
  {
  }

  /** `if self.fullscreen_is_active { self.toggle_active_pane_fullscreen() }`. */
  function FullscreenOff(l: Layout): (r: Layout)
    requires ValidLayout(l)
    ensures ValidLayout(r) && !r.fullscreen
    ensures r.panes == l.panes && r.active == l.active
    ensures !l.fullscreen ==> r == l
  {
    if l.fullscreen then ToggleFullscreen(l) else l
  }

  // ---------------------------------------------------------------------------
  // Neighbours
  // ---------------------------------------------------------------------------

  /** The panes on `side` of `t`, in key order: the filter of the `pane_ids_directly_*` searches. */
  function NeighbourPanes(ps: seq<Pane>, t: Pane, side: Side): (r: seq<Pane>)
    ensures forall p :: p in r <==> p in ps && Adjacent(p, t, side)
    ensures IdsIncreasing(ps) ==> IdsIncreasing(r)
  {
    if ps == [] then []
    else
      var rest := NeighbourPanes(ps[..|ps| - 1], t, side);
      var last := ps[|ps| - 1];
      assert forall p :: p in ps <==> p in ps[..|ps| - 1] || p == last by {
        assert ps == ps[..|ps| - 1] + [last];
      }
      if IdsIncreasing(ps) then
        forall p | p in rest ensures IdBefore(p.id, last.id) {
          var i :| 0 <= i < |ps| - 1 && ps[i] == p;
        }
        if Adjacent(last, t, side) then rest + [last] else rest
      else
        if Adjacent(last, t, side) then rest + [last] else rest
  }

  /** The ids of the panes on `side` of `t`, in key order. */
  function Neighbours(ps: seq<Pane>, t: Pane, side: Side): (r: seq<PaneId>)
    ensures forall q :: q in r <==> exists p | p in ps :: p.id == q && Adjacent(p, t, side)
    ensures IdsIncreasing(ps) ==> Increasing(r)
    ensures r == [] <==> forall p | p in ps :: !Adjacent(p, t, side)
  {
    var n := NeighbourPanes(ps, t, side);
    IdsMembership(n);
    if n != [] then
      assert n[0] in n;
      Ids(n)
    else
      Ids(n)
  }

  /** The result of a `pane_ids_directly_*` search: None when no pane is on that side. */
  function NeighbourGroup(ps: seq<Pane>, t: Pane, side: Side): (r: Option<seq<PaneId>>)
    ensures r.Some? ==> r.value == Neighbours(ps, t, side) && r.value != []
    ensures r.None? <==> forall p | p in ps :: !Adjacent(p, t, side)
  {
    var ids := Neighbours(ps, t, side);
    if ids == [] then None else Some(ids)
  }

  /** One more pane searched: the loop step of the `pane_ids_directly_*` searches. */
  lemma NeighboursStep(ps: seq<Pane>, i: nat, t: Pane, side: Side)
    requires i < |ps|
    ensures Neighbours(ps[..i + 1], t, side) ==
      Neighbours(ps[..i], t, side) + (if Adjacent(ps[i], t, side) then [ps[i].id] else [])
  {
    assert ps[..i + 1][..i] == ps[..i];
    var n := NeighbourPanes(ps[..i], t, side);
    assert Ids(n + [ps[i]]) == Ids(n) + [ps[i].id];
  }

  /** `pane_ids_directly_left_of` returns None at once for a pane in the first column; no pane is left of it anyway. */
  lemma NothingLeftOfFirstColumn(ps: seq<Pane>, t: Pane)
    requires t.x == 0
    ensures NeighbourGroup(ps, t, Left) == None
  {
  }

  /** The border rows (or columns) of a group of panes: `horizontal_borders` and `vertical_borders`. */
  function Edges(p: Pane, side: Side): set<nat>
  {
    if side in {Left, Right} then {p.y, p.y + p.rows + 1} else {p.x, p.x + p.columns + 1}
  }

  function GroupBorders(ps: seq<Pane>, group: seq<PaneId>, side: Side): (r: set<nat>)
    requires forall q | q in group :: q in Ids(ps)
    ensures forall q | q in group :: Edges(Lookup(ps, q), side) <= r
  {
    if group == [] then {}
    else
      var init := group[..|group| - 1];
      assert forall q :: q in group <==> q in init || q == group[|group| - 1] by {
        assert group == init + [group[|group| - 1]];
      }
      GroupBorders(ps, init, side) + Edges(Lookup(ps, group[|group| - 1]), side)
  }

  /** `pane_is_between_horizontal_borders` / `pane_is_between_vertical_borders` with the closing pane's borders. */
  predicate Between(p: Pane, t: Pane, side: Side)
  {
    if side in {Left, Right} then p.y >= t.y && p.y + p.rows <= t.y + t.rows + 1
    else p.x >= t.x && p.x + p.columns <= t.x + t.columns + 1
  }

  /** `Vec::retain` with `Between`. */
  function KeepBetween(ps: seq<Pane>, group: seq<PaneId>, t: Pane, side: Side): (r: seq<PaneId>)
    requires forall q | q in group :: q in Ids(ps)
    ensures forall q :: q in r <==> q in group && Between(Lookup(ps, q), t, side)
    ensures Increasing(group) ==> Increasing(r)
  {
    if group == [] then []
    else
      var init := group[..|group| - 1];
      var last := group[|group| - 1];
      assert forall q :: q in group <==> q in init || q == last by {
        assert group == init + [last];
      }
      var rest := KeepBetween(ps, init, t, side);
      if Increasing(group) then
        forall q | q in rest ensures IdBefore(q, last) {
          var i :| 0 <= i < |init| && init[i] == q;
        }
        if Between(Lookup(ps, last), t, side) then rest + [last] else rest
      else
        if Between(Lookup(ps, last), t, side) then rest + [last] else rest
  }

  /** The closing pane's two borders across `side`. */
  function CloseBorders(t: Pane, side: Side): (nat, nat)
  {
    if side in {Left, Right} then (t.y, t.y + t.rows + 1) else (t.x, t.x + t.columns + 1)
  }

  /**
   * `panes_to_the_left_between_aligning_borders` and its three siblings:
   * when the neighbours on `side` have borders on both of the closing
   * pane's borders, the neighbours that lie between those borders.
   */
  function AligningGroup(ps: seq<Pane>, t: Pane, side: Side): (r: Option<seq<PaneId>>)
    requires IdsIncreasing(ps)
    ensures r.Some? ==> Increasing(r.value)
    ensures r.Some? ==> forall q | q in r.value ::
      q in Ids(ps) && Adjacent(Lookup(ps, q), t, side) && Between(Lookup(ps, q), t, side)
  {
    match NeighbourGroup(ps, t, side)
    case None => None
    case Some(group) =>
      NeighboursAreKeys(ps, t, side);
      var borders := GroupBorders(ps, group, side);
      var (near, far) := CloseBorders(t, side);
      if near in borders && far in borders then Some(KeepBetween(ps, group, t, side)) else None
  }

  lemma NeighboursAreKeys(ps: seq<Pane>, t: Pane, side: Side)
    requires IdsIncreasing(ps)
    ensures forall q | q in Neighbours(ps, t, side) :: q in Ids(ps) && Adjacent(Lookup(ps, q), t, side)
  {
    forall q | q in Neighbours(ps, t, side) ensures q in Ids(ps) && Adjacent(Lookup(ps, q), t, side) {
      var p :| p in ps && p.id == q && Adjacent(p, t, side);
      LookupKey(ps, p);
    }
  }

  // ---------------------------------------------------------------------------
  // Closing a pane
  // ---------------------------------------------------------------------------


  /** `panes.iter().all(|p| p.can_increase_width_by(..))` (or height). */
  predicate GroupCanGrow(ps: seq<Pane>, group: seq<PaneId>, side: Side, count: nat)
    requires forall q | q in group :: q in Ids(ps)
  {
    forall q | q in group :: CanGrow(Lookup(ps, q), side, count)
  }

  /** One of the four attempts of `close_pane_without_rerender`. */
  /**
   * A group of panes, in key order, that may take over the space of `t`
   * from `side`: each lies on that side, between the borders of `t`, and
   * may grow by the width (or height) of `t` and its border.
   */
  predicate Absorbs(ps: seq<Pane>, t: Pane, side: Side, group: seq<PaneId>)
  {
    Increasing(group) &&
    forall q | q in group ::
      q in Ids(ps) && Adjacent(Lookup(ps, q), t, side) && Between(Lookup(ps, q), t, side) &&
      CanGrow(Lookup(ps, q), side, Amount(t, side))
  }

  function TryAbsorb(ps: seq<Pane>, t: Pane, side: Side): (r: Option<seq<PaneId>>)
    requires IdsIncreasing(ps)
    ensures r.Some? ==> Absorbs(ps, t, side, r.value)
  {
    match AligningGroup(ps, t, side)
    case None => None
    case Some(group) => if GroupCanGrow(ps, group, side, Amount(t, side)) then Some(group) else None
  }

  /** The side at `k` is the first of `sides` whose group, `g`, may take over the closing pane's space. */
  predicate AbsorbsFirstAt(ps: seq<Pane>, t: Pane, sides: seq<Side>, k: int, g: seq<PaneId>)
    requires IdsIncreasing(ps)
  {
    0 <= k < |sides| && TryAbsorb(ps, t, sides[k]) == Some(g) &&
    forall j | 0 <= j < k :: TryAbsorb(ps, t, sides[j]).None?
  }

  lemma AbsorbsFirstAtShift(ps: seq<Pane>, t: Pane, sides: seq<Side>, k: int, g: seq<PaneId>)
    requires IdsIncreasing(ps) && sides != [] && TryAbsorb(ps, t, sides[0]).None?
    requires AbsorbsFirstAt(ps, t, sides[1..], k, g)
    ensures AbsorbsFirstAt(ps, t, sides, k + 1, g) && sides[k + 1] == sides[1..][k]
  {
    assert forall j | 1 <= j < k + 1 :: sides[j] == sides[1..][j - 1];
  }

  /**
   * The first of `sides` whose group may take over the closing pane's
   * space, with that group.
   */
  function FirstAbsorbing(ps: seq<Pane>, t: Pane, sides: seq<Side>): (r: Option<(Side, seq<PaneId>)>)
    requires IdsIncreasing(ps)
    ensures r.Some? ==> exists k :: AbsorbsFirstAt(ps, t, sides, k, r.value.1) && sides[k] == r.value.0
    ensures r.None? ==> forall side | side in sides :: TryAbsorb(ps, t, side).None?
    ensures r.Some? ==> Absorbs(ps, t, r.value.0, r.value.1)
  {
    if sides == [] then None
    else
      match TryAbsorb(ps, t, sides[0])
      case Some(g) =>
        assert AbsorbsFirstAt(ps, t, sides, 0, g);
        Some((sides[0], g))
      case None =>
        var r := FirstAbsorbing(ps, t, sides[1..]);
        if r.Some? then
          var k :| AbsorbsFirstAt(ps, t, sides[1..], k, r.value.1) && sides[1..][k] == r.value.0;
          AbsorbsFirstAtShift(ps, t, sides, k, r.value.1);
          r
        else
          assert forall side | side in sides :: side == sides[0] || side in sides[1..];
          r
  }

  /**
   * The group that takes over the closing pane's space: the group on the
   * left, else the one on the right, else the one above, else the one
   * below, whichever first lines up with the closing pane and may grow.
   */
  function Absorbing(ps: seq<Pane>, t: Pane): (r: Option<(Side, seq<PaneId>)>)
    requires IdsIncreasing(ps)
    ensures r.Some? ==> Absorbs(ps, t, r.value.0, r.value.1)
  {
    FirstAbsorbing(ps, t, [Left, Right, Above, Below])
  }

  /**
   * The side whose group takes the closing pane's space qualifies and
   * every side tried before it does not; when none qualifies, no side does.
   */
  lemma AbsorbingIsFirstQualifying(ps: seq<Pane>, t: Pane)
    requires IdsIncreasing(ps)
    ensures var r := Absorbing(ps, t);
      (r.Some? ==> (TryAbsorb(ps, t, r.value.0) == Some(r.value.1) &&
        (r.value.0 != Left ==> TryAbsorb(ps, t, Left).None?) &&
        (r.value.0 in {Above, Below} ==> TryAbsorb(ps, t, Right).None?) &&
        (r.value.0 == Below ==> TryAbsorb(ps, t, Above).None?))) &&
      (r.None? ==> forall side :: TryAbsorb(ps, t, side).None?)
  {
    var sides := [Left, Right, Above, Below];
    var r := Absorbing(ps, t);
    if r.Some? {
      var k :| AbsorbsFirstAt(ps, t, sides, k, r.value.1) && sides[k] == r.value.0;
      if k > 0 {
        assert TryAbsorb(ps, t, sides[0]).None?;
      }
      if k > 1 {
        assert TryAbsorb(ps, t, sides[1]).None?;
      }
      if k > 2 {
        assert TryAbsorb(ps, t, sides[2]).None?;
      }
    } else {
      forall side: Side ensures TryAbsorb(ps, t, side).None? {
        match side
        case Left => assert sides[0] == side;
        case Right => assert sides[1] == side;
        case Above => assert sides[2] == side;
        case Below => assert sides[3] == side;
      }
    }
  }

  /** Every pane of `members` has room to move `count` cells toward the closed pane. */
  predicate RoomToGrow(ps: seq<Pane>, members: seq<PaneId>, side: Side, count: nat) {
    forall i | 0 <= i < |ps| && ps[i].id in members ::
      (side == Right ==> ps[i].x >= count) && (side == Below ==> ps[i].y >= count)
  }

  /** Every pane of `members` grows toward the closed pane; the others stay. */
  function GrowMembers(ps: seq<Pane>, members: seq<PaneId>, side: Side, count: nat): (r: seq<Pane>)
    requires RoomToGrow(ps, members, side, count)
    ensures |r| == |ps| && Ids(r) == Ids(ps)
    ensures forall i | 0 <= i < |ps| :: r[i] == if ps[i].id in members then Grow(ps[i], side, count) else ps[i]
  {
    var r := seq(|ps|, i requires 0 <= i < |ps| => if ps[i].id in members then Grow(ps[i], side, count) else ps[i]);
    assert Ids(r) == Ids(ps);
    r
  }

  /**
   * Growing one more member of the group, the pane at `k`: the loop step
   * of `close_pane_without_rerender`. That pane is still as it was before
   * the step.
   */
  lemma GrowMembersStep(ps: seq<Pane>, group: seq<PaneId>, j: nat, k: nat, side: Side, count: nat)
    requires IdsIncreasing(ps) && Increasing(group) && j < |group| && k < |ps| && ps[k].id == group[j]
    requires RoomToGrow(ps, group, side, count)
    ensures RoomToGrow(ps, group[..j], side, count)
    ensures RoomToGrow(ps, group[..j + 1], side, count)
    ensures var cur := GrowMembers(ps, group[..j], side, count);
      cur[k] == ps[k] &&
      GrowMembers(ps, group[..j + 1], side, count) == cur[k := Grow(cur[k], side, count)]
  {
    assert forall q | q in group[..j] :: q in group;
    assert forall q | q in group[..j + 1] :: q in group;
    assert group[..j + 1] == group[..j] + [group[j]];
    var cur := GrowMembers(ps, group[..j], side, count);
    IncreasingIsDistinct(group);
    assert group[j] !in group[..j];
    var next := GrowMembers(ps, group[..j + 1], side, count);
    forall x | 0 <= x < |ps| && x != k ensures next[x] == cur[x] {
      IdOrder(ps[x].id, ps[k].id, ps[k].id);
    }
  }

  /**
   * Before the pane at `k` grows, the panes grown so far are still sorted,
   * that pane is found under its id, and it has room to grow.
   */
  lemma GrowStepReady(ps: seq<Pane>, group: seq<PaneId>, j: nat, k: nat, side: Side, count: nat)
    requires IdsIncreasing(ps) && Increasing(group) && j < |group| && k < |ps| && ps[k].id == group[j]
    requires RoomToGrow(ps, group, side, count)
    ensures RoomToGrow(ps, group[..j], side, count)
    ensures RoomToGrow(ps, group[..j + 1], side, count)
    ensures var cur := GrowMembers(ps, group[..j], side, count);
      && IdsIncreasing(cur) && IndexOf(cur, group[j]) == Some(k)
      && group[j] in Ids(cur) && Lookup(cur, group[j]) == ps[k]
      && GrowMembers(ps, group[..j + 1], side, count) == cur[k := Grow(cur[k], side, count)]
  {
    GrowMembersStep(ps, group, j, k, side, count);
    var cur := GrowMembers(ps, group[..j], side, count);
    IdsIncreasingAreIncreasing(cur);
    IdsIncreasingAreIncreasing(ps);
    IndexOfKey(cur, k);
    LookupKey(cur, cur[k]);
  }

  /** A neighbour in an absorbing group may move by the closed pane's size. */
  lemma GroupCanShift(ps: seq<Pane>, t: Pane, side: Side, group: seq<PaneId>)
    requires IdsIncreasing(ps)
    requires forall q | q in group :: q in Ids(ps) && Adjacent(Lookup(ps, q), t, side)
    ensures RoomToGrow(ps, group, side, Amount(t, side))
  {
    forall i | 0 <= i < |ps| && ps[i].id in group
      ensures (side == Right ==> ps[i].x >= Amount(t, side)) && (side == Below ==> ps[i].y >= Amount(t, side))
    {
      LookupKey(ps, ps[i]);
    }
  }

  /**
   * `next_active_pane`: the last pane of the group, in the group's order,
   * that can take focus.
   */
  function NextActivePane(ps: seq<Pane>, group: seq<PaneId>): (r: Option<PaneId>)
    requires forall q | q in group :: q in Ids(ps)
    ensures r.Some? ==> r.value in group && IsSelectable(ps, r.value)
    ensures r.None? <==> forall q | q in group :: !IsSelectable(ps, q)
  {
    if group == [] then None
    else
      var init := group[..|group| - 1];
      var last := group[|group| - 1];
      assert forall q :: q in group <==> q in init || q == last by {
        assert group == init + [last];
      }
      if IsSelectable(ps, last) then Some(last) else NextActivePane(ps, init)
  }

  /** No pane of `group` after position `k` can take focus. */
  predicate NoneSelectableAfter(ps: seq<Pane>, group: seq<PaneId>, k: nat)
    requires forall q | q in group :: q in Ids(ps)
  {
    forall j | k < j < |group| :: !IsSelectable(ps, group[j])
  }

  /** No pane after the one `next_active_pane` picks in the group can take focus. */
  lemma {:induction false} NextActivePaneIsLast(ps: seq<Pane>, group: seq<PaneId>)
    requires forall q | q in group :: q in Ids(ps)
    requires NextActivePane(ps, group).Some?
    ensures exists k | 0 <= k < |group| ::
      group[k] == NextActivePane(ps, group).value && NoneSelectableAfter(ps, group, k)
  {
    var init := group[..|group| - 1];
    var last := group[|group| - 1];
    assert forall q | q in init :: q in group;
    if IsSelectable(ps, last) {
      assert NextActivePane(ps, group) == Some(last);
      assert NoneSelectableAfter(ps, group, |group| - 1);
    } else {
      assert NextActivePane(ps, group) == NextActivePane(ps, init);
      NextActivePaneIsLast(ps, init);
      var k :| 0 <= k < |init| && init[k] == NextActivePane(ps, init).value && NoneSelectableAfter(ps, init, k);
      NoneSelectableAfterExtends(ps, group, k);
    }
  }

  /** An unselectable last pane keeps the property of the group without it. */
  lemma NoneSelectableAfterExtends(ps: seq<Pane>, group: seq<PaneId>, k: nat)
    requires forall q | q in group :: q in Ids(ps)
    requires group != [] && !IsSelectable(ps, group[|group| - 1])
    requires k < |group| - 1
    requires var init := group[..|group| - 1];
      (forall q | q in init :: q in Ids(ps)) && NoneSelectableAfter(ps, init, k)
    ensures group[k] == group[..|group| - 1][k] && NoneSelectableAfter(ps, group, k)
  {
    var init := group[..|group| - 1];
    forall j | k < j < |group| ensures !IsSelectable(ps, group[j]) {
      if j < |group| - 1 {
        assert group[j] == init[j];
      }
    }
  }

  /** The closing pane is not among its own neighbours, nor is any pane sharing its key. */
  lemma ClosingPaneNotInGroup(ps: seq<Pane>, k: nat, side: Side, group: seq<PaneId>)
    requires IdsIncreasing(ps) && k < |ps|
    requires forall q | q in group :: q in Ids(ps) && Adjacent(Lookup(ps, q), ps[k], side)
    ensures ps[k].id !in group
  {
    if ps[k].id in group {
      IndexOfKey(ps, k);
      NotAdjacentToItself(ps[k]);
    }
  }

  /**
   * The panes after the group on `side` took over the space of the pane at
   * `k`: every pane of the group grows toward it, and it leaves the map.
   */
  function AbsorbInto(ps: seq<Pane>, k: nat, side: Side, group: seq<PaneId>): (r: seq<Pane>)
    requires IdsIncreasing(ps) && k < |ps| && Absorbs(ps, ps[k], side, group)
    ensures IdsIncreasing(r)
    ensures forall q :: q in Ids(r) <==> q in Ids(ps) && q != ps[k].id
    ensures forall q | q in group :: q in Ids(r)
  {
    var t := ps[k];
    GroupCanShift(ps, t, side, group);
    ClosingPaneNotInGroup(ps, k, side, group);
    var grown := GrowMembers(ps, group, side, Amount(t, side));
    assert IdsIncreasing(grown) by {
      IdsIncreasingAreIncreasing(grown);
      IdsIncreasingAreIncreasing(ps);
    }
    RemovePane(grown, t.id)
  }

  /** `AbsorbInto` as the two steps of `close_pane_without_rerender`: grow the group, then remove the pane. */
  lemma AbsorbIntoInSteps(ps: seq<Pane>, k: nat, side: Side, group: seq<PaneId>)
    requires IdsIncreasing(ps) && k < |ps| && Absorbs(ps, ps[k], side, group)
    ensures RoomToGrow(ps, group, side, Amount(ps[k], side))
    ensures var grown := GrowMembers(ps, group, side, Amount(ps[k], side));
      IdsIncreasing(grown) && AbsorbInto(ps, k, side, group) == RemovePane(grown, ps[k].id)
  {
    GroupCanShift(ps, ps[k], side, group);
    var grown := GrowMembers(ps, group, side, Amount(ps[k], side));
    IdsIncreasingAreIncreasing(grown);
    IdsIncreasingAreIncreasing(ps);
  }

  /**
   * After the group took over the closed pane's space, every pane of the
   * group has grown by the closed pane's width (or height) and border and
   * its far edge lies on the closed pane's far edge; every other remaining
   * pane is as it was.
   */
  lemma AbsorbIntoFillsGap(ps: seq<Pane>, k: nat, side: Side, group: seq<PaneId>)
    requires IdsIncreasing(ps) && k < |ps| && Absorbs(ps, ps[k], side, group)
    ensures var r := AbsorbInto(ps, k, side, group);
      forall p | p in r && p.id !in group :: p in ps
    ensures var r := AbsorbInto(ps, k, side, group);
      var t := ps[k];
      forall q | q in group ::
        Lookup(r, q) == Grow(Lookup(ps, q), side, Amount(t, side)) && ReachesFarEdge(Lookup(r, q), t, side)
  {
    var r := AbsorbInto(ps, k, side, group);
    forall p | p in r && p.id !in group ensures p in ps {
      AbsorbKeepsOther(ps, k, side, group, p);
    }
    forall q | q in group {
      AbsorbGrowsMember(ps, k, side, group, q);
    }
  }

  /** A remaining pane outside the group is one of the panes before the close. */
  lemma AbsorbKeepsOther(ps: seq<Pane>, k: nat, side: Side, group: seq<PaneId>, p: Pane)
    requires IdsIncreasing(ps) && k < |ps| && Absorbs(ps, ps[k], side, group)
    requires p in AbsorbInto(ps, k, side, group) && p.id !in group
    ensures p in ps
  {
    var t := ps[k];
    GroupCanShift(ps, t, side, group);
    var grown := GrowMembers(ps, group, side, Amount(t, side));
    assert IdsIncreasing(grown) by {
      IdsIncreasingAreIncreasing(grown);
      IdsIncreasingAreIncreasing(ps);
    }
    assert AbsorbInto(ps, k, side, group) == RemovePane(grown, t.id);
    assert p in grown;
    var i :| 0 <= i < |grown| && grown[i] == p;
    assert Ids(grown)[i] == Ids(ps)[i];
  }

  /** A pane of the group is still present after the close, grown toward the closed pane. */
  lemma AbsorbGrowsMember(ps: seq<Pane>, k: nat, side: Side, group: seq<PaneId>, q: PaneId)
    requires IdsIncreasing(ps) && k < |ps| && Absorbs(ps, ps[k], side, group) && q in group
    ensures q in Ids(ps) && q in Ids(AbsorbInto(ps, k, side, group))
    ensures var r := AbsorbInto(ps, k, side, group);
      var t := ps[k];
      Lookup(r, q) == Grow(Lookup(ps, q), side, Amount(t, side)) && ReachesFarEdge(Lookup(r, q), t, side)
  {
    AbsorbLookup(ps, k, side, group, q);
    var p := Lookup(ps, q);
    assert Adjacent(p, ps[k], side);
    GrowCoversClosedPane(p, ps[k], side);
  }

  /** After the close, a pane of the group is found under its id, grown by the closed pane's extent. */
  lemma AbsorbLookup(ps: seq<Pane>, k: nat, side: Side, group: seq<PaneId>, q: PaneId)
    requires IdsIncreasing(ps) && k < |ps| && Absorbs(ps, ps[k], side, group) && q in group
    ensures q in Ids(ps) && q in Ids(AbsorbInto(ps, k, side, group))
    ensures Lookup(AbsorbInto(ps, k, side, group), q) == Grow(Lookup(ps, q), side, Amount(ps[k], side))
  {
    var t := ps[k];
    GroupCanShift(ps, t, side, group);
    ClosingPaneNotInGroup(ps, k, side, group);
    var grown := GrowMembers(ps, group, side, Amount(t, side));
    GrownLookup(ps, group, side, Amount(t, side), q);
    LookupAfterRemove(grown, t.id, q);
    assert AbsorbInto(ps, k, side, group) == RemovePane(grown, t.id);
  }

  /** After the group grows, each of its panes is found under its id, grown. */
  lemma GrownLookup(ps: seq<Pane>, group: seq<PaneId>, side: Side, count: nat, q: PaneId)
    requires IdsIncreasing(ps) && q in group && q in Ids(ps)
    requires RoomToGrow(ps, group, side, count)
    ensures var grown := GrowMembers(ps, group, side, count);
      IdsIncreasing(grown) && q in Ids(grown) && Lookup(grown, q) == Grow(Lookup(ps, q), side, count)
  {
    var grown := GrowMembers(ps, group, side, count);
    IdsIncreasingAreIncreasing(grown);
    IdsIncreasingAreIncreasing(ps);
    var before := Lookup(ps, q);
    var i :| 0 <= i < |ps| && ps[i] == before;
    assert grown[i] == Grow(before, side, count);
    LookupKey(grown, grown[i]);
  }

  /** Removing one id leaves every other pane found under its id. */
  lemma LookupAfterRemove(ps: seq<Pane>, id: PaneId, q: PaneId)
    requires IdsIncreasing(ps) && q in Ids(ps) && q != id
    ensures q in Ids(RemovePane(ps, id)) && Lookup(RemovePane(ps, id), q) == Lookup(ps, q)
  {
    var p := Lookup(ps, q);
    LookupKey(RemovePane(ps, id), p);
  }

  /**
   * `close_pane_without_rerender`: fullscreen ends, and a pane that is a
   * key leaves the tab; when a group of neighbours can take over its space
   * they grow over it, and if it had the focus, the focus goes to the
   * group's last selectable pane (or nowhere).
   */
  function CloseLayoutPane(l: Layout, id: PaneId): (r: Layout)
    requires ValidLayout(l)
    ensures ValidLayout(r) && !r.fullscreen
    ensures id !in Ids(r.panes)
    ensures forall q :: q in Ids(r.panes) <==> q in Ids(l.panes) && q != id
  {
    var m := FullscreenOff(l);
    match IndexOf(m.panes, id)
    case None => m
    case Some(k) =>
      match Absorbing(m.panes, m.panes[k])
      case None => m.(panes := RemovePane(m.panes, id))
      case Some((side, group)) =>
        var ps := AbsorbInto(m.panes, k, side, group);
        m.(panes := ps, active := if m.active == Some(id) then NextActivePane(ps, group) else m.active)
  }

  /**
   * Closing a pane whose space a group takes over: the panes are those of
   * `AbsorbInto`, and a focus the closed pane held goes to the group's last
   * selectable pane, while any other focus stays.
   */
  lemma CloseHandsSpaceToGroup(l: Layout, id: PaneId, k: nat)
    requires ValidLayout(l) && k < |l.panes| && l.panes[k].id == id
    requires Absorbing(l.panes, l.panes[k]).Some?
    ensures var (side, group) := Absorbing(l.panes, l.panes[k]).value;
      var r := CloseLayoutPane(l, id);
      r.panes == AbsorbInto(l.panes, k, side, group) &&
      (l.active == Some(id) ==> r.active == NextActivePane(r.panes, group)) &&
      (l.active != Some(id) ==> r.active == l.active)
  {
    IndexOfKey(l.panes, k);
  }

  /** Closing a pane no group can absorb only removes it (and ends fullscreen). */
  lemma CloseLeavesGap(l: Layout, id: PaneId, k: nat)
    requires ValidLayout(l) && k < |l.panes| && l.panes[k].id == id
    requires Absorbing(l.panes, l.panes[k]).None?
    ensures CloseLayoutPane(l, id) == FullscreenOff(l).(panes := RemovePane(l.panes, id))
  {
    IndexOfKey(l.panes, k);
  }

  /** Closing an id that is not a key only ends fullscreen. */
  lemma CloseMissingPane(l: Layout, id: PaneId)
    requires ValidLayout(l) && id !in Ids(l.panes)
    ensures CloseLayoutPane(l, id) == FullscreenOff(l)
  {
  }

  // ---------------------------------------------------------------------------
  // Closing down to the maximum number of panes
  // ---------------------------------------------------------------------------

  /** Closing the given panes one after the other. */
  function CloseAll(l: Layout, ids: seq<PaneId>): (r: Layout)
    requires ValidLayout(l)
    ensures ValidLayout(r)
    ensures ids != [] ==> !r.fullscreen
    ensures forall q :: q in Ids(r.panes) <==> q in Ids(l.panes) && q !in ids
  {
    if ids == [] then l
    else
      var init := ids[..|ids| - 1];
      assert forall q :: q in ids <==> q in init || q == ids[|ids| - 1] by {
        assert ids == init + [ids[|ids| - 1]];
      }
      CloseLayoutPane(CloseAll(l, init), ids[|ids| - 1])
  }

  /** Closing one more pane of the list: the step of the `close_down_to_max_terminals` loop. */
  lemma CloseAllStep(l: Layout, ids: seq<PaneId>, j: nat)
    requires ValidLayout(l) && j < |ids|
    ensures CloseAll(l, ids[..j + 1]) == CloseLayoutPane(CloseAll(l, ids[..j]), ids[j])
  {
    assert ids[..j + 1][..j] == ids[..j];
  }

  /**
   * `close_down_to_max_terminals`: with a maximum of `m` panes, every pane
   * from the `m`-th on in key order is closed, to leave room for one more.
   */
  function CloseDownToMax(l: Layout, maxPanes: Option<nat>): (r: Layout)
    requires ValidLayout(l) && maxPanes != Some(0)
    ensures ValidLayout(r)
  {
    match maxPanes
    case None => l
    case Some(m) =>
      var ids := Ids(l.panes);
      CloseAll(l, if m - 1 <= |ids| then ids[m - 1..] else [])
  }

  /**
   * After closing down to a maximum of `m` panes, the tab holds exactly its
   * first `m - 1` panes in key order, so one more pane keeps it within `m`.
   */
  lemma CloseDownKeepsFirstPanes(l: Layout, m: nat)
    requires ValidLayout(l) && m > 0
    ensures var ids := Ids(l.panes);
      Ids(CloseDownToMax(l, Some(m)).panes) == ids[..Min(m - 1, |ids|)]
    ensures |CloseDownToMax(l, Some(m)).panes| == Min(m - 1, |l.panes|)
  {
    var ids := Ids(l.panes);
    var n := Min(m - 1, |ids|);
    var r := CloseDownToMax(l, Some(m));
    assert r == CloseAll(l, ids[n..]);
    IdsIncreasingAreIncreasing(l.panes);
    IdsIncreasingAreIncreasing(r.panes);
    IncreasingIsDistinct(ids);
    PrefixIsWhatSuffixLeaves(ids, n);
    assert Increasing(ids[..n]);
    SameMembersSameIds(Ids(r.panes), ids[..n]);
  }

  /** In a list without repeats, the entries before `n` are those not from `n` on. */
  lemma PrefixIsWhatSuffixLeaves(ids: seq<PaneId>, n: nat)
    requires Distinct(ids) && n <= |ids|
    ensures forall q :: q in ids[..n] <==> q in ids && q !in ids[n..]
  {
    assert ids == ids[..n] + ids[n..];
    forall q | q in ids[..n] ensures q !in ids[n..] {
      var i :| 0 <= i < n && ids[i] == q;
      forall j | n <= j < |ids| ensures ids[j] != q {
      }
    }
  }

  // ---------------------------------------------------------------------------
  // Splitting the active pane
  // ---------------------------------------------------------------------------

  /** What `horizontal_split` and `vertical_split` unwrap: a tab with panes has an active pane among them. */
  predicate CanSplit(l: Layout)
  {
    l.panes != [] ==> l.active.Some? && l.active.value in Ids(l.panes)
  }

  /**
   * The pane at `k` keeps the first half of its space (top or left) and a
   * new terminal `pid` takes the second half.
   */
  function SplitPane(ps: seq<Pane>, k: nat, pid: PaneId, horizontal: bool): (r: seq<Pane>)
    requires IdsIncreasing(ps) && k < |ps|
    requires if horizontal then ps[k].rows >= 1 else ps[k].columns >= 1
    ensures IdsIncreasing(r)
    ensures forall q :: q in Ids(r) <==> q == pid || q in Ids(ps)
    ensures |r| == if pid in Ids(ps) then |ps| else |ps| + 1
  {
    var a := ps[k];
    var halves := SplitHalves(a, horizontal);
    var resized := ps[k := ChangePosAndSize(a, halves.0)];
    assert Ids(resized) == Ids(ps);
    IdsIncreasingAreIncreasing(resized);
    IdsIncreasingAreIncreasing(ps);
    InsertPane(resized, NewTerminalPane(pid, halves.1))
  }

  /**
   * Splitting a pane under a new id: the new terminal is selectable and
   * lies directly below (or right of) the shrunk pane, the two together
   * with the border between them fill the old pane's rows (or columns), and
   * no other pane changes.
   */
  lemma SplitPaneSharesSpace(ps: seq<Pane>, k: nat, pid: PaneId, horizontal: bool)
    requires IdsIncreasing(ps) && k < |ps| && pid !in Ids(ps)
    requires if horizontal then ps[k].rows >= 1 else ps[k].columns >= 1
    ensures var r := SplitPane(ps, k, pid, horizontal);
      var a := ps[k];
      var first := Lookup(r, a.id);
      var added := Lookup(r, pid);
      added.selectable && first.selectable == a.selectable &&
      (horizontal ==> (IsDirectlyBelow(added, first) && first.rows + added.rows + 1 == a.rows &&
        first.x == added.x == a.x && first.columns == added.columns == a.columns && first.y == a.y)) &&
      (!horizontal ==> (IsDirectlyRightOf(added, first) && first.columns + added.columns + 1 == a.columns &&
        first.y == added.y == a.y && first.rows == added.rows == a.rows && first.x == a.x))
    ensures var r := SplitPane(ps, k, pid, horizontal);
      forall p | p in ps && p.id != ps[k].id :: p in r
  {
    SplitPaneLookups(ps, k, pid, horizontal);
    SplitPaneKeepsOthers(ps, k, pid, horizontal);
  }

  /** The two halves of a split, for the pane `a`. */
  function SplitHalves(a: Pane, horizontal: bool): (Rect, Rect)
    requires if horizontal then a.rows >= 1 else a.columns >= 1
  {
    if horizontal then SplitHorizontallyWithGap(PositionAndSize(a)) else SplitVerticallyWithGap(PositionAndSize(a))
  }

  /** After a split, the split pane holds the first half and the new terminal the second. */
  lemma SplitPaneLookups(ps: seq<Pane>, k: nat, pid: PaneId, horizontal: bool)
    requires IdsIncreasing(ps) && k < |ps| && pid !in Ids(ps)
    requires if horizontal then ps[k].rows >= 1 else ps[k].columns >= 1
    ensures var r := SplitPane(ps, k, pid, horizontal);
      var halves := SplitHalves(ps[k], horizontal);
      ps[k].id in Ids(r) && pid in Ids(r) &&
      Lookup(r, ps[k].id) == ChangePosAndSize(ps[k], halves.0) &&
      Lookup(r, pid) == NewTerminalPane(pid, halves.1)
  {
    var a := ps[k];
    var halves := SplitHalves(a, horizontal);
    var resized := ps[k := ChangePosAndSize(a, halves.0)];
    assert Ids(resized) == Ids(ps);
    IdsIncreasingAreIncreasing(resized);
    IdsIncreasingAreIncreasing(ps);
    var added := NewTerminalPane(pid, halves.1);
    var r := SplitPane(ps, k, pid, horizontal);
    assert r == InsertPane(resized, added);
    assert pid != a.id by {
      assert Ids(ps)[k] == a.id;
    }
    assert resized[k] in r by {
      assert resized[k] in resized;
    }
    LookupKey(r, resized[k]);
    LookupKey(r, added);
  }

  /** A split leaves every other pane as it was. */
  lemma SplitPaneKeepsOthers(ps: seq<Pane>, k: nat, pid: PaneId, horizontal: bool)
    requires IdsIncreasing(ps) && k < |ps| && pid !in Ids(ps)
    requires if horizontal then ps[k].rows >= 1 else ps[k].columns >= 1
    ensures var r := SplitPane(ps, k, pid, horizontal);
      forall p | p in ps && p.id != ps[k].id :: p in r
  {
    var a := ps[k];
    var halves := SplitHalves(a, horizontal);
    var resized := ps[k := ChangePosAndSize(a, halves.0)];
    assert Ids(resized) == Ids(ps);
    IdsIncreasingAreIncreasing(resized);
    IdsIncreasingAreIncreasing(ps);
    var added := NewTerminalPane(pid, halves.1);
    var r := SplitPane(ps, k, pid, horizontal);
    assert r == InsertPane(resized, added);
    forall p | p in ps && p.id != a.id ensures p in r {
      var i :| 0 <= i < |ps| && ps[i] == p;
      assert resized[i] == p;
      assert p.id != pid by {
        assert Ids(ps)[i] == p.id;
      }
    }
  }

  /**
   * The rest of `horizontal_split` (`horizontal` true) and `vertical_split`
   * once fullscreen is off: an empty tab gets the new terminal over the
   * whole screen; otherwise an active pane of at least seven rows (nine
   * columns) is split and the new terminal takes the focus. Plugins are
   * never split in.
   */
  function Split(l: Layout, pid: PaneId, ws: Rect, horizontal: bool): (r: Layout)
    requires ValidLayout(l) && !l.fullscreen && (pid.Terminal? ==> CanSplit(l))
    ensures ValidLayout(r) && !r.fullscreen
  {
    if l.panes == [] then
      if pid.Terminal? then
        l.(panes := [NewTerminalPane(pid, ws)], active := Some(pid))
      else l
    else if !pid.Terminal? then l
    else
      var k := IndexOf(l.panes, l.active.value).value;
      var a := l.panes[k];
      if horizontal && a.rows < MIN_TERMINAL_HEIGHT * 2 + 1 then l
      else if !horizontal && a.columns < MIN_TERMINAL_WIDTH * 2 + 1 then l
      else l.(panes := SplitPane(l.panes, k, pid, horizontal), active := Some(pid))
  }

  /**
   * An active pane shorter than seven rows is not split horizontally, and
   * one narrower than nine columns is not split vertically: the layout
   * stays as it was.
   */
  lemma SplitRefusesSmallPane(l: Layout, pid: PaneId, ws: Rect, horizontal: bool)
    requires ValidLayout(l) && !l.fullscreen && CanSplit(l) && l.panes != []
    requires var a := Lookup(l.panes, l.active.value);
      if horizontal then a.rows < MIN_TERMINAL_HEIGHT * 2 + 1 else a.columns < MIN_TERMINAL_WIDTH * 2 + 1
    ensures Split(l, pid, ws, horizontal) == l
  {
  }

  /**
   * A split that happens splits the active pane, gives the focus to the
   * new terminal, and leaves both halves at least as large as the minimum
   * pane size.
   */
  lemma SplitSharesActivePane(l: Layout, pid: PaneId, ws: Rect, horizontal: bool)
    requires ValidLayout(l) && !l.fullscreen && CanSplit(l) && l.panes != []
    requires pid.Terminal? && pid !in Ids(l.panes)
    requires var a := Lookup(l.panes, l.active.value);
      if horizontal then a.rows >= MIN_TERMINAL_HEIGHT * 2 + 1 else a.columns >= MIN_TERMINAL_WIDTH * 2 + 1
    ensures var k := IndexOf(l.panes, l.active.value).value;
      var r := Split(l, pid, ws, horizontal);
      r.active == Some(pid) && r.panes == SplitPane(l.panes, k, pid, horizontal) &&
      |r.panes| == |l.panes| + 1 &&
      var first := Lookup(r.panes, l.active.value);
      var added := Lookup(r.panes, pid);
      (horizontal ==> first.rows >= MIN_TERMINAL_HEIGHT && added.rows >= MIN_TERMINAL_HEIGHT) &&
      (!horizontal ==> first.columns >= MIN_TERMINAL_WIDTH && added.columns >= MIN_TERMINAL_WIDTH)
  {
    var k := IndexOf(l.panes, l.active.value).value;
    var a := l.panes[k];
    SplitPaneSharesSpace(l.panes, k, pid, horizontal);
    SplitHalvesKeepMinimum(PositionAndSize(a));
  }
}
