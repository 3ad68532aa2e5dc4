/**
 * The tab bookkeeping of zellij-server/src/screen.rs, on values: each tab
 * seen as its key (`index`) and its place in the tab bar (`position`), in
 * key order, as the screen's `BTreeMap` iterates them; and the tab-name
 * editing rule.
 */
module TabEntries {
  import opened Wrappers

  datatype TabEntry = TabEntry(index: nat, position: nat)

  /** The keys of the map, in iteration order: strictly increasing. */
  predicate IndicesIncreasing(es: seq<TabEntry>)
  {
    forall i, j | 0 <= i < j < |es| :: es[i].index < es[j].index
  }

  /**
   * The positions are exactly 0 .. n-1, each held by one tab: what the
   * tab bar shows and what `switch_tab_next` and `switch_tab_prev` count on.
   */
  predicate Contiguous(es: seq<TabEntry>)
  {
    (forall i | 0 <= i < |es| :: es[i].position < |es|) &&
    (forall i, j | 0 <= i < j < |es| :: es[i].position != es[j].position) &&
    (forall p | 0 <= p < |es| :: HasPosition(es, p))
  }

  /** Some tab sits at `position`. */
  predicate HasPosition(es: seq<TabEntry>, position: nat)
  {
    exists i | 0 <= i < |es| :: es[i].position == position
  }

  /** `tabs.get(&index)`: where the tab with key `index` sits. */
  function FindIndex(es: seq<TabEntry>, index: nat): (r: Option<nat>)
    ensures r.Some? ==> r.value < |es| && es[r.value].index == index
    ensures r.None? <==> forall i | 0 <= i < |es| :: es[i].index != index
  {
    if es == [] then None
    else if es[|es| - 1].index == index then Some(|es| - 1)
    else FindIndex(es[..|es| - 1], index)
  }

  /** A key of the map is found. */
  lemma KeyIsFound(es: seq<TabEntry>, index: nat)
    requires index in IndexSet(es)
    ensures FindIndex(es, index).Some?
  {
    var i :| 0 <= i < |es| && es[i].index == index;
  }

  /** With increasing keys, a key is found where it sits. */
  lemma FindIndexOfKey(es: seq<TabEntry>, k: nat)
    requires IndicesIncreasing(es) && k < |es|
    ensures FindIndex(es, es[k].index) == Some(k)
  {
    var r := FindIndex(es, es[k].index).value;
    assert !(r < k) && !(k < r);
  }

  /** The first tab, in key order, at `position`: what the switch loops stop at. */
  function FindPosition(es: seq<TabEntry>, position: nat): (r: Option<nat>)
    ensures r.Some? ==> r.value < |es| && es[r.value].position == position
    ensures r.Some? ==> forall j | 0 <= j < r.value :: es[j].position != position
    ensures r.None? <==> forall i | 0 <= i < |es| :: es[i].position != position
  {
    if es == [] then None
    else if es[0].position == position then Some(0)
    else
      var r := FindPosition(es[1..], position);
      if r.Some? then Some(r.value + 1) else None
  }

  /** With positions held once each, the tab at a position is found. */
  lemma FindPositionOfTab(es: seq<TabEntry>, k: nat)
    requires Contiguous(es) && k < |es|
    ensures FindPosition(es, es[k].position) == Some(k)
  {
  }

  /** `(position + 1) % tabs.len()`. */
  function NextPosition(position: nat, count: nat): (r: nat)
    requires count > 0
    ensures r < count
    ensures position + 1 < count ==> r == position + 1
    ensures position + 1 == count ==> r == 0
  {
    (position + 1) % count
  }

  /** `if position == 0 { tabs.len() - 1 } else { position - 1 }`. */
  function PreviousPosition(position: nat, count: nat): (r: nat)
    requires count > 0
    ensures position < count ==> r < count
    ensures position > 0 ==> r + 1 == position
  {
    if position == 0 then count - 1 else position - 1
  }

  /** Going one place forward and one back returns to a position of the bar. */
  lemma PreviousUndoesNextPosition(position: nat, count: nat)
    requires position < count
    ensures PreviousPosition(NextPosition(position, count), count) == position
  {
  }

  /**
   * The active tab after a switch to `position`: the first tab there, or
   * the old active tab when none is there.
   */
  function SwitchTo(es: seq<TabEntry>, active: Option<nat>, position: nat): (r: Option<nat>)
    ensures FindPosition(es, position).Some? ==> r.Some? && r.value in IndexSet(es)
    ensures FindPosition(es, position).None? ==> r == active
  {
    match FindPosition(es, position)
    case Some(i) => Some(es[i].index)
    case None => active
  }

  function IndexSet(es: seq<TabEntry>): set<nat>
  {
    set i | 0 <= i < |es| :: es[i].index
  }

  /** The position of the tab with key `active`. */
  function PositionOf(es: seq<TabEntry>, active: nat): nat
    requires FindIndex(es, active).Some?
  {
    es[FindIndex(es, active).value].position
  }

  /** `switch_tab_next`, on the active key. */
  function SwitchNext(es: seq<TabEntry>, active: nat): (r: Option<nat>)
    requires FindIndex(es, active).Some?
  {
    SwitchTo(es, Some(active), NextPosition(PositionOf(es, active), |es|))
  }

  /** `switch_tab_prev`, on the active key. */
  function SwitchPrevious(es: seq<TabEntry>, active: nat): (r: Option<nat>)
    requires FindIndex(es, active).Some?
  {
    SwitchTo(es, Some(active), PreviousPosition(PositionOf(es, active), |es|))
  }

  /**
   * With contiguous positions, switching to the next tab lands on the tab
   * one place further along the bar (the first after the last), and
   * switching back returns to the tab that was active.
   */
  lemma SwitchPreviousUndoesNext(es: seq<TabEntry>, active: nat)
    requires IndicesIncreasing(es) && Contiguous(es) && FindIndex(es, active).Some?
    ensures SwitchNext(es, active).Some?
    ensures var b := SwitchNext(es, active).value;
      FindIndex(es, b).Some? &&
      PositionOf(es, b) == NextPosition(PositionOf(es, active), |es|) &&
      SwitchPrevious(es, b) == Some(active)
  {
    var i := FindIndex(es, active).value;
    var p := es[i].position;
    var q := NextPosition(p, |es|);
    assert HasPosition(es, q);
    var j :| 0 <= j < |es| && es[j].position == q;
    FindPositionOfTab(es, j);
    FindIndexOfKey(es, j);
    PreviousUndoesNextPosition(p, |es|);
    FindPositionOfTab(es, i);
  }

  /**
   * `switch_tab_prev` with contiguous positions and more than one tab never
   * stays on the active tab.
   */
  lemma SwitchPreviousMoves(es: seq<TabEntry>, active: nat)
    requires IndicesIncreasing(es) && Contiguous(es) && FindIndex(es, active).Some? && |es| > 1
    ensures SwitchPrevious(es, active).Some? && SwitchPrevious(es, active).value != active
  {
    var i := FindIndex(es, active).value;
    var q := PreviousPosition(es[i].position, |es|);
    assert HasPosition(es, q);
    var j :| 0 <= j < |es| && es[j].position == q;
    FindPositionOfTab(es, j);
  }

  /**
   * `go_to_tab(k)` on a contiguous bar of at least k tabs makes the tab at
   * position k-1 active.
   */
  lemma GoToReachesPosition(es: seq<TabEntry>, active: nat, k: nat)
    requires Contiguous(es) && 1 <= k <= |es|
    ensures var r := SwitchTo(es, Some(active), k - 1);
      r.Some? && exists i | 0 <= i < |es| :: es[i].index == r.value && es[i].position == k - 1
  {
    assert HasPosition(es, k - 1);
  }

  // ---------------------------------------------------------------------------
  // Adding and closing tabs
  // ---------------------------------------------------------------------------

  /** `get_new_tab_index`: one past the last key, or 0 without tabs. */
  function NewIndex(es: seq<TabEntry>): (r: nat)
    ensures IndicesIncreasing(es) ==> forall i | 0 <= i < |es| :: es[i].index < r
    ensures es == [] ==> r == 0
    ensures es != [] ==> r == es[|es| - 1].index + 1
  {
    if es == [] then 0 else es[|es| - 1].index + 1
  }

  /** `new_tab` puts the new tab after every key, at the end of the bar: the bar stays contiguous. */
  lemma NewTabKeepsBar(es: seq<TabEntry>)
    ensures IndicesIncreasing(es) ==> IndicesIncreasing(es + [TabEntry(NewIndex(es), |es|)])
    ensures Contiguous(es) ==> Contiguous(es + [TabEntry(NewIndex(es), |es|)])
  {
    var r := es + [TabEntry(NewIndex(es), |es|)];
    if Contiguous(es) {
      forall p | 0 <= p < |r| ensures HasPosition(r, p) {
        if p < |es| {
          assert HasPosition(es, p);
          var i :| 0 <= i < |es| && es[i].position == p;
          assert r[i] == es[i];
        } else {
          assert r[|es|].position == p;
        }
      }
    }
  }

  /** One tab after the tab at `c` left the bar: tabs right of it move one place left. */
  function Shifted(e: TabEntry, c: nat): TabEntry
  {
    if e.position > c then e.(position := e.position - 1) else e
  }

  /** The renumbering of `close_tab`: every entry right of `c` on the bar moves one place left. */
  function ShiftAll(es: seq<TabEntry>, c: nat): (r: seq<TabEntry>)
    ensures |r| == |es|
    ensures forall i | 0 <= i < |es| :: r[i] == Shifted(es[i], c)
  {
    seq(|es|, i requires 0 <= i < |es| => Shifted(es[i], c))
  }

  /**
   * `close_tab` on the entries: the tab at `k` leaves the map and every tab
   * after it on the bar moves one place left.
   */
  function CloseEntries(es: seq<TabEntry>, k: nat): (r: seq<TabEntry>)
    requires k < |es|
    ensures |r| == |es| - 1
    ensures forall i | 0 <= i < |r| :: r[i] == Shifted(if i < k then es[i] else es[i + 1], es[k].position)
  {
    var rest := es[..k] + es[k + 1..];
    assert forall i | 0 <= i < |rest| :: rest[i] == if i < k then es[i] else es[i + 1];
    ShiftAll(rest, es[k].position)
  }

  /** `CloseEntries` as the two steps of `close_tab`: remove the entry, then renumber the rest. */
  lemma CloseEntriesAsShift(es: seq<TabEntry>, k: nat)
    requires k < |es|
    ensures CloseEntries(es, k) == ShiftAll(es[..k] + es[k + 1..], es[k].position)
  {
  }

  /** Removing an entry keeps the remaining keys in order. */
  lemma RemoveKeepsIndicesIncreasing(es: seq<TabEntry>, k: nat)
    requires k < |es| && IndicesIncreasing(es)
    ensures IndicesIncreasing(es[..k] + es[k + 1..])
  {
    var r := es[..k] + es[k + 1..];
    forall i, j | 0 <= i < j < |r| ensures r[i].index < r[j].index {
      var i' := if i < k then i else i + 1;
      var j' := if j < k then j else j + 1;
      assert r[i] == es[i'] && r[j] == es[j'];
    }
  }

  /** Closing a tab keeps the remaining keys in order. */
  lemma CloseKeepsIndicesIncreasing(es: seq<TabEntry>, k: nat)
    requires k < |es| && IndicesIncreasing(es)
    ensures IndicesIncreasing(CloseEntries(es, k))
  {
    RemoveKeepsIndicesIncreasing(es, k);
    CloseEntriesAsShift(es, k);
    ShiftKeepsIndices(es[..k] + es[k + 1..], es[k].position);
  }

  /** Renumbering positions leaves the keys as they were. */
  lemma ShiftKeepsIndices(es: seq<TabEntry>, c: nat)
    requires IndicesIncreasing(es)
    ensures IndicesIncreasing(ShiftAll(es, c))
  {
    var r := ShiftAll(es, c);
    forall i, j | 0 <= i < j < |r| ensures r[i].index < r[j].index {
      assert r[i].index == es[i].index && r[j].index == es[j].index;
    }
  }

  /** Closing a tab keeps a contiguous bar contiguous, now over 0 .. n-2. */
  lemma CloseKeepsContiguous(es: seq<TabEntry>, k: nat)
    requires k < |es| && Contiguous(es)
    ensures Contiguous(CloseEntries(es, k))
  {
    ClosePositionsDistinct(es, k);
    ClosePositionsCovered(es, k);
  }

  lemma ClosePositionsDistinct(es: seq<TabEntry>, k: nat)
    requires k < |es| && Contiguous(es)
    ensures var r := CloseEntries(es, k);
      forall i, j | 0 <= i < j < |r| :: r[i].position != r[j].position
  {
    var r := CloseEntries(es, k);
    var c := es[k].position;
    forall i, j | 0 <= i < j < |r| ensures r[i].position != r[j].position {
      var i' := if i < k then i else i + 1;
      var j' := if j < k then j else j + 1;
      assert es[i'].position != es[j'].position && es[i'].position != c && es[j'].position != c;
    }
  }

  lemma ClosePositionsCovered(es: seq<TabEntry>, k: nat)
    requires k < |es| && Contiguous(es)
    ensures var r := CloseEntries(es, k);
      forall p | 0 <= p < |r| :: HasPosition(r, p)
  {
    var r := CloseEntries(es, k);
    var c := es[k].position;
    forall p | 0 <= p < |r| ensures HasPosition(r, p) {
      var target := if p < c then p else p + 1;
      assert HasPosition(es, target);
      var i' :| 0 <= i' < |es| && es[i'].position == target;
      var i := if i' < k then i' else i' - 1;
      assert r[i].position == p;
    }
  }

  /** Closing a tab loses its key and no other. */
  lemma CloseLosesOnlyItsKey(es: seq<TabEntry>, k: nat)
    requires k < |es| && IndicesIncreasing(es)
    ensures IndexSet(CloseEntries(es, k)) == IndexSet(es) - {es[k].index}
  {
    CloseKeysKept(es, k);
    CloseKeysFromBefore(es, k);
  }

  lemma CloseKeysFromBefore(es: seq<TabEntry>, k: nat)
    requires k < |es| && IndicesIncreasing(es)
    ensures IndexSet(CloseEntries(es, k)) <= IndexSet(es) - {es[k].index}
  {
    var r := CloseEntries(es, k);
    forall q | q in IndexSet(r) ensures q in IndexSet(es) - {es[k].index} {
      var i :| 0 <= i < |r| && r[i].index == q;
      var i' := if i < k then i else i + 1;
      assert es[i'].index == q;
    }
  }

  lemma CloseKeysKept(es: seq<TabEntry>, k: nat)
    requires k < |es|
    ensures IndexSet(es) - {es[k].index} <= IndexSet(CloseEntries(es, k))
  {
    var r := CloseEntries(es, k);
    forall q | q in IndexSet(es) - {es[k].index} ensures q in IndexSet(r) {
      var i' :| 0 <= i' < |es| && es[i'].index == q;
      var i := if i' < k then i' else i' - 1;
      assert r[i].index == q;
    }
  }

  /** Closing the tab `new_tab` just added gives the bar back as it was. */
  lemma CloseUndoesNewTab(es: seq<TabEntry>)
    requires Contiguous(es)
    ensures var added := es + [TabEntry(NewIndex(es), |es|)];
      CloseEntries(added, |es|) == es
  {
    var added := es + [TabEntry(NewIndex(es), |es|)];
    var r := CloseEntries(added, |es|);
    forall i | 0 <= i < |es| ensures r[i] == es[i] {
      assert added[i] == es[i];
    }
  }

  /**
   * Closing the active one of several tabs on a contiguous bar hands the
   * focus to the tab before it (the last one when it was first), which
   * stays in the map.
   */
  lemma CloseHandsFocusToPrevious(es: seq<TabEntry>, k: nat)
    requires IndicesIncreasing(es) && Contiguous(es) && k < |es| && |es| > 1
    ensures FindIndex(es, es[k].index) == Some(k)
    ensures var b := SwitchPrevious(es, es[k].index);
      b.Some? && b.value in IndexSet(CloseEntries(es, k)) &&
      FindIndex(CloseEntries(es, k), b.value).Some?
  {
    FindIndexOfKey(es, k);
    SwitchPreviousMoves(es, es[k].index);
    CloseLosesOnlyItsKey(es, k);
    KeyIsFound(CloseEntries(es, k), SwitchPrevious(es, es[k].index).value);
  }

  // ---------------------------------------------------------------------------
  // Tab names
  // ---------------------------------------------------------------------------

  /** The input that clears the name. */
  const CLEAR: string := [0 as char]
  /** The delete and backspace keys. */
  const DELETE: string := [127 as char]
  const BACKSPACE: string := [8 as char]

  /**
   * `update_active_tab_name`: NUL clears the name, delete and backspace
   * remove its last character, anything else is appended.
   */
  function EditName(name: string, input: string): (r: string)
    ensures input == CLEAR ==> r == ""
    ensures (input == DELETE || input == BACKSPACE) ==>
      |r| == (if name == "" then 0 else |name| - 1) && r == name[..|r|]
    ensures input != CLEAR && input != DELETE && input != BACKSPACE ==>
      |r| == |name| + |input| && r[..|name|] == name && r[|name|..] == input
  {
    if input == CLEAR then ""
    else if input == DELETE || input == BACKSPACE then
      if name == "" then name else name[..|name| - 1]
    else name + input
  }

  /** Typing an ordinary character and then backspace gives the name back. */
  lemma BackspaceUndoesTyping(name: string, c: char)
    requires [c] != CLEAR && [c] != DELETE && [c] != BACKSPACE
    ensures EditName(EditName(name, [c]), BACKSPACE) == name
    ensures EditName(EditName(name, [c]), DELETE) == name
  {
    assert (name + [c])[..|name|] == name;
  }
}
