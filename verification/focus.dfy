/**
 * Focus cycling in a tab (zellij-server/src/tab.rs): `move_focus` walks the
 * selectable panes in id order, `focus_next_pane` and `focus_previous_pane`
 * walk them in reading order (by row, then by column, a stable sort).
 */
module Focus {
  import opened Wrappers
  import opened Panes
  import opened PaneMaps

  /** `Iterator::position`: the first place of `a` in `ids`. */
  function FirstIndex(ids: seq<PaneId>, a: PaneId): (k: nat)
    requires a in ids
    ensures k < |ids| && ids[k] == a
    ensures forall j | 0 <= j < k :: ids[j] != a
  {
    if ids[0] == a then 0 else 1 + FirstIndex(ids[1..], a)
  }

  lemma FirstIndexOfDistinct(ids: seq<PaneId>, k: nat)
    requires Distinct(ids) && k < |ids|
    ensures FirstIndex(ids, ids[k]) == k
  {
  }

  /** The entry after `a`, or the first entry when `a` is the last one. */
  function NextInCycle(ids: seq<PaneId>, a: PaneId): (r: PaneId)
    requires a in ids
    ensures r in ids
  {
    var k := FirstIndex(ids, a);
    if k + 1 < |ids| then ids[k + 1] else ids[0]
  }

  /** The entry before `a`, or the last entry when `a` is the first one. */
  function PreviousInCycle(ids: seq<PaneId>, a: PaneId): (r: PaneId)
    requires a in ids
    ensures r in ids
  {
    var k := FirstIndex(ids, a);
    if k == 0 then ids[|ids| - 1] else ids[k - 1]
  }

  /** In a list without repeats, stepping forward and then back returns to where the focus was. */
  lemma PreviousUndoesNext(ids: seq<PaneId>, a: PaneId)
    requires Distinct(ids) && a in ids
    ensures PreviousInCycle(ids, NextInCycle(ids, a)) == a
  {
    var k := FirstIndex(ids, a);
    if k + 1 < |ids| {
      FirstIndexOfDistinct(ids, k + 1);
    } else {
      FirstIndexOfDistinct(ids, 0);
    }
  }

  /** In a list without repeats, stepping back and then forward returns to where the focus was. */
  lemma NextUndoesPrevious(ids: seq<PaneId>, a: PaneId)
    requires Distinct(ids) && a in ids
    ensures NextInCycle(ids, PreviousInCycle(ids, a)) == a
  {
    var k := FirstIndex(ids, a);
    if k == 0 {
      FirstIndexOfDistinct(ids, |ids| - 1);
    } else {
      FirstIndexOfDistinct(ids, k - 1);
    }
  }

  /**
   * In a list in increasing id order, the next entry is the smallest id
   * after `a`, and when there is none the smallest id of all: focus moves
   * to the next pane in id order and wraps to the first.
   */
  lemma NextInCycleIsSuccessor(ids: seq<PaneId>, a: PaneId)
    requires Increasing(ids) && a in ids
    ensures var r := NextInCycle(ids, a);
      (exists b | b in ids :: IdBefore(a, b)) ==>
        IdBefore(a, r) && forall b | b in ids && IdBefore(a, b) :: r == b || IdBefore(r, b)
    ensures var r := NextInCycle(ids, a);
      (forall b | b in ids :: !IdBefore(a, b)) ==> forall b | b in ids :: r == b || IdBefore(r, b)
  {
    var k := FirstIndex(ids, a);
    var r := NextInCycle(ids, a);
    forall b | b in ids && IdBefore(a, b) ensures k + 1 < |ids| && (r == b || IdBefore(r, b)) {
      var j :| 0 <= j < |ids| && ids[j] == b;
      IdOrder(a, b, b);
    }
    forall b | b in ids ensures r == ids[0] ==> r == b || IdBefore(r, b) {
      var j :| 0 <= j < |ids| && ids[j] == b;
    }
  }

  // ---------------------------------------------------------------------------
  // Reading order
  // ---------------------------------------------------------------------------

  /** The comparator of `focus_next_pane` does not put `a` after `b`: by row, then by column. */
  predicate PositionBefore(a: Pane, b: Pane)
  {
    a.y < b.y || (a.y == b.y && a.x <= b.x)
  }

  predicate SortedByPosition(s: seq<Pane>)
  {
    forall i, j | 0 <= i < j < |s| :: PositionBefore(s[i], s[j])
  }

  predicate DistinctIds(s: seq<Pane>)
  {
    forall i, j | 0 <= i < j < |s| :: s[i].id != s[j].id
  }

  /**
   * Inserting `p` in front of the first pane it does not come after: the
   * step of a stable insertion sort.
   */
  function InsertByPosition(p: Pane, sorted: seq<Pane>): (r: seq<Pane>)
    ensures multiset(r) == multiset(sorted) + multiset{p}
    ensures forall q :: q in r <==> q == p || q in sorted
  {
    if sorted == [] then [p]
    else if PositionBefore(p, sorted[0]) then
      assert multiset([p] + sorted) == multiset(sorted) + multiset{p};
      [p] + sorted
    else
      var rest := InsertByPosition(p, sorted[1..]);
      assert sorted == [sorted[0]] + sorted[1..];
      assert multiset([sorted[0]] + rest) == multiset(sorted) + multiset{p};
      [sorted[0]] + rest
  }

  lemma {:induction false} InsertKeepsSorted(p: Pane, sorted: seq<Pane>)
    requires SortedByPosition(sorted)
    ensures SortedByPosition(InsertByPosition(p, sorted))
  {
    if sorted != [] && !PositionBefore(p, sorted[0]) {
      var rest := InsertByPosition(p, sorted[1..]);
      InsertKeepsSorted(p, sorted[1..]);
      forall q | q in rest ensures PositionBefore(sorted[0], q) {
        if q != p {
          var i :| 0 <= i < |sorted[1..]| && sorted[1..][i] == q;
          assert sorted[i + 1] == q;
        }
      }
      var r := [sorted[0]] + rest;
      forall i, j | 0 <= i < j < |r| ensures PositionBefore(r[i], r[j]) {
        if i == 0 {
          assert r[j] in rest;
        } else {
          assert r[i] == rest[i - 1] && r[j] == rest[j - 1];
        }
      }
    }
  }

  lemma {:induction false} InsertKeepsDistinct(p: Pane, sorted: seq<Pane>)
    requires DistinctIds(sorted) && forall q | q in sorted :: q.id != p.id
    ensures DistinctIds(InsertByPosition(p, sorted))
  {
    if sorted != [] && !PositionBefore(p, sorted[0]) {
      var rest := InsertByPosition(p, sorted[1..]);
      InsertKeepsDistinct(p, sorted[1..]);
      forall q | q in rest ensures q.id != sorted[0].id {
        if q != p {
          var i :| 0 <= i < |sorted[1..]| && sorted[1..][i] == q;
          assert sorted[i + 1] == q;
        }
      }
      var r := [sorted[0]] + rest;
      forall i, j | 0 <= i < j < |r| ensures r[i].id != r[j].id {
        if i == 0 {
          assert r[j] in rest;
        } else {
          assert r[i] == rest[i - 1] && r[j] == rest[j - 1];
        }
      }
    } else if sorted != [] {
      var r := [p] + sorted;
      forall i, j | 0 <= i < j < |r| ensures r[i].id != r[j].id {
        if i == 0 {
          assert r[j] in sorted;
        } else {
          assert r[i] == sorted[i - 1] && r[j] == sorted[j - 1];
        }
      }
    }
  }

  /** Without its first pane, a list of distinct ids stays distinct and never repeats that pane's id. */
  lemma DistinctTail(s: seq<Pane>)
    requires s != [] && DistinctIds(s)
    ensures DistinctIds(s[1..])
    ensures forall q | q in s[1..] :: q.id != s[0].id
  {
    forall q | q in s[1..] ensures q.id != s[0].id {
      var i :| 0 <= i < |s[1..]| && s[1..][i] == q;
      assert s[i + 1] == q;
    }
    forall i, j | 0 <= i < j < |s[1..]| ensures s[1..][i].id != s[1..][j].id {
      assert s[1..][i] == s[i + 1] && s[1..][j] == s[j + 1];
    }
  }

  /** `sort_by` on the selectable panes: a stable sort into reading order. */
  function SortByPosition(s: seq<Pane>): (r: seq<Pane>)
    ensures multiset(r) == multiset(s)
    ensures forall q :: q in r <==> q in s
    ensures SortedByPosition(r)
    ensures DistinctIds(s) ==> DistinctIds(r)
  {
    if s == [] then []
    else
      assert s == [s[0]] + s[1..];
      var rest := SortByPosition(s[1..]);
      InsertKeepsSorted(s[0], rest);
      if DistinctIds(s) then
        DistinctTail(s);
        InsertKeepsDistinct(s[0], rest);
        InsertByPosition(s[0], rest)
      else
        InsertByPosition(s[0], rest)
  }

  /** The ids in the order `focus_next_pane` and `focus_previous_pane` cycle through. */
  function FocusOrder(ps: seq<Pane>): (r: seq<PaneId>)
    ensures forall q :: q in r <==> q in SelectableIds(ps)
    ensures IdsIncreasing(ps) ==> Distinct(r)
  {
    var sorted := SortByPosition(SelectablePanes(ps));
    IdsMembership(sorted);
    IdsMembership(SelectablePanes(ps));
    if IdsIncreasing(ps) then
      IncreasingIsDistinct(Ids(SelectablePanes(ps)));
      assert DistinctIds(SelectablePanes(ps));
      Ids(sorted)
    else
      Ids(sorted)
  }

  /**
   * The reading order holds every selectable pane once, sorted by row and
   * then by column.
   */
  lemma FocusOrderIsReadingOrder(ps: seq<Pane>)
    requires IdsIncreasing(ps)
    ensures var sorted := SortByPosition(SelectablePanes(ps));
      FocusOrder(ps) == Ids(sorted) && SortedByPosition(sorted) &&
      multiset(sorted) == multiset(SelectablePanes(ps))
  {
  }

  /**
   * `focus_next_pane` followed by `focus_previous_pane`, and the other way
   * round, gives the focus back to the pane that had it.
   */
  lemma FocusPreviousUndoesNext(ps: seq<Pane>, a: PaneId)
    requires IdsIncreasing(ps) && a in SelectableIds(ps)
    ensures NextInCycle(FocusOrder(ps), a) in SelectableIds(ps)
    ensures PreviousInCycle(FocusOrder(ps), NextInCycle(FocusOrder(ps), a)) == a
    ensures NextInCycle(FocusOrder(ps), PreviousInCycle(FocusOrder(ps), a)) == a
  {
    PreviousUndoesNext(FocusOrder(ps), a);
    NextUndoesPrevious(FocusOrder(ps), a);
  }
}
