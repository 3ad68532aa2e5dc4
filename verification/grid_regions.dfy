/**
 * How the methods of `Grid` (zellij-server/src/panes/grid.rs) that work on
 * the scroll region move the rows of the viewport: each of them removes one
 * row and inserts a blank one per step, so that the rows outside the region
 * stay where they are.
 */
module GridRegions {
  import opened Wrappers
  import opened Rows
  import opened GridBuffers

  /** `Vec::remove`. */
  function RemoveAt(rows: seq<Row>, i: nat): (r: seq<Row>)
    requires i < |rows|
    ensures |r| == |rows| - 1
  {
    rows[..i] + rows[i + 1..]
  }

  /** `Vec::insert`. */
  function InsertAt(rows: seq<Row>, i: nat, row: Row): (r: seq<Row>)
    requires i <= |rows|
    ensures |r| == |rows| + 1
  {
    rows[..i] + [row] + rows[i..]
  }

  /** The rows before the removed one stay, the rows after it move up by one. */
  lemma RemoveAtShifts(rows: seq<Row>, i: nat)
    requires i < |rows|
    ensures var r := RemoveAt(rows, i);
      (forall k | 0 <= k < i :: r[k] == rows[k]) && (forall k | i <= k < |r| :: r[k] == rows[k + 1])
  {
  }

  /** The inserted row is at `i`; the rows before it stay and the rows after it move down by one. */
  lemma InsertAtShifts(rows: seq<Row>, i: nat, row: Row)
    requires i <= |rows|
    ensures var r := InsertAt(rows, i, row);
      r[i] == row && (forall k | 0 <= k < i :: r[k] == rows[k]) && (forall k | i < k < |r| :: r[k] == rows[k - 1])
  {
  }

  /** `after` has as many rows as `before` and the same ones outside lines `top..=bottom`. */
  ghost predicate SameOutside(before: seq<Row>, after: seq<Row>, top: nat, bottom: nat)
  {
    |after| == |before| &&
    forall k | 0 <= k < |before| && (k < top || bottom < k) :: after[k] == before[k]
  }

  lemma SameOutsideTransitive(a: seq<Row>, b: seq<Row>, c: seq<Row>, top: nat, bottom: nat)
    requires SameOutside(a, b, top, bottom) && SameOutside(b, c, top, bottom)
    ensures SameOutside(a, c, top, bottom)
  {
  }

  /** Removing a row and inserting one, both within lines `top..=bottom`, touches nothing outside them. */
  lemma RemoveInsertWithin(rows: seq<Row>, removed: nat, inserted: nat, row: Row, top: nat, bottom: nat)
    requires top <= removed <= bottom < |rows| && top <= inserted <= bottom
    ensures SameOutside(rows, InsertAt(RemoveAt(rows, removed), inserted, row), top, bottom)
  {
    var r := InsertAt(RemoveAt(rows, removed), inserted, row);
    RemoveAtShifts(rows, removed);
    InsertAtShifts(RemoveAt(rows, removed), inserted, row);
    forall k | 0 <= k < |rows| && (k < top || bottom < k) ensures r[k] == rows[k] {
      if bottom < k {
        assert r[k] == RemoveAt(rows, removed)[k - 1];
      }
    }
  }

  /** The blank canonical row of `width` copies of `pad` that the region operations insert. */
  function BlankRow(width: nat, pad: TerminalCharacter): Row
  {
    Row(seq(width, _ => pad), true)
  }

  // ---------------------------------------------------------------------------
  // rotate_scroll_region_up
  // ---------------------------------------------------------------------------

  /** One step of `rotate_scroll_region_up`: the bottom row goes, a blank row comes in at the top. */
  function RotateUpStep(rows: seq<Row>, top: nat, bottom: nat, blank: Row): seq<Row>
  {
    var removed := if bottom < |rows| then RemoveAt(rows, bottom) else rows;
    if top < |removed| then InsertAt(removed, top, blank) else removed
  }

  function RotateUp(rows: seq<Row>, top: nat, bottom: nat, blank: Row, count: nat): seq<Row>
    decreases count
  {
    if count == 0 then rows else RotateUp(RotateUpStep(rows, top, bottom, blank), top, bottom, blank, count - 1)
  }

  /**
   * With the region inside the viewport and not reduced to its last row,
   * rotating it up keeps the viewport's size and every row outside the region,
   * and the top row of the region is blank afterwards.
   */
  lemma {:induction false} RotateUpKeepsOutside(rows: seq<Row>, top: nat, bottom: nat, blank: Row, count: nat)
    requires top <= bottom < |rows| && top + 1 < |rows|
    ensures SameOutside(rows, RotateUp(rows, top, bottom, blank, count), top, bottom)
    ensures count > 0 ==> RotateUp(rows, top, bottom, blank, count)[top] == blank
    decreases count
  {
    if count > 0 {
      var next := RotateUpStep(rows, top, bottom, blank);
      RemoveInsertWithin(rows, bottom, top, blank, top, bottom);
      RotateUpKeepsOutside(next, top, bottom, blank, count - 1);
      SameOutsideTransitive(rows, next, RotateUp(next, top, bottom, blank, count - 1), top, bottom);
    }
  }

  /**
   * As written, a region made of only the last row of the viewport loses that
   * row to `rotate_scroll_region_up`: it is removed, and the guard on the
   * insertion (top below the shortened length) then fails.
   */
  lemma RotateUpShrinksLastRowRegion(rows: seq<Row>, blank: Row)
    requires |rows| > 0
    ensures |RotateUpStep(rows, |rows| - 1, |rows| - 1, blank)| == |rows| - 1
  {
  }

  /** One step with the insertion allowed at the end (`top <= len`), as evidently intended. */
  function RotateUpStepCorrected(rows: seq<Row>, top: nat, bottom: nat, blank: Row): seq<Row>
  {
    var removed := if bottom < |rows| then RemoveAt(rows, bottom) else rows;
    if top <= |removed| then InsertAt(removed, top, blank) else removed
  }

  /** The corrected step keeps the viewport's size for every region inside the viewport. */
  lemma RotateUpCorrectedKeepsOutside(rows: seq<Row>, top: nat, bottom: nat, blank: Row)
    requires top <= bottom < |rows|
    ensures SameOutside(rows, RotateUpStepCorrected(rows, top, bottom, blank), top, bottom)
    ensures RotateUpStepCorrected(rows, top, bottom, blank)[top] == blank
  {
    RemoveInsertWithin(rows, bottom, top, blank, top, bottom);
  }

  // ---------------------------------------------------------------------------
  // rotate_scroll_region_down
  // ---------------------------------------------------------------------------

  /**
   * One step of `rotate_scroll_region_down`: the top row goes, a blank row
   * comes in at the bottom (or at the end, when nothing is left past the top).
   */
  function RotateDownStep(rows: seq<Row>, top: nat, bottom: nat, blank: Row): (r: seq<Row>)
    requires CanRotateDown(rows, top, bottom)
    ensures |r| == |rows|
  {
    var removed := RemoveAt(rows, top);
    if |removed| > top then InsertAt(removed, bottom, blank) else removed + [blank]
  }

  /** The removal at the top and the insertion at the bottom are within the vector's bounds. */
  predicate CanRotateDown(rows: seq<Row>, top: nat, bottom: nat)
  {
    top < |rows| && (top < |rows| - 1 ==> bottom <= |rows| - 1)
  }

  /**
   * `count` steps of `rotate_scroll_region_down`. None where the source
   * panics: the removal or the insertion of the first step is out of bounds
   * (every step keeps the length, so a later step cannot fail where the
   * first succeeded).
   */
  function RotateDown(rows: seq<Row>, top: nat, bottom: nat, blank: Row, count: nat): (r: Option<seq<Row>>)
    ensures r.None? <==> count > 0 && !CanRotateDown(rows, top, bottom)
    ensures r.Some? ==> |r.value| == |rows|
    decreases count
  {
    if count == 0 then Some(rows)
    else if !CanRotateDown(rows, top, bottom) then None
    else RotateDown(RotateDownStep(rows, top, bottom, blank), top, bottom, blank, count - 1)
  }

  /**
   * With the region inside the viewport, rotating it down never panics, keeps
   * every row outside it, and its bottom row is blank afterwards.
   */
  lemma {:induction false} RotateDownKeepsOutside(rows: seq<Row>, top: nat, bottom: nat, blank: Row, count: nat)
    requires top <= bottom < |rows|
    ensures RotateDown(rows, top, bottom, blank, count).Some?
    ensures SameOutside(rows, RotateDown(rows, top, bottom, blank, count).value, top, bottom)
    ensures count > 0 ==> RotateDown(rows, top, bottom, blank, count).value[bottom] == blank
    decreases count
  {
    if count > 0 {
      var next := RotateDownStep(rows, top, bottom, blank);
      if top < |rows| - 1 {
        RemoveInsertWithin(rows, top, bottom, blank, top, bottom);
      } else {
        assert next == rows[..top] + [blank];
      }
      RotateDownKeepsOutside(next, top, bottom, blank, count - 1);
      SameOutsideTransitive(rows, next, RotateDown(next, top, bottom, blank, count - 1).value, top, bottom);
    }
  }

  /**
   * As written, rotating down panics for a region that ends at the screen
   * height, the bottom `set_scroll_region` gives when none is sent: once the
   * top row is gone, the blank row is inserted past the end of the viewport.
   */
  lemma RotateDownPanicsOnDefaultBottom(rows: seq<Row>, blank: Row)
    requires |rows| >= 2
    ensures !CanRotateDown(rows, 0, |rows|)
    ensures RotateDown(rows, 0, |rows|, blank, 1).None?
  {
  }

  /**
   * One step of rotating down as evidently intended: a region that starts
   * past the viewport is left alone, and a bottom past the viewport's end
   * puts the blank row at the end, as the line feed at a region's bottom does.
   */
  function RotateDownStepCorrected(rows: seq<Row>, top: nat, bottom: nat, blank: Row): (r: seq<Row>)
    ensures |r| == |rows|
  {
    if top < |rows| then ScrollRegionStep(rows, top, bottom, blank) else rows
  }

  function RotateDownCorrected(rows: seq<Row>, top: nat, bottom: nat, blank: Row, count: nat): (r: seq<Row>)
    ensures |r| == |rows|
    decreases count
  {
    if count == 0 then rows
    else RotateDownCorrected(RotateDownStepCorrected(rows, top, bottom, blank), top, bottom, blank, count - 1)
  }

  /**
   * The corrected rotation keeps every row outside the region, whose bottom
   * is clamped to the last row, and leaves that row blank.
   */
  lemma {:induction false} RotateDownCorrectedKeepsOutside(rows: seq<Row>, top: nat, bottom: nat, blank: Row, count: nat)
    requires top <= bottom && top < |rows|
    ensures var last := if bottom < |rows| then bottom else |rows| - 1;
      var r := RotateDownCorrected(rows, top, bottom, blank, count);
      SameOutside(rows, r, top, last) && (count > 0 ==> r[last] == blank)
    decreases count
  {
    if count > 0 {
      var last := if bottom < |rows| then bottom else |rows| - 1;
      var next := RotateDownStepCorrected(rows, top, bottom, blank);
      assert next == ScrollRegionStep(rows, top, last, blank);
      ScrollRegionStepKeepsOutside(rows, top, last, blank);
      RotateDownCorrectedKeepsOutside(next, top, bottom, blank, count - 1);
      SameOutsideTransitive(rows, next, RotateDownCorrected(next, top, bottom, blank, count - 1), top, last);
    }
  }

  /** Wherever the region lies inside the viewport, the corrected rotation is the source's. */
  lemma {:induction false} RotateDownCorrectedAgrees(rows: seq<Row>, top: nat, bottom: nat, blank: Row, count: nat)
    requires top <= bottom < |rows|
    ensures RotateDown(rows, top, bottom, blank, count) == Some(RotateDownCorrected(rows, top, bottom, blank, count))
    decreases count
  {
    if count > 0 {
      RotateDownIsNewLineAtBottom(rows, top, bottom, blank);
      RotateDownCorrectedAgrees(RotateDownStep(rows, top, bottom, blank), top, bottom, blank, count - 1);
    }
  }

  // ---------------------------------------------------------------------------
  // delete_lines_in_scroll_region
  // ---------------------------------------------------------------------------

  /** One step of `delete_lines_in_scroll_region`: the cursor's row goes, a blank one comes in at the bottom. */
  function DeleteLineStep(rows: seq<Row>, current: nat, bottom: nat, blank: Row): (r: seq<Row>)
    requires current < |rows|
    ensures |r| == |rows|
  {
    var removed := RemoveAt(rows, current);
    if |removed| > bottom then InsertAt(removed, bottom, blank) else removed + [blank]
  }

  function DeleteLines(rows: seq<Row>, current: nat, bottom: nat, blank: Row, count: nat): (r: seq<Row>)
    requires count > 0 ==> current < |rows|
    ensures |r| == |rows|
    decreases count
  {
    if count == 0 then rows else DeleteLines(DeleteLineStep(rows, current, bottom, blank), current, bottom, blank, count - 1)
  }

  /**
   * Deleting lines at the cursor, inside a region that lies within the
   * viewport, keeps the region's size and the rows above the cursor and below
   * the region; its bottom row is blank afterwards.
   */
  lemma {:induction false} DeleteLinesKeepsOutside(rows: seq<Row>, current: nat, bottom: nat, blank: Row, count: nat)
    requires current <= bottom < |rows|
    ensures SameOutside(rows, DeleteLines(rows, current, bottom, blank, count), current, bottom)
    ensures count > 0 ==> DeleteLines(rows, current, bottom, blank, count)[bottom] == blank
    decreases count
  {
    if count > 0 {
      var next := DeleteLineStep(rows, current, bottom, blank);
      RemoveInsertWithin(rows, current, bottom, blank, current, bottom);
      DeleteLinesKeepsOutside(next, current, bottom, blank, count - 1);
      SameOutsideTransitive(rows, next, DeleteLines(next, current, bottom, blank, count - 1), current, bottom);
    }
  }

  // ---------------------------------------------------------------------------
  // add_empty_lines_in_scroll_region
  // ---------------------------------------------------------------------------

  /** The length after the removal at the bottom of the region, where the insertion at the cursor happens. */
  function LengthAfterRemoval(rows: seq<Row>, bottom: nat): nat
  {
    if bottom < |rows| then |rows| - 1 else |rows|
  }

  /** One step of `add_empty_lines_in_scroll_region`: the bottom row goes, a blank one comes in at the cursor. */
  function AddEmptyLineStep(rows: seq<Row>, current: nat, bottom: nat, blank: Row): (r: seq<Row>)
    requires current <= LengthAfterRemoval(rows, bottom)
    ensures |r| == LengthAfterRemoval(rows, bottom) + 1
  {
    var removed := if bottom < |rows| then RemoveAt(rows, bottom) else rows;
    InsertAt(removed, current, blank)
  }

  function AddEmptyLines(rows: seq<Row>, current: nat, bottom: nat, blank: Row, count: nat): seq<Row>
    requires count > 0 ==> current <= LengthAfterRemoval(rows, bottom)
    decreases count
  {
    if count == 0 then rows else AddEmptyLines(AddEmptyLineStep(rows, current, bottom, blank), current, bottom, blank, count - 1)
  }

  /**
   * Adding empty lines at the cursor, inside a region that lies within the
   * viewport, keeps the region's size and the rows above the cursor and below
   * the region; the cursor's row is blank afterwards.
   */
  lemma {:induction false} AddEmptyLinesKeepsOutside(rows: seq<Row>, current: nat, bottom: nat, blank: Row, count: nat)
    requires current <= bottom < |rows|
    ensures SameOutside(rows, AddEmptyLines(rows, current, bottom, blank, count), current, bottom)
    ensures count > 0 ==> AddEmptyLines(rows, current, bottom, blank, count)[current] == blank
    decreases count
  {
    if count > 0 {
      var next := AddEmptyLineStep(rows, current, bottom, blank);
      RemoveInsertWithin(rows, bottom, current, blank, current, bottom);
      AddEmptyLinesKeepsOutside(next, current, bottom, blank, count - 1);
      SameOutsideTransitive(rows, next, AddEmptyLines(next, current, bottom, blank, count - 1), current, bottom);
    }
  }

  /** Deleting a line at the cursor undoes adding one there, when the region lies within the viewport. */
  lemma DeleteUndoesAddEmpty(rows: seq<Row>, current: nat, bottom: nat, blank: Row)
    requires current <= bottom < |rows| && rows[bottom] == blank
    ensures DeleteLineStep(AddEmptyLineStep(rows, current, bottom, blank), current, bottom, blank) == rows
  {
    var removed := RemoveAt(rows, bottom);
    RemoveUndoesInsert(removed, current, blank);
    assert removed[..bottom] == rows[..bottom] && removed[bottom..] == rows[bottom + 1..];
    if |removed| > bottom {
      assert InsertAt(removed, bottom, blank) == rows[..bottom] + [blank] + rows[bottom + 1..];
    }
    assert rows == rows[..bottom] + [blank] + rows[bottom + 1..];
  }

  /** Removing the row just inserted gives the rows back. */
  lemma RemoveUndoesInsert(rows: seq<Row>, i: nat, row: Row)
    requires i <= |rows|
    ensures RemoveAt(InsertAt(rows, i, row), i) == rows
  {
    var added := InsertAt(rows, i, row);
    assert added[..i] == rows[..i] && added[i + 1..] == rows[i..];
  }

  // ---------------------------------------------------------------------------
  // add_canonical_line at the bottom of the scroll region
  // ---------------------------------------------------------------------------

  /**
   * A new line at the bottom of the scroll region: the region's top row goes
   * and a blank row comes in at its bottom (or at the end of a shorter viewport).
   */
  function ScrollRegionStep(rows: seq<Row>, top: nat, bottom: nat, blank: Row): (r: seq<Row>)
    requires top < |rows|
    ensures |r| == |rows|
  {
    var removed := RemoveAt(rows, top);
    if |removed| >= bottom then InsertAt(removed, bottom, blank) else removed + [blank]
  }

  /** With the region inside the viewport, the new line keeps every row outside it. */
  lemma ScrollRegionStepKeepsOutside(rows: seq<Row>, top: nat, bottom: nat, blank: Row)
    requires top <= bottom < |rows|
    ensures SameOutside(rows, ScrollRegionStep(rows, top, bottom, blank), top, bottom)
    ensures ScrollRegionStep(rows, top, bottom, blank)[bottom] == blank
  {
    RemoveInsertWithin(rows, top, bottom, blank, top, bottom);
  }

  /** Rotating the region down by one is the same as a new line at the region's bottom, when the region fits. */
  lemma RotateDownIsNewLineAtBottom(rows: seq<Row>, top: nat, bottom: nat, blank: Row)
    requires top <= bottom < |rows|
    ensures CanRotateDown(rows, top, bottom)
    ensures RotateDownStep(rows, top, bottom, blank) == ScrollRegionStep(rows, top, bottom, blank)
  {
  }
}
