/**
 * The terminal grid of a pane (`Grid` in zellij-server/src/panes/grid.rs):
 * the scrollback above the viewport, the viewport itself, the rows scrolled
 * below it, the tabstops and the cursor, with the cursor, tabstop and
 * scrolling operations that change them in place.
 */
module Grids {
  import opened Wrappers
  import opened Rows
  import opened GridBuffers
  import opened GridTabstops
  import opened GridRegions

  /** The cursor: its column, its line in the viewport, and whether it is hidden. */
  datatype Cursor = Cursor(x: nat, y: nat, isHidden: bool)

  /** `usize::saturating_sub`. */
  function SaturatingSub(a: nat, b: nat): nat
  {
    if a < b then 0 else a - b
  }

  function Min(a: nat, b: nat): nat
  {
    if a < b then a else b
  }

  // ---------------------------------------------------------------------------
  // Scrolling the viewport by several lines
  // ---------------------------------------------------------------------------

  /** `count` calls of `scroll_up_one_line`; None where one of them would panic. */
  function ScrollUpBy(b: Lines, height: nat, count: nat): Option<Lines>
    decreases count
  {
    if count == 0 then Some(b)
    else match ScrollUp(b, height)
      case None => None
      case Some(next) => ScrollUpBy(next, height, count - 1)
  }

  /** `count` calls of `scroll_down_one_line`; None where one of them would panic. */
  function ScrollDownBy(b: Lines, height: nat, count: nat): Option<Lines>
    decreases count
  {
    if count == 0 then Some(b)
    else match ScrollDown(b, height)
      case None => None
      case Some(next) => ScrollDownBy(next, height, count - 1)
  }

  /** Moving the viewport up by any number of lines keeps every row, in order. */
  lemma {:induction false} ScrollUpByKeepsRows(b: Lines, height: nat, count: nat)
    requires ScrollUpBy(b, height, count).Some?
    ensures var r := ScrollUpBy(b, height, count).value;
      |r.viewport| == |b.viewport| && AllRows(r) == AllRows(b)
    decreases count
  {
    if count > 0 {
      var next := ScrollUp(b, height).value;
      ScrollUpKeepsRows(b, height);
      ScrollUpByKeepsRows(next, height, count - 1);
    }
  }

  /**
   * Moving the viewport down by any number of lines keeps the characters of
   * all rows in order, less some at the front of a full scrollback.
   */
  lemma {:induction false} ScrollDownByKeepsCharacters(b: Lines, height: nat, count: nat)
    requires ScrollDownBy(b, height, count).Some?
    ensures var r := ScrollDownBy(b, height, count).value;
      |r.viewport| == |b.viewport| && IsSuffix(Flatten(AllRows(r)), Flatten(AllRows(b)))
    decreases count
  {
    var r := ScrollDownBy(b, height, count).value;
    if count == 0 {
      SuffixReflexive(Flatten(AllRows(b)));
    } else {
      var next := ScrollDown(b, height).value;
      assert r == ScrollDownBy(next, height, count - 1).value;
      ScrollDownKeepsCharacters(b, height);
      ScrollDownByKeepsCharacters(next, height, count - 1);
      SuffixTransitive(Flatten(AllRows(r)), Flatten(AllRows(next)), Flatten(AllRows(b)));
    }
  }

  /** A scroll down with a full viewport and rows below takes exactly one row from below. */
  lemma ScrollDownTakesOneBelow(b: Lines, height: nat)
    requires ScrollDown(b, height).Some? && b.below != [] && |b.viewport| == height
    ensures ScrollDown(b, height).value.below == b.below[1..]
    ensures |ScrollDown(b, height).value.viewport| == height
  {
  }

  /**
   * `reset_viewport` scrolls down once per row below the viewport; with a
   * full viewport that brings every one of them back, leaving none below.
   */
  lemma {:induction false} ResetLeavesNothingBelow(b: Lines, height: nat, count: nat)
    requires |b.viewport| == height && count == |b.below|
    requires ScrollDownBy(b, height, count).Some?
    ensures ScrollDownBy(b, height, count).value.below == []
    decreases count
  {
    if count > 0 {
      ScrollDownTakesOneBelow(b, height);
      ResetLeavesNothingBelow(ScrollDown(b, height).value, height, count - 1);
    }
  }

  // ---------------------------------------------------------------------------
  // Padding
  // ---------------------------------------------------------------------------

  /** A row padded with empty characters up to `position` columns (`pad_current_line_until`). */
  function PaddedTo(row: Row, position: nat): (r: Row)
    ensures r.isCanonical == row.isCanonical
    ensures |r.columns| == if |row.columns| < position then position else |row.columns|
    ensures r.columns[..|row.columns|] == row.columns
    ensures forall i | |row.columns| <= i < |r.columns| :: r.columns[i] == EMPTY_CHARACTER
  {
    if |row.columns| < position then Row(row.columns + seq(position - |row.columns|, _ => EMPTY_CHARACTER), row.isCanonical)
    else row
  }

  /** The viewport grown with pad rows until it has a row at index `position` (`pad_lines_until`). */
  function LinesPaddedUntil(rows: seq<Row>, position: nat, width: nat, pad: TerminalCharacter): (r: seq<Row>)
    ensures |r| == if |rows| <= position then position + 1 else |rows|
    ensures r[..|rows|] == rows
    ensures forall k | |rows| <= k < |r| :: r[k] == BlankRow(width, pad)
  {
    if |rows| <= position then rows + seq(position + 1 - |rows|, _ => BlankRow(width, pad)) else rows
  }

  // ---------------------------------------------------------------------------
  // New lines and reverse index
  // ---------------------------------------------------------------------------

  /** What a new line changes: the scrollback, the viewport and the cursor's line. */
  datatype Page = Page(above: seq<Row>, viewport: seq<Row>, y: nat)

  /** `self.height - 1` is evaluated (and must not underflow) unless the cursor is at the region's bottom. */
  predicate AtRegionBottom(y: nat, region: Option<(nat, nat)>)
  {
    region.Some? && y == region.value.1
  }

  /**
   * `add_canonical_line`. At the bottom of the scroll region the region's rows
   * move up by one (nothing happens when the region starts past the viewport).
   * Elsewhere an empty canonical row is appended when the cursor is on the
   * last row there is, and then either the cursor moves down a line or, on
   * the last line of the screen, the top row of the viewport moves into the
   * scrollback.
   */
  function NewCanonicalLine(p: Page, region: Option<(nat, nat)>, height: nat, width: nat): (r: Page)
    requires height > 0 || AtRegionBottom(p.y, region)
    ensures |p.above| <= SCROLL_BACK ==> |r.above| <= SCROLL_BACK
  {
    if AtRegionBottom(p.y, region) then
      var (top, bottom) := region.value;
      if top >= |p.viewport| then p
      else p.(viewport := ScrollRegionStep(p.viewport, top, bottom, BlankRow(width, EMPTY_CHARACTER)))
    else
      var rows := if |p.viewport| <= p.y + 1 then p.viewport + [Row([], true)] else p.viewport;
      if p.y == height - 1 then
        var moved := StepUp(rows, p.above);
        Page(moved.1, moved.0, p.y)
      else
        Page(p.above, rows, p.y + 1)
  }

  /** `count` calls of `add_canonical_line`. */
  function NewCanonicalLines(p: Page, region: Option<(nat, nat)>, height: nat, width: nat, count: nat): (r: Page)
    requires height > 0
    ensures |p.above| <= SCROLL_BACK ==> |r.above| <= SCROLL_BACK
    decreases count
  {
    if count == 0 then p
    else NewCanonicalLine(NewCanonicalLines(p, region, height, width, count - 1), region, height, width)
  }

  /** The characters of `after`'s scrollback and viewport are those of `before`'s, less some at the front. */
  ghost predicate KeepsText(after: Page, before: Page)
  {
    IsSuffix(Text(after), Text(before))
  }

  /** The characters of the scrollback and the viewport, in order. */
  function Text(p: Page): seq<TerminalCharacter>
  {
    Flatten(p.above) + Flatten(p.viewport)
  }

  /**
   * A new line with the cursor on the last line of a full viewport and no
   * scroll region at the cursor: the top row goes to the scrollback, an empty
   * row comes in at the bottom and the cursor stays.
   */
  lemma NewLineAtBottomShifts(p: Page, region: Option<(nat, nat)>, height: nat, width: nat)
    requires height > 0 && !AtRegionBottom(p.y, region)
    requires |p.viewport| == height && p.y == height - 1
    ensures var r := NewCanonicalLine(p, region, height, width);
      r.y == p.y && r.viewport == p.viewport[1..] + [Row([], true)]
  {
    var rows := p.viewport + [Row([], true)];
    assert rows[1..] == p.viewport[1..] + [Row([], true)];
  }

  lemma NewLineAtBottomStays(p: Page, height: nat, width: nat)
    requires height > 0 && |p.viewport| == height && p.y == height - 1
    ensures var r := NewCanonicalLine(p, None, height, width);
      r.y == p.y && |r.viewport| == height
  {
    NewLineAtBottomShifts(p, None, height, width);
  }

  /** ... and the characters of scrollback and viewport are kept in order, but for the front of a full scrollback. */
  lemma NewLineAtBottomKeepsText(p: Page, height: nat, width: nat)
    requires height > 0 && |p.viewport| == height && p.y == height - 1
    ensures KeepsText(NewCanonicalLine(p, None, height, width), p)
  {
    NewLineAtBottomSteps(p, height, width);
    LineFeedKeepsText(p.above, p.viewport);
  }

  lemma NewLineAtBottomSteps(p: Page, height: nat, width: nat)
    requires height > 0 && |p.viewport| == height && p.y == height - 1
    ensures var moved := StepUp(p.viewport + [Row([], true)], p.above);
      NewCanonicalLine(p, None, height, width) == Page(moved.1, moved.0, p.y)
  {
  }

  lemma LineFeedKeepsText(above: seq<Row>, viewport: seq<Row>)
    ensures var moved := StepUp(viewport + [Row([], true)], above);
      IsSuffix(Flatten(moved.1) + Flatten(moved.0), Flatten(above) + Flatten(viewport))
  {
    StepUpKeepsCharacters(viewport + [Row([], true)], above);
    FlattenEmptyRow(viewport);
  }

  lemma FlattenEmptyRow(rows: seq<Row>)
    ensures Flatten(rows + [Row([], true)]) == Flatten(rows)
  {
    FlattenSnoc(rows, Row([], true));
    assert Flatten(rows) + [] == Flatten(rows);
  }

  /** Repeated new lines at the bottom of a full viewport keep the cursor there and the viewport full. */
  lemma {:induction false} NewLinesAtBottomStay(p: Page, height: nat, width: nat, count: nat)
    requires height > 0 && |p.viewport| == height && p.y == height - 1
    ensures var r := NewCanonicalLines(p, None, height, width, count);
      r.y == p.y && |r.viewport| == height
    decreases count
  {
    if count > 0 {
      NewLinesAtBottomStay(p, height, width, count - 1);
      NewLineAtBottomStays(NewCanonicalLines(p, None, height, width, count - 1), height, width);
    }
  }

  /**
   * `move_cursor_down`: inside the scroll region the cursor moves down, stopping
   * at the region's bottom; elsewhere it stops at the last line, a new line is
   * added for each line it would have gone past, and rows are padded up to it.
   */
  function CursorDown(p: Page, region: Option<(nat, nat)>, height: nat, width: nat, count: nat, pad: TerminalCharacter): Page
    requires height > 0 || (region.Some? && region.value.0 <= p.y <= region.value.1)
  {
    if region.Some? && region.value.0 <= p.y <= region.value.1 then
      p.(y := Min(p.y + count, region.value.1))
    else
      PadPage(NewCanonicalLines(p.(y := Min(p.y + count, height - 1)), region, height, width, LinesToAdd(p.y, height, count)), width, pad)
  }

  /** How many lines past the last one a move down by `count` from line `y` would go. */
  function LinesToAdd(y: nat, height: nat, count: nat): nat
    requires height > 0
  {
    if y + count > height - 1 then y + count - (height - 1) else 0
  }

  /** The page with rows added until the cursor's line exists. */
  function PadPage(p: Page, width: nat, pad: TerminalCharacter): Page
  {
    p.(viewport := LinesPaddedUntil(p.viewport, p.y, width, pad))
  }

  lemma CursorDownOutsideRegion(p: Page, region: Option<(nat, nat)>, height: nat, width: nat, count: nat, pad: TerminalCharacter)
    requires height > 0 && !(region.Some? && region.value.0 <= p.y <= region.value.1)
    ensures CursorDown(p, region, height, width, count, pad) ==
      PadPage(NewCanonicalLines(p.(y := Min(p.y + count, height - 1)), region, height, width, LinesToAdd(p.y, height, count)), width, pad)
  {
  }

  /**
   * Without a scroll region and with a full viewport, moving the cursor down
   * keeps it on the screen and keeps the viewport full: each line it would go
   * past scrolls a row into the scrollback instead.
   */
  lemma CursorDownStaysOnScreen(p: Page, height: nat, width: nat, count: nat, pad: TerminalCharacter)
    requires |p.viewport| == height > p.y
    ensures var r := CursorDown(p, None, height, width, count, pad);
      r.y == Min(p.y + count, height - 1) && |r.viewport| == height
  {
    if p.y + count <= height - 1 {
      CursorDownWithinScreen(p, height, width, count, pad);
    } else {
      CursorDownPastBottom(p, height, width, count, pad);
    }
  }

  lemma CursorDownWithinScreen(p: Page, height: nat, width: nat, count: nat, pad: TerminalCharacter)
    requires |p.viewport| == height > p.y + count
    ensures CursorDown(p, None, height, width, count, pad) == p.(y := p.y + count)
  {
  }

  lemma CursorDownPastBottom(p: Page, height: nat, width: nat, count: nat, pad: TerminalCharacter)
    requires |p.viewport| == height > p.y && p.y + count > height - 1
    ensures var r := CursorDown(p, None, height, width, count, pad);
      r.y == height - 1 && |r.viewport| == height
  {
    var moved := p.(y := Min(p.y + count, height - 1));
    assert moved.y == height - 1;
    var added := NewCanonicalLines(moved, None, height, width, LinesToAdd(p.y, height, count));
    NewLinesAtBottomStay(moved, height, width, LinesToAdd(p.y, height, count));
    CursorDownOutsideRegion(p, None, height, width, count, pad);
    assert LinesPaddedUntil(added.viewport, added.y, width, pad) == added.viewport;
  }

  /**
   * `move_cursor_up_with_scrolling`, repeated `iterations` times. At the top
   * of the region (the whole screen when there is none) the region's bottom
   * row goes and an empty row is inserted at the cursor; further down in the
   * region the cursor moves up by `step` lines, stopping at the top. The
   * source moves by its whole count on each iteration (`step == count`).
   * None where the insertion would be past the end of the viewport.
   */
  function UpWithScrolling(rows: seq<Row>, y: nat, top: nat, bottom: nat, step: nat, iterations: nat): Option<(seq<Row>, nat)>
    decreases iterations
  {
    if iterations == 0 then Some((rows, y))
    else if y == top then
      var removed := if bottom < |rows| then RemoveAt(rows, bottom) else rows;
      if y <= |removed| then UpWithScrolling(InsertAt(removed, y, Row([], false)), y, top, bottom, step, iterations - 1)
      else None
    else if top < y <= bottom then
      var up := SaturatingSub(y, step);
      UpWithScrolling(rows, if up < top then top else up, top, bottom, step, iterations - 1)
    else UpWithScrolling(rows, y, top, bottom, step, iterations - 1)
  }

  /**
   * Reverse index, the one use of `move_cursor_up_with_scrolling` (count 1):
   * below the region's top the cursor moves up a line; at the top an empty
   * row comes in there and the region's bottom row goes, leaving the rows
   * outside the region where they were.
   */
  lemma ReverseIndex(rows: seq<Row>, y: nat, top: nat, bottom: nat)
    requires top <= y <= bottom < |rows|
    ensures var r := UpWithScrolling(rows, y, top, bottom, 1, 1);
      r.Some? && (y > top ==> r.value == (rows, y - 1)) &&
      (y == top ==> r.value.1 == y && r.value.0[y] == Row([], false) && SameOutside(rows, r.value.0, top, bottom))
  {
    if y == top {
      RemoveInsertWithin(rows, bottom, top, Row([], false), top, bottom);
    }
  }

  /**
   * As written, two iterations of count 2 from three lines below the top of
   * the region move the cursor up three lines rather than two.
   */
  lemma UpWithScrollingOvershoots(rows: seq<Row>)
    ensures UpWithScrolling(rows, 3, 0, 9, 2, 2) == Some((rows, 0))
  {
  }

  /** With one line per iteration, `count` iterations inside the region move the cursor up exactly `count` lines. */
  lemma {:induction false} UpWithScrollingByOne(rows: seq<Row>, y: nat, top: nat, bottom: nat, count: nat)
    requires top + count <= y <= bottom
    ensures UpWithScrolling(rows, y, top, bottom, 1, count) == Some((rows, y - count))
    decreases count
  {
    if count > 0 {
      UpWithScrollingByOne(rows, y - 1, top, bottom, count - 1);
    }
  }

  /** Moving one row up is one step of the transfer. */
  lemma TransferOneIsStep(source: seq<Row>, destination: seq<Row>)
    requires source != []
    ensures TransferUp(source, destination, 1) == StepUp(source, destination)
  {
    TransferUpUnfolds(source, destination, 1);
  }

  /** The scroll region, or the whole screen when there is none (`unwrap_or((0, height - 1))`). */
  function RegionOrScreen(region: Option<(nat, nat)>, height: nat): (nat, nat)
    requires height > 0
  {
    if region.Some? then region.value else (0, height - 1)
  }

  // ---------------------------------------------------------------------------
  // The grid
  // ---------------------------------------------------------------------------

  class Grid {
    var linesAbove: seq<Row>
    var viewport: seq<Row>
    var linesBelow: seq<Row>
    var horizontalTabstops: seq<nat>
    var cursor: Cursor
    var savedCursorPosition: Option<Cursor>
    var scrollRegion: Option<(nat, nat)>
    var erasureMode: bool
    var width: nat
    var height: nat

    /** The tabstops are a set (kept in order) and the scrollback holds at most `SCROLL_BACK` rows. */
    ghost predicate Valid()
      reads this
    {
      StrictlyIncreasing(horizontalTabstops) && |linesAbove| <= SCROLL_BACK
    }

    /** The three row buffers. */
    function Buffers(): Lines
      reads this
    {
      Lines(linesAbove, viewport, linesBelow)
    }

    /** What the cursor and scrolling operations leave alone. */
    ghost function Modes(): (seq<nat>, Option<Cursor>, Option<(nat, nat)>, bool, nat, nat)
      reads this
    {
      (horizontalTabstops, savedCursorPosition, scrollRegion, erasureMode, width, height)
    }

    /** `Grid::new`: one empty canonical row, a tabstop every eight columns, the cursor at the origin. */
    constructor(rows: nat, columns: nat)
      ensures Valid()
      ensures linesAbove == [] && viewport == [Row([], true)] && linesBelow == []
      ensures forall t :: t in horizontalTabstops <==> 0 < t <= columns && t % TABSTOP_WIDTH == 0
      ensures cursor == Cursor(0, 0, false) && savedCursorPosition == None && scrollRegion == None
      ensures !erasureMode && width == columns && height == rows
    {
      var stops := CreateHorizontalTabstops(columns);
      linesAbove := [];
      viewport := [Row([], true)];
      linesBelow := [];
      horizontalTabstops := stops;
      cursor := Cursor(0, 0, false);
      savedCursorPosition := None;
      scrollRegion := None;
      erasureMode := false;
      width := columns;
      height := rows;
    }

    // ----- padding -----

    /** `pad_current_line_until`: pads the cursor's row with empty characters up to `position`. */
    method PadCurrentLineUntil(position: nat)
      requires cursor.y < |viewport|
      modifies this`viewport
      ensures viewport == old(viewport)[cursor.y := PaddedTo(old(viewport)[cursor.y], position)]
    {
      var currentRow := viewport[cursor.y];
      ghost var original := currentRow;
      var i := |currentRow.columns|;
      while i < position
        invariant |original.columns| <= i
        invariant i < position ==> currentRow == PaddedTo(original, i)
        invariant i >= position ==> currentRow == PaddedTo(original, position)
      {
        currentRow := Row(currentRow.columns + [EMPTY_CHARACTER], currentRow.isCanonical);
        i := i + 1;
        assert currentRow.columns == PaddedTo(original, i).columns;
      }
      viewport := viewport[cursor.y := currentRow];
    }

    /** `pad_lines_until`: appends canonical rows of `pad` until row `position` exists. */
    method PadLinesUntil(position: nat, pad: TerminalCharacter)
      modifies this`viewport
      ensures viewport == LinesPaddedUntil(old(viewport), position, width, pad)
    {
      ghost var original := viewport;
      var padRow := BlankRow(width, pad);
      while |viewport| <= position
        invariant |original| <= |viewport|
        invariant |viewport| <= position + 1 || viewport == original
        invariant viewport == original + seq(|viewport| - |original|, _ => padRow)
        decreases position + 1 - |viewport|
      {
        viewport := viewport + [padRow];
      }
    }

    // ----- tabstops -----

    /**
     * `advance_to_next_tabstop`: the cursor goes to the first tabstop past it,
     * or to the last column when there is none, and its row is padded to there.
     */
    method AdvanceToNextTabstop()
      requires Valid() && cursor.y < |viewport|
      modifies this`cursor, this`viewport
      ensures Valid()
      ensures cursor == old(cursor).(x := match NextTabstop(horizontalTabstops, old(cursor.x))
        case Some(t) => t
        case None => SaturatingSub(width, 1))
      ensures viewport == old(viewport)[old(cursor.y) := PaddedTo(old(viewport)[old(cursor.y)], cursor.x)]
    {
      var nextTabstop := FindNextTabstop(cursor.x);
      var column := match nextTabstop
        case Some(tabstop) => tabstop
        case None => SaturatingSub(width, 1);
      cursor := cursor.(x := column);
      PadCurrentLineUntil(column);
    }

    /** The search loop of `advance_to_next_tabstop`: the first tabstop past column `x`. */
    method FindNextTabstop(x: nat) returns (nextTabstop: Option<nat>)
      ensures nextTabstop == NextTabstop(horizontalTabstops, x)
    {
      nextTabstop := None;
      var i := 0;
      while i < |horizontalTabstops|
        invariant 0 <= i <= |horizontalTabstops|
        invariant nextTabstop.None? ==> NextTabstop(horizontalTabstops[i..], x) == NextTabstop(horizontalTabstops, x)
        invariant nextTabstop.Some? ==> nextTabstop == NextTabstop(horizontalTabstops, x)
      {
        if horizontalTabstops[i] > x {
          nextTabstop := Some(horizontalTabstops[i]);
          break;
        }
        assert horizontalTabstops[i..][1..] == horizontalTabstops[i + 1..];
        i := i + 1;
      }
    }

    /** `move_to_previous_tabstop`: the cursor goes to the last tabstop before it, or to column 0. */
    method MoveToPreviousTabstop()
      requires Valid()
      modifies this
      ensures Valid()
      ensures cursor == old(cursor).(x := match PreviousTabstop(horizontalTabstops, old(cursor.x))
        case Some(t) => t
        case None => 0)
      ensures viewport == old(viewport) && linesAbove == old(linesAbove) && linesBelow == old(linesBelow)
      ensures Modes() == old(Modes())
    {
      var previousTabstop: Option<nat> := None;
      var i := 0;
      while i < |horizontalTabstops|
        invariant 0 <= i <= |horizontalTabstops|
        invariant forall k | 0 <= k < i :: horizontalTabstops[k] < cursor.x
        invariant i > 0 ==> previousTabstop == Some(horizontalTabstops[i - 1])
        invariant i == 0 ==> previousTabstop == None
      {
        if horizontalTabstops[i] >= cursor.x {
          break;
        }
        previousTabstop := Some(horizontalTabstops[i]);
        i := i + 1;
      }
      PreviousTabstopAt(horizontalTabstops, cursor.x, i);
      match previousTabstop {
        case Some(tabstop) =>
          cursor := cursor.(x := tabstop);
        case None =>
          cursor := cursor.(x := 0);
      }
    }

    /** `set_horizontal_tabstop`: a tabstop at the cursor's column. */
    method SetHorizontalTabstop()
      requires Valid()
      modifies this
      ensures Valid()
      ensures horizontalTabstops == InsertTabstop(old(horizontalTabstops), cursor.x)
      ensures cursor == old(cursor) && Buffers() == old(Buffers())
      ensures savedCursorPosition == old(savedCursorPosition) && scrollRegion == old(scrollRegion)
      ensures erasureMode == old(erasureMode) && width == old(width) && height == old(height)
    {
      horizontalTabstops := InsertTabstop(horizontalTabstops, cursor.x);
    }

    /** `clear_tabstop`: no tabstop at `position` any more. */
    method ClearTabstop(position: nat)
      requires Valid()
      modifies this
      ensures Valid()
      ensures horizontalTabstops == RemoveTabstop(old(horizontalTabstops), position)
      ensures cursor == old(cursor) && Buffers() == old(Buffers())
      ensures savedCursorPosition == old(savedCursorPosition) && scrollRegion == old(scrollRegion)
      ensures erasureMode == old(erasureMode) && width == old(width) && height == old(height)
    {
      horizontalTabstops := RemoveTabstop(horizontalTabstops, position);
    }

    /** `clear_all_tabstops`. */
    method ClearAllTabstops()
      requires Valid()
      modifies this
      ensures Valid()
      ensures horizontalTabstops == []
      ensures cursor == old(cursor) && Buffers() == old(Buffers())
      ensures savedCursorPosition == old(savedCursorPosition) && scrollRegion == old(scrollRegion)
      ensures erasureMode == old(erasureMode) && width == old(width) && height == old(height)
    {
      horizontalTabstops := [];
    }

    // ----- saved cursor -----

    /** `save_cursor_position`. */
    method SaveCursorPosition()
      modifies this
      ensures savedCursorPosition == Some(cursor)
      ensures cursor == old(cursor) && Buffers() == old(Buffers())
      ensures horizontalTabstops == old(horizontalTabstops) && scrollRegion == old(scrollRegion)
      ensures erasureMode == old(erasureMode) && width == old(width) && height == old(height)
    {
      savedCursorPosition := Some(cursor);
    }

    /** `restore_cursor_position`: back to the saved cursor, if one was saved. */
    method RestoreCursorPosition()
      modifies this
      ensures cursor == if old(savedCursorPosition).Some? then old(savedCursorPosition).value else old(cursor)
      ensures Buffers() == old(Buffers()) && Modes() == old(Modes())
    {
      if savedCursorPosition.Some? {
        cursor := savedCursorPosition.value;
      }
    }

    // ----- scrolling -----

    /** `scroll_up_one_line`. */
    method ScrollUpOneLine()
      requires Valid() && ScrollUp(Buffers(), height).Some?
      modifies this
      ensures Valid()
      ensures Buffers() == ScrollUp(old(Buffers()), old(height)).value
      ensures cursor == old(cursor) && Modes() == old(Modes())
    {
      if linesAbove != [] && |viewport| == height {
        var lineToPushDown := viewport[|viewport| - 1];
        viewport := viewport[..|viewport| - 1];
        linesBelow := [lineToPushDown] + linesBelow;
        var lineToInsertAtViewportTop := linesAbove[|linesAbove| - 1];
        linesAbove := linesAbove[..|linesAbove| - 1];
        viewport := [lineToInsertAtViewportTop] + viewport;
      }
    }

    /** `scroll_down_one_line`. */
    method ScrollDownOneLine()
      requires Valid() && ScrollDown(Buffers(), height).Some?
      modifies this
      ensures Valid()
      ensures Buffers() == ScrollDown(old(Buffers()), old(height)).value
      ensures cursor == old(cursor) && Modes() == old(Modes())
    {
      if linesBelow != [] && |viewport| == height {
        var lineToPushUp := viewport[0];
        viewport := viewport[1..];
        if lineToPushUp.isCanonical {
          linesAbove := BoundedPush(linesAbove, lineToPushUp);
        } else {
          var lastLineAbove := linesAbove[|linesAbove| - 1];
          linesAbove := linesAbove[..|linesAbove| - 1];
          lastLineAbove := Row(lastLineAbove.columns + lineToPushUp.columns, lastLineAbove.isCanonical);
          linesAbove := BoundedPush(linesAbove, lastLineAbove);
        }
        var lineToInsertAtViewportBottom := linesBelow[0];
        linesBelow := linesBelow[1..];
        viewport := viewport + [lineToInsertAtViewportBottom];
      }
    }

    /** `move_viewport_up`: `count` single-line scrolls up. */
    method MoveViewportUp(count: nat)
      requires Valid() && ScrollUpBy(Buffers(), height, count).Some?
      modifies this
      ensures Valid()
      ensures Buffers() == ScrollUpBy(old(Buffers()), old(height), count).value
      ensures cursor == old(cursor) && Modes() == old(Modes())
    {
      var i := 0;
      while i < count
        invariant 0 <= i <= count && Valid()
        invariant ScrollUpBy(Buffers(), height, count - i) == ScrollUpBy(old(Buffers()), old(height), count)
        invariant cursor == old(cursor) && Modes() == old(Modes())
      {
        ScrollUpOneLine();
        i := i + 1;
      }
    }

    /** `move_viewport_down`: `count` single-line scrolls down. */
    method MoveViewportDown(count: nat)
      requires Valid() && ScrollDownBy(Buffers(), height, count).Some?
      modifies this
      ensures Valid()
      ensures Buffers() == ScrollDownBy(old(Buffers()), old(height), count).value
      ensures cursor == old(cursor) && Modes() == old(Modes())
    {
      var i := 0;
      while i < count
        invariant 0 <= i <= count && Valid()
        invariant ScrollDownBy(Buffers(), height, count - i) == ScrollDownBy(old(Buffers()), old(height), count)
        invariant cursor == old(cursor) && Modes() == old(Modes())
      {
        ScrollDownOneLine();
        i := i + 1;
      }
    }

    /** `reset_viewport`: one scroll down per row below the viewport. */
    method ResetViewport()
      requires Valid() && ScrollDownBy(Buffers(), height, |linesBelow|).Some?
      modifies this
      ensures Valid()
      ensures Buffers() == ScrollDownBy(old(Buffers()), old(height), |old(linesBelow)|).value
      ensures |old(viewport)| == old(height) ==> linesBelow == []
      ensures cursor == old(cursor) && Modes() == old(Modes())
    {
      ghost var before := Buffers();
      var rowCountBelow := |linesBelow|;
      MoveViewportDown(rowCountBelow);
      if |before.viewport| == height {
        ResetLeavesNothingBelow(before, height, rowCountBelow);
      }
    }

    // ----- the cursor -----

    /** `cursor_coordinates`: where the cursor is, unless it is hidden. */
    function CursorCoordinates(): (r: Option<(nat, nat)>)
      reads this
      ensures r.Some? <==> !cursor.isHidden
      ensures r.Some? ==> r.value == (cursor.x, cursor.y)
    {
      if cursor.isHidden then None else Some((cursor.x, cursor.y))
    }

    /** `hide_cursor`. */
    method HideCursor()
      modifies this
      ensures cursor == old(cursor).(isHidden := true) && CursorCoordinates() == None
      ensures Buffers() == old(Buffers()) && Modes() == old(Modes())
    {
      cursor := cursor.(isHidden := true);
    }

    /** `show_cursor`. */
    method ShowCursor()
      modifies this
      ensures cursor == old(cursor).(isHidden := false) && CursorCoordinates() == Some((cursor.x, cursor.y))
      ensures Buffers() == old(Buffers()) && Modes() == old(Modes())
    {
      cursor := cursor.(isHidden := false);
    }

    /** `move_cursor_to_beginning_of_line`. */
    method MoveCursorToBeginningOfLine()
      modifies this
      ensures cursor == old(cursor).(x := 0)
      ensures Buffers() == old(Buffers()) && Modes() == old(Modes())
    {
      cursor := cursor.(x := 0);
    }

    /**
     * `move_cursor_forward_until_edge`: right by `count` columns, stopping at
     * the width (the column just past the last one).
     */
    method MoveCursorForwardUntilEdge(count: nat)
      requires cursor.x <= width
      modifies this
      ensures cursor == old(cursor).(x := old(cursor.x) + Min(count, old(width) - old(cursor.x)))
      ensures cursor.x <= width && (cursor.x == width || cursor.x == old(cursor.x) + count)
      ensures Buffers() == old(Buffers()) && Modes() == old(Modes())
    {
      var countToMove := Min(count, width - cursor.x);
      cursor := cursor.(x := cursor.x + countToMove);
    }

    /**
     * `move_cursor_back`: left by `count` columns, stopping at column 0; from
     * the width (past the last column) the first step back is skipped.
     */
    method MoveCursorBack(count: nat)
      requires cursor.x == width ==> width > 0
      modifies this
      ensures var from := if old(cursor.x) == old(width) then old(width) - 1 else old(cursor.x);
        cursor == old(cursor).(x := SaturatingSub(from, count))
      ensures cursor.x <= old(cursor.x)
      ensures Buffers() == old(Buffers()) && Modes() == old(Modes())
    {
      if cursor.x == width {
        cursor := cursor.(x := cursor.x - 1);
      }
      if cursor.x < count {
        cursor := cursor.(x := 0);
      } else {
        cursor := cursor.(x := cursor.x - count);
      }
    }

    /**
     * `move_cursor_up`: up by `count` lines; inside the scroll region it
     * stops at the region's top, elsewhere at line 0.
     */
    method MoveCursorUp(count: nat)
      modifies this
      ensures match old(scrollRegion)
        case Some((top, bottom)) =>
          if top <= old(cursor.y) <= bottom then cursor.y == if SaturatingSub(old(cursor.y), count) < top then top else SaturatingSub(old(cursor.y), count)
          else cursor.y == SaturatingSub(old(cursor.y), count)
        case None => cursor.y == SaturatingSub(old(cursor.y), count)
      ensures cursor.y <= old(cursor.y)
      ensures cursor == old(cursor).(y := cursor.y)
      ensures Buffers() == old(Buffers()) && Modes() == old(Modes())
    {
      if scrollRegion.Some? {
        var (scrollRegionTop, scrollRegionBottom) := scrollRegion.value;
        if cursor.y >= scrollRegionTop && cursor.y <= scrollRegionBottom {
          var up := SaturatingSub(cursor.y, count);
          cursor := cursor.(y := if up < scrollRegionTop then scrollRegionTop else up);
          return;
        }
      }
      cursor := cursor.(y := if cursor.y < count then 0 else cursor.y - count);
    }

    /**
     * `move_cursor_to`: the cursor is clamped to the last column and to the
     * last line (the bottom of the scroll region, when there is one, offset by
     * its top in erasure mode), and rows and columns are padded up to it.
     */
    method MoveCursorTo(x: nat, y: nat, pad: TerminalCharacter)
      requires width > 0 && (scrollRegion.None? ==> height > 0)
      modifies this
      ensures cursor.x == Min(old(width) - 1, x) && cursor.isHidden == old(cursor.isHidden)
      ensures cursor.y == match old(scrollRegion)
        case Some((top, bottom)) => Min(bottom, y + if old(erasureMode) then top else 0)
        case None => Min(old(height) - 1, y)
      ensures cursor.y < |viewport| && |viewport[cursor.y].columns| >= cursor.x
      ensures viewport == LinesPaddedUntil(old(viewport), cursor.y, width, pad)[cursor.y :=
        PaddedTo(LinesPaddedUntil(old(viewport), cursor.y, width, pad)[cursor.y], cursor.x)]
      ensures linesAbove == old(linesAbove) && linesBelow == old(linesBelow) && Modes() == old(Modes())
    {
      match scrollRegion {
        case Some((scrollRegionTop, scrollRegionBottom)) =>
          cursor := cursor.(x := Min(width - 1, x));
          var yOffset := if erasureMode then scrollRegionTop else 0;
          cursor := cursor.(y := Min(scrollRegionBottom, y + yOffset));
        case None =>
          cursor := cursor.(x := Min(width - 1, x));
          cursor := cursor.(y := Min(height - 1, y));
      }
      PadLinesUntil(cursor.y, pad);
      PadCurrentLineUntil(cursor.x);
    }

    /** `move_cursor_to_column`: the cursor goes to `column` (not clamped) and its row is padded. */
    method MoveCursorToColumn(column: nat)
      requires cursor.y < |viewport|
      modifies this
      ensures cursor == old(cursor).(x := column)
      ensures viewport == old(viewport)[cursor.y := PaddedTo(old(viewport)[cursor.y], column)]
      ensures |viewport[cursor.y].columns| >= column
      ensures linesAbove == old(linesAbove) && linesBelow == old(linesBelow) && Modes() == old(Modes())
    {
      cursor := cursor.(x := column);
      PadCurrentLineUntil(cursor.x);
    }

    /** `move_cursor_to_line`: the cursor goes to `line`, clamped to the last line, with padding. */
    method MoveCursorToLine(line: nat, pad: TerminalCharacter)
      requires height > 0
      modifies this
      ensures cursor == old(cursor).(y := Min(old(height) - 1, line))
      ensures cursor.y < |viewport| && |viewport[cursor.y].columns| >= cursor.x
      ensures viewport == LinesPaddedUntil(old(viewport), cursor.y, width, pad)[cursor.y :=
        PaddedTo(LinesPaddedUntil(old(viewport), cursor.y, width, pad)[cursor.y], cursor.x)]
      ensures linesAbove == old(linesAbove) && linesBelow == old(linesBelow) && Modes() == old(Modes())
    {
      cursor := cursor.(y := Min(height - 1, line));
      PadLinesUntil(cursor.y, pad);
      PadCurrentLineUntil(cursor.x);
    }

    /** The scrollback, the viewport and the cursor's line. */
    function CurrentPage(): Page
      reads this
    {
      Page(linesAbove, viewport, cursor.y)
    }

    /** `add_canonical_line`, as `NewCanonicalLine` describes it. */
    method AddCanonicalLine()
      requires Valid() && (height > 0 || AtRegionBottom(cursor.y, scrollRegion))
      modifies this`viewport, this`linesAbove, this`cursor
      ensures Valid()
      ensures CurrentPage() == NewCanonicalLine(old(CurrentPage()), scrollRegion, height, width)
      ensures cursor == old(cursor).(y := cursor.y)
    {
      if scrollRegion.Some? {
        var (scrollRegionTop, scrollRegionBottom) := scrollRegion.value;
        if cursor.y == scrollRegionBottom {
          if scrollRegionTop >= |viewport| {
            return;
          }
          viewport := RemoveAt(viewport, scrollRegionTop);
          var blank := BlankRow(width, EMPTY_CHARACTER);
          if |viewport| >= scrollRegionBottom {
            viewport := InsertAt(viewport, scrollRegionBottom, blank);
          } else {
            viewport := viewport + [blank];
          }
          return;
        }
      }
      if |viewport| <= cursor.y + 1 {
        viewport := viewport + [Row([], true)];
      }
      if cursor.y == height - 1 {
        var newViewport, newLinesAbove := TransferRowsUp(viewport, linesAbove, 1);
        TransferOneIsStep(viewport, linesAbove);
        viewport, linesAbove := newViewport, newLinesAbove;
      } else {
        cursor := cursor.(y := cursor.y + 1);
      }
    }

    /** `move_cursor_down`, as `CursorDown` describes it. */
    method MoveCursorDown(count: nat, pad: TerminalCharacter)
      requires Valid()
      requires height > 0 || (scrollRegion.Some? && scrollRegion.value.0 <= cursor.y <= scrollRegion.value.1)
      modifies this`viewport, this`linesAbove, this`cursor
      ensures Valid()
      ensures CurrentPage() == CursorDown(old(CurrentPage()), scrollRegion, height, width, count, pad)
      ensures cursor == old(cursor).(y := cursor.y)
    {
      if scrollRegion.Some? {
        var (scrollRegionTop, scrollRegionBottom) := scrollRegion.value;
        if cursor.y >= scrollRegionTop && cursor.y <= scrollRegionBottom {
          cursor := cursor.(y := Min(cursor.y + count, scrollRegionBottom));
          return;
        }
      }
      CursorDownOutsideRegion(CurrentPage(), scrollRegion, height, width, count, pad);
      MoveCursorDownAddingLines(count, pad);
    }

    /**
     * The part of `move_cursor_down` outside the scroll region: the cursor
     * moves down, stopping at the last line, one canonical line is added for
     * each line it would have gone past, and its line is padded into being.
     */
    method MoveCursorDownAddingLines(count: nat, pad: TerminalCharacter)
      requires Valid() && height > 0
      modifies this`viewport, this`linesAbove, this`cursor
      ensures Valid()
      ensures CurrentPage() == PadPage(NewCanonicalLines(old(CurrentPage()).(y := Min(old(cursor.y) + count, height - 1)),
        scrollRegion, height, width, LinesToAdd(old(cursor.y), height, count)), width, pad)
      ensures cursor == old(cursor).(y := cursor.y)
    {
      var linesToAdd := if cursor.y + count > height - 1 then cursor.y + count - (height - 1) else 0;
      cursor := cursor.(y := if cursor.y + count > height - 1 then height - 1 else cursor.y + count);
      ghost var start := CurrentPage();
      var i := 0;
      while i < linesToAdd
        invariant 0 <= i <= linesToAdd && Valid()
        invariant CurrentPage() == NewCanonicalLines(start, scrollRegion, height, width, i)
        invariant cursor == old(cursor).(y := cursor.y)
      {
        AddCanonicalLine();
        i := i + 1;
      }
      PadLinesUntil(cursor.y, pad);
    }

    /**
     * `move_cursor_up_with_scrolling`, as `UpWithScrolling` describes it: its
     * loop runs `count` times and moves the cursor by `count` each time.
     */
    method MoveCursorUpWithScrolling(count: nat)
      requires height > 0
      requires var (top, bottom) := RegionOrScreen(scrollRegion, height);
        UpWithScrolling(viewport, cursor.y, top, bottom, count, count).Some?
      modifies this
      ensures var (top, bottom) := RegionOrScreen(old(scrollRegion), old(height));
        (viewport, cursor.y) == UpWithScrolling(old(viewport), old(cursor.y), top, bottom, count, count).value
      ensures cursor == old(cursor).(y := cursor.y)
      ensures linesAbove == old(linesAbove) && linesBelow == old(linesBelow) && Modes() == old(Modes())
    {
      var (scrollRegionTop, scrollRegionBottom) := RegionOrScreen(scrollRegion, height);
      var i := 0;
      while i < count
        invariant 0 <= i <= count
        invariant UpWithScrolling(viewport, cursor.y, scrollRegionTop, scrollRegionBottom, count, count - i) ==
          UpWithScrolling(old(viewport), old(cursor.y), scrollRegionTop, scrollRegionBottom, count, count)
        invariant cursor == old(cursor).(y := cursor.y)
        invariant linesAbove == old(linesAbove) && linesBelow == old(linesBelow) && Modes() == old(Modes())
      {
        var currentLineIndex := cursor.y;
        if currentLineIndex == scrollRegionTop {
          if scrollRegionBottom < |viewport| {
            viewport := RemoveAt(viewport, scrollRegionBottom);
          }
          viewport := InsertAt(viewport, currentLineIndex, Row([], false));
        } else if currentLineIndex > scrollRegionTop && currentLineIndex <= scrollRegionBottom {
          MoveCursorUp(count);
        }
        i := i + 1;
      }
    }

    /** `rotate_scroll_region_up`: `count` steps of `RotateUpStep`, when there is a scroll region. */
    method RotateScrollRegionUp(count: nat)
      modifies this
      ensures viewport == match old(scrollRegion)
        case Some((top, bottom)) => RotateUp(old(viewport), top, bottom, BlankRow(old(width), EMPTY_CHARACTER), count)
        case None => old(viewport)
      ensures cursor == old(cursor) && linesAbove == old(linesAbove) && linesBelow == old(linesBelow)
      ensures Modes() == old(Modes())
    {
      if scrollRegion.Some? {
        var (scrollRegionTop, scrollRegionBottom) := scrollRegion.value;
        var blank := BlankRow(width, EMPTY_CHARACTER);
        var rows := viewport;
        var i := 0;
        while i < count
          invariant 0 <= i <= count
          invariant RotateUp(rows, scrollRegionTop, scrollRegionBottom, blank, count - i) ==
            RotateUp(viewport, scrollRegionTop, scrollRegionBottom, blank, count)
        {
          if scrollRegionBottom < |rows| {
            rows := RemoveAt(rows, scrollRegionBottom);
          }
          if scrollRegionTop < |rows| {
            rows := InsertAt(rows, scrollRegionTop, blank);
          }
          i := i + 1;
        }
        viewport := rows;
      }
    }

    /** `rotate_scroll_region_down`: `count` steps of `RotateDownStep`, when there is a scroll region. */
    method RotateScrollRegionDown(count: nat)
      requires scrollRegion.Some? ==> RotateDown(viewport, scrollRegion.value.0, scrollRegion.value.1, BlankRow(width, EMPTY_CHARACTER), count).Some?
      modifies this
      ensures viewport == match old(scrollRegion)
        case Some((top, bottom)) => RotateDown(old(viewport), top, bottom, BlankRow(old(width), EMPTY_CHARACTER), count).value
        case None => old(viewport)
      ensures cursor == old(cursor) && linesAbove == old(linesAbove) && linesBelow == old(linesBelow)
      ensures Modes() == old(Modes())
    {
      if scrollRegion.Some? {
        var (scrollRegionTop, scrollRegionBottom) := scrollRegion.value;
        var blank := BlankRow(width, EMPTY_CHARACTER);
        var rows := viewport;
        var i := 0;
        while i < count
          invariant 0 <= i <= count && |rows| == |viewport|
          invariant RotateDown(rows, scrollRegionTop, scrollRegionBottom, blank, count - i) ==
            RotateDown(viewport, scrollRegionTop, scrollRegionBottom, blank, count)
        {
          rows := RemoveAt(rows, scrollRegionTop);
          if |rows| > scrollRegionTop {
            rows := InsertAt(rows, scrollRegionBottom, blank);
          } else {
            rows := rows + [blank];
          }
          i := i + 1;
        }
        viewport := rows;
      }
    }

    /** The cursor's line is inside the scroll region. */
    predicate InScrollRegion()
      reads this
    {
      scrollRegion.Some? && scrollRegion.value.0 <= cursor.y <= scrollRegion.value.1
    }

    /** `delete_lines_in_scroll_region`: `count` steps of `DeleteLineStep` at the cursor, inside the region. */
    method DeleteLinesInScrollRegion(count: nat, pad: TerminalCharacter)
      requires InScrollRegion() && count > 0 ==> cursor.y < |viewport|
      modifies this
      ensures viewport == if old(InScrollRegion())
        then DeleteLines(old(viewport), old(cursor.y), old(scrollRegion).value.1, BlankRow(old(width), pad), count)
        else old(viewport)
      ensures cursor == old(cursor) && linesAbove == old(linesAbove) && linesBelow == old(linesBelow)
      ensures Modes() == old(Modes())
    {
      if scrollRegion.Some? {
        var (scrollRegionTop, scrollRegionBottom) := scrollRegion.value;
        var currentLineIndex := cursor.y;
        if currentLineIndex >= scrollRegionTop && currentLineIndex <= scrollRegionBottom {
          var blank := BlankRow(width, pad);
          var rows := viewport;
          var i := 0;
          while i < count
            invariant 0 <= i <= count && |rows| == |viewport|
            invariant DeleteLines(rows, currentLineIndex, scrollRegionBottom, blank, count - i) ==
              DeleteLines(viewport, currentLineIndex, scrollRegionBottom, blank, count)
          {
            rows := RemoveAt(rows, currentLineIndex);
            if |rows| > scrollRegionBottom {
              rows := InsertAt(rows, scrollRegionBottom, blank);
            } else {
              rows := rows + [blank];
            }
            i := i + 1;
          }
          viewport := rows;
        }
      }
    }

    /** `add_empty_lines_in_scroll_region`: `count` steps of `AddEmptyLineStep` at the cursor, inside the region. */
    method AddEmptyLinesInScrollRegion(count: nat, pad: TerminalCharacter)
      requires InScrollRegion() && count > 0 ==> cursor.y <= LengthAfterRemoval(viewport, scrollRegion.value.1)
      modifies this
      ensures viewport == if old(InScrollRegion())
        then AddEmptyLines(old(viewport), old(cursor.y), old(scrollRegion).value.1, BlankRow(old(width), pad), count)
        else old(viewport)
      ensures cursor == old(cursor) && linesAbove == old(linesAbove) && linesBelow == old(linesBelow)
      ensures Modes() == old(Modes())
    {
      if scrollRegion.Some? {
        var (scrollRegionTop, scrollRegionBottom) := scrollRegion.value;
        var currentLineIndex := cursor.y;
        if currentLineIndex >= scrollRegionTop && currentLineIndex <= scrollRegionBottom {
          var blank := BlankRow(width, pad);
          var rows := viewport;
          var i := 0;
          while i < count
            invariant 0 <= i <= count
            invariant i < count ==> currentLineIndex <= LengthAfterRemoval(rows, scrollRegionBottom)
            invariant AddEmptyLines(rows, currentLineIndex, scrollRegionBottom, blank, count - i) ==
              AddEmptyLines(viewport, currentLineIndex, scrollRegionBottom, blank, count)
          {
            if scrollRegionBottom < |rows| {
              rows := RemoveAt(rows, scrollRegionBottom);
            }
            rows := InsertAt(rows, currentLineIndex, blank);
            i := i + 1;
          }
          viewport := rows;
        }
      }
    }

    /** `fill_viewport`: `height` rows of `width` copies of `character`. */
    method FillViewport(character: TerminalCharacter)
      modifies this
      ensures |viewport| == height && forall k | 0 <= k < height :: viewport[k] == BlankRow(width, character)
      ensures cursor == old(cursor) && linesAbove == old(linesAbove) && linesBelow == old(linesBelow)
      ensures Modes() == old(Modes())
    {
      var rows := [];
      var i := 0;
      while i < height
        invariant 0 <= i <= height && |rows| == i
        invariant forall k | 0 <= k < i :: rows[k] == BlankRow(width, character)
      {
        rows := rows + [BlankRow(width, character)];
        i := i + 1;
      }
      viewport := rows;
    }

    // ----- the scroll region -----

    /** `set_scroll_region`: a missing bottom means the height. */
    method SetScrollRegion(topLineIndex: nat, bottomLineIndex: Option<nat>)
      modifies this
      ensures scrollRegion == Some((topLineIndex, if bottomLineIndex.Some? then bottomLineIndex.value else height))
      ensures cursor == old(cursor) && Buffers() == old(Buffers())
      ensures horizontalTabstops == old(horizontalTabstops) && savedCursorPosition == old(savedCursorPosition)
      ensures erasureMode == old(erasureMode) && width == old(width) && height == old(height)
    {
      var bottom := if bottomLineIndex.Some? then bottomLineIndex.value else height;
      scrollRegion := Some((topLineIndex, bottom));
    }

    /** `clear_scroll_region`. */
    method ClearScrollRegion()
      modifies this
      ensures scrollRegion == None
      ensures cursor == old(cursor) && Buffers() == old(Buffers())
      ensures horizontalTabstops == old(horizontalTabstops) && savedCursorPosition == old(savedCursorPosition)
      ensures erasureMode == old(erasureMode) && width == old(width) && height == old(height)
    {
      scrollRegion := None;
    }

    /** `set_scroll_region_to_viewport_size`: the region spans every line. */
    method SetScrollRegionToViewportSize()
      requires height > 0
      modifies this
      ensures scrollRegion == Some((0, height - 1))
      ensures cursor == old(cursor) && Buffers() == old(Buffers())
      ensures horizontalTabstops == old(horizontalTabstops) && savedCursorPosition == old(savedCursorPosition)
      ensures erasureMode == old(erasureMode) && width == old(width) && height == old(height)
    {
      scrollRegion := Some((0, height - 1));
    }
  }
}
