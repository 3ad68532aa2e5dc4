/**
 * Pane geometry (zellij-server/src/tab.rs): the rectangle halving used when
 * a pane is split, and the default geometry methods of the `Pane` trait.
 * A pane is the record the tab keeps about it: its id, its rectangle,
 * whether it can take focus and its optional size limits.
 */
module Panes {
  import opened Wrappers

  /** The smallest pane the tab lets a resize or a split produce. */
  const MIN_TERMINAL_HEIGHT: nat := 3
  const MIN_TERMINAL_WIDTH: nat := 4

  /** `PositionAndSize`: a rectangle of cells. */
  datatype Rect = Rect(x: nat, y: nat, rows: nat, columns: nat)

  /**
   * `PaneId`: a terminal is named by its pty file descriptor, a plugin by
   * its plugin id. The tab's `BTreeMap` orders ids by the derived `Ord`:
   * every terminal before every plugin, then by number.
   */
  datatype PaneId = Terminal(fd: int) | Plugin(pluginId: nat)

  predicate IdBefore(a: PaneId, b: PaneId)
  {
    match (a, b)
    case (Terminal(p), Terminal(q)) => p < q
    case (Terminal(_), Plugin(_)) => true
    case (Plugin(_), Terminal(_)) => false
    case (Plugin(p), Plugin(q)) => p < q
  }

  /** The id order is a strict total order. */
  lemma IdOrder(a: PaneId, b: PaneId, c: PaneId)
    ensures !IdBefore(a, a)
    ensures IdBefore(a, b) ==> !IdBefore(b, a)
    ensures a != b ==> IdBefore(a, b) || IdBefore(b, a)
    ensures IdBefore(a, b) && IdBefore(b, c) ==> IdBefore(a, c)
  {
  }

  /** What the tab knows about one pane. */
  datatype Pane = Pane(
    id: PaneId,
    x: nat, y: nat, rows: nat, columns: nat,
    selectable: bool,
    maxWidth: Option<nat>, maxHeight: Option<nat>)

  /** `TerminalPane::new`: a selectable terminal pane without size limits. */
  function NewTerminalPane(id: PaneId, r: Rect): (p: Pane)
    ensures p.id == id && PositionAndSize(p) == r
    ensures p.selectable && p.maxWidth.None? && p.maxHeight.None?
  {
    Pane(id, r.x, r.y, r.rows, r.columns, true, None, None)
  }

  function PositionAndSize(p: Pane): Rect
  {
    Rect(p.x, p.y, p.rows, p.columns)
  }

  /** `change_pos_and_size`: the pane takes the given rectangle and keeps everything else. */
  function ChangePosAndSize(p: Pane, r: Rect): (q: Pane)
    ensures PositionAndSize(q) == r
    ensures q.id == p.id && q.selectable == p.selectable
    ensures q.maxWidth == p.maxWidth && q.maxHeight == p.maxHeight
  {
    p.(x := r.x, y := r.y, rows := r.rows, columns := r.columns)
  }

  // ---------------------------------------------------------------------------
  // Splitting a rectangle with a one-cell border between the halves
  // ---------------------------------------------------------------------------

  /**
   * `split_vertically_with_gap`: a left and a right half with one column of
   * border between them; an even width gives the extra column to the left half.
   */
  function SplitVerticallyWithGap(r: Rect): (halves: (Rect, Rect))
    requires r.columns >= 1
    ensures var (first, second) := halves;
      first.columns + second.columns + 1 == r.columns &&
      first.x == r.x && second.x == first.x + first.columns + 1 &&
      (first.columns == second.columns || first.columns == second.columns + 1) &&
      first.y == second.y == r.y && first.rows == second.rows == r.rows
  {
    var widthOfEachHalf := (r.columns - 1) / 2;
    var first := r.(columns := if r.columns % 2 == 0 then widthOfEachHalf + 1 else widthOfEachHalf);
    var second := r.(x := first.x + first.columns + 1, columns := widthOfEachHalf);
    (first, second)
  }

  /**
   * `split_horizontally_with_gap`: a top and a bottom half with one row of
   * border between them; an even height gives the extra row to the top half.
   */
  function SplitHorizontallyWithGap(r: Rect): (halves: (Rect, Rect))
    requires r.rows >= 1
    ensures var (first, second) := halves;
      first.rows + second.rows + 1 == r.rows &&
      first.y == r.y && second.y == first.y + first.rows + 1 &&
      (first.rows == second.rows || first.rows == second.rows + 1) &&
      first.x == second.x == r.x && first.columns == second.columns == r.columns
  {
    var heightOfEachHalf := (r.rows - 1) / 2;
    var first := r.(rows := if r.rows % 2 == 0 then heightOfEachHalf + 1 else heightOfEachHalf);
    var second := r.(y := first.y + first.rows + 1, rows := heightOfEachHalf);
    (first, second)
  }

  /**
   * A pane tall enough for `horizontal_split` (at least seven rows) splits
   * into two panes that are both at least the minimum height; likewise a
   * pane wide enough for `vertical_split` (at least nine columns).
   */
  lemma SplitHalvesKeepMinimum(r: Rect)
    ensures r.rows >= MIN_TERMINAL_HEIGHT * 2 + 1 ==>
      SplitHorizontallyWithGap(r).0.rows >= MIN_TERMINAL_HEIGHT &&
      SplitHorizontallyWithGap(r).1.rows >= MIN_TERMINAL_HEIGHT
    ensures r.columns >= MIN_TERMINAL_WIDTH * 2 + 1 ==>
      SplitVerticallyWithGap(r).0.columns >= MIN_TERMINAL_WIDTH &&
      SplitVerticallyWithGap(r).1.columns >= MIN_TERMINAL_WIDTH
  {
  }

  // ---------------------------------------------------------------------------
  // The default geometry methods of the `Pane` trait
  // ---------------------------------------------------------------------------

  function RightBoundaryXCoords(p: Pane): nat
  {
    p.x + p.columns
  }

  function BottomBoundaryYCoords(p: Pane): nat
  {
    p.y + p.rows
  }

  /** `p` starts one border column after `other` ends. */
  predicate IsDirectlyRightOf(p: Pane, other: Pane)
  {
    p.x == other.x + other.columns + 1
  }

  predicate IsDirectlyLeftOf(p: Pane, other: Pane)
  {
    p.x + p.columns + 1 == other.x
  }

  predicate IsDirectlyBelow(p: Pane, other: Pane)
  {
    p.y == other.y + other.rows + 1
  }

  predicate IsDirectlyAbove(p: Pane, other: Pane)
  {
    p.y + p.rows + 1 == other.y
  }

  /** Being directly right of a pane is being the pane it is directly left of, and the same for below and above. */
  lemma AdjacencyIsMutual(a: Pane, b: Pane)
    ensures IsDirectlyRightOf(a, b) <==> IsDirectlyLeftOf(b, a)
    ensures IsDirectlyBelow(a, b) <==> IsDirectlyAbove(b, a)
    ensures IsDirectlyRightOf(a, b) ==> RightBoundaryXCoords(b) < a.x
    ensures IsDirectlyBelow(a, b) ==> BottomBoundaryYCoords(b) < a.y
  {
  }

  /** A pane is never directly beside or directly above or below itself. */
  lemma NotAdjacentToItself(p: Pane)
    ensures !IsDirectlyRightOf(p, p) && !IsDirectlyLeftOf(p, p)
    ensures !IsDirectlyBelow(p, p) && !IsDirectlyAbove(p, p)
  {
  }

  predicate HorizontallyOverlapsWith(p: Pane, other: Pane)
  {
    (p.y >= other.y && p.y <= other.y + other.rows)
    || (p.y + p.rows <= other.y + other.rows && p.y + p.rows > other.y)
    || (p.y <= other.y && p.y + p.rows >= other.y + other.rows)
    || (other.y <= p.y && other.y + other.rows >= p.y + p.rows)
  }

  predicate VerticallyOverlapsWith(p: Pane, other: Pane)
  {
    (p.x >= other.x && p.x <= other.x + other.columns)
    || (p.x + p.columns <= other.x + other.columns && p.x + p.columns > other.x)
    || (p.x <= other.x && p.x + p.columns >= other.x + other.columns)
    || (other.x <= p.x && other.x + other.columns >= p.x + p.columns)
  }

  /**
   * For panes of at least one row, the four cases of
   * `horizontally_overlaps_with` amount to: `p` starts no later than the row
   * just past `other`, and ends after `other` starts. The relation is not
   * symmetric: a pane starting on the row just past `other` overlaps it, but
   * not the other way round.
   */
  lemma HorizontalOverlapIsInterval(p: Pane, other: Pane)
    requires p.rows > 0 && other.rows > 0
    ensures HorizontallyOverlapsWith(p, other) <==>
      p.y <= other.y + other.rows && other.y < p.y + p.rows
  {
  }

  /** The same for `vertically_overlaps_with`, on columns. */
  lemma VerticalOverlapIsInterval(p: Pane, other: Pane)
    requires p.columns > 0 && other.columns > 0
    ensures VerticallyOverlapsWith(p, other) <==>
      p.x <= other.x + other.columns && other.x < p.x + p.columns
  {
  }

  function Min(a: nat, b: nat): nat
  {
    if a < b then a else b
  }

  function Max(a: nat, b: nat): nat
  {
    if a < b then b else a
  }

  predicate CoversRow(p: Pane, row: int)
  {
    p.y <= row < p.y + p.rows
  }

  predicate CoversColumn(p: Pane, column: int)
  {
    p.x <= column < p.x + p.columns
  }

  /**
   * `get_horizontal_overlap_with`: the number of rows the two panes share;
   * the subtraction is on `usize`, so the panes must overlap.
   */
  function GetHorizontalOverlapWith(p: Pane, other: Pane): (r: nat)
    requires Max(p.y, other.y) <= Min(p.y + p.rows, other.y + other.rows)
    ensures r <= p.rows && r <= other.rows
    ensures forall row | Max(p.y, other.y) <= row < Max(p.y, other.y) + r ::
      CoversRow(p, row) && CoversRow(other, row)
  {
    Min(p.y + p.rows, other.y + other.rows) - Max(p.y, other.y)
  }

  /** `get_vertical_overlap_with`: the number of columns the two panes share. */
  function GetVerticalOverlapWith(p: Pane, other: Pane): (r: nat)
    requires Max(p.x, other.x) <= Min(p.x + p.columns, other.x + other.columns)
    ensures r <= p.columns && r <= other.columns
    ensures forall column | Max(p.x, other.x) <= column < Max(p.x, other.x) + r ::
      CoversColumn(p, column) && CoversColumn(other, column)
  {
    Min(p.x + p.columns, other.x + other.columns) - Max(p.x, other.x)
  }

  /** The overlap is the same seen from either pane. */
  lemma OverlapIsSymmetric(p: Pane, other: Pane)
    ensures Max(p.y, other.y) <= Min(p.y + p.rows, other.y + other.rows) ==>
      GetHorizontalOverlapWith(p, other) == GetHorizontalOverlapWith(other, p)
    ensures Max(p.x, other.x) <= Min(p.x + p.columns, other.x + other.columns) ==>
      GetVerticalOverlapWith(p, other) == GetVerticalOverlapWith(other, p)
  {
  }

  predicate CanIncreaseHeightBy(p: Pane, increaseBy: nat)
  {
    match p.maxHeight
    case Some(maxHeight) => p.rows + increaseBy <= maxHeight
    case None => true
  }

  predicate CanIncreaseWidthBy(p: Pane, increaseBy: nat)
  {
    match p.maxWidth
    case Some(maxWidth) => p.columns + increaseBy <= maxWidth
    case None => true
  }

  /** `can_reduce_height_by`, with the default minimum height. */
  predicate CanReduceHeightBy(p: Pane, reduceBy: nat)
  {
    p.rows > reduceBy && p.rows - reduceBy >= MIN_TERMINAL_HEIGHT
  }

  /** `can_reduce_width_by`, with the default minimum width. */
  predicate CanReduceWidthBy(p: Pane, reduceBy: nat)
  {
    p.columns > reduceBy && p.columns - reduceBy >= MIN_TERMINAL_WIDTH
  }

  /**
   * A pane can be reduced by `n` exactly when it keeps at least the minimum
   * size, and then by any smaller amount too.
   */
  lemma ReduceKeepsMinimum(p: Pane, n: nat, m: nat)
    ensures CanReduceHeightBy(p, n) <==> p.rows >= n + MIN_TERMINAL_HEIGHT
    ensures CanReduceWidthBy(p, n) <==> p.columns >= n + MIN_TERMINAL_WIDTH
    ensures CanReduceHeightBy(p, n) && m <= n ==> CanReduceHeightBy(p, m)
    ensures CanReduceWidthBy(p, n) && m <= n ==> CanReduceWidthBy(p, m)
    ensures !CanReduceHeightBy(p, 0) <==> p.rows < MIN_TERMINAL_HEIGHT
  {
  }

  /**
   * A pane without a maximum can grow by any amount; with one, it can grow
   * by `n` exactly when it stays within it, and then by any smaller amount.
   */
  lemma IncreaseStaysWithinMaximum(p: Pane, n: nat, m: nat)
    ensures p.maxHeight.None? ==> CanIncreaseHeightBy(p, n)
    ensures p.maxWidth.None? ==> CanIncreaseWidthBy(p, n)
    ensures p.maxHeight.Some? ==> (CanIncreaseHeightBy(p, n) <==> p.rows + n <= p.maxHeight.value)
    ensures p.maxWidth.Some? ==> (CanIncreaseWidthBy(p, n) <==> p.columns + n <= p.maxWidth.value)
    ensures CanIncreaseHeightBy(p, n) && m <= n ==> CanIncreaseHeightBy(p, m)
    ensures CanIncreaseWidthBy(p, n) && m <= n ==> CanIncreaseWidthBy(p, m)
  {
  }

  // ---------------------------------------------------------------------------
  // Growing a neighbour over the space of a closed pane
  // ---------------------------------------------------------------------------

  /** Where a group of neighbours lies relative to the pane being closed. */
  datatype Side = Left | Right | Above | Below

  /**
   * `p` is a neighbour of `target` on `side`, in the sense of the
   * `pane_ids_directly_*` searches.
   */
  predicate Adjacent(p: Pane, target: Pane, side: Side)
  {
    match side
    case Left => IsDirectlyLeftOf(p, target)
    case Right => IsDirectlyRightOf(p, target)
    case Above => IsDirectlyAbove(p, target)
    case Below => IsDirectlyBelow(p, target)
  }

  /**
   * The resize primitive a neighbour on `side` receives when the pane next
   * to it closes: `increase_width_right` for a pane on the left,
   * `increase_width_left` for one on the right (it moves left),
   * `increase_height_down` for one above, `increase_height_up` for one below.
   */
  function Grow(p: Pane, side: Side, count: nat): (q: Pane)
    requires side == Right ==> p.x >= count
    requires side == Below ==> p.y >= count
    ensures q.id == p.id && q.selectable == p.selectable
    ensures q.maxWidth == p.maxWidth && q.maxHeight == p.maxHeight
    ensures side in {Left, Right} ==>
      q.columns == p.columns + count && q.y == p.y && q.rows == p.rows &&
      RightBoundaryXCoords(q) == RightBoundaryXCoords(p) + (if side == Left then count else 0) &&
      q.x + count == p.x + (if side == Left then count else 0)
    ensures side in {Above, Below} ==>
      q.rows == p.rows + count && q.x == p.x && q.columns == p.columns &&
      BottomBoundaryYCoords(q) == BottomBoundaryYCoords(p) + (if side == Above then count else 0) &&
      q.y + count == p.y + (if side == Above then count else 0)
  {
    match side
    case Left => p.(columns := p.columns + count)
    case Right => p.(x := p.x - count, columns := p.columns + count)
    case Above => p.(rows := p.rows + count)
    case Below => p.(y := p.y - count, rows := p.rows + count)
  }

  /** The size limit a neighbour on `side` must allow before it grows. */
  predicate CanGrow(p: Pane, side: Side, count: nat)
  {
    if side in {Left, Right} then CanIncreaseWidthBy(p, count) else CanIncreaseHeightBy(p, count)
  }

  /** How far a neighbour grows when `t` closes: the closed pane's width or height plus its border. */
  function Amount(t: Pane, side: Side): nat
  {
    if side in {Left, Right} then t.columns + 1 else t.rows + 1
  }

  /** The edge of `p` away from `side` lies on the same edge of `target`. */
  predicate ReachesFarEdge(p: Pane, target: Pane, side: Side)
  {
    match side
    case Left => RightBoundaryXCoords(p) == RightBoundaryXCoords(target)
    case Right => p.x == target.x
    case Above => BottomBoundaryYCoords(p) == BottomBoundaryYCoords(target)
    case Below => p.y == target.y
  }

  /**
   * A neighbour that grows by the closed pane's width (or height) plus the
   * border takes over exactly the closed pane's cells on that side: its far
   * edge moves onto the closed pane's far edge.
   */
  lemma GrowCoversClosedPane(p: Pane, target: Pane, side: Side)
    requires Adjacent(p, target, side)
    ensures side == Right ==> p.x >= Amount(target, side)
    ensures side == Below ==> p.y >= Amount(target, side)
    ensures ReachesFarEdge(Grow(p, side, Amount(target, side)), target, side)
  {
  }
}
