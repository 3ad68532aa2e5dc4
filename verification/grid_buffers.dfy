/**
 * The free helpers of the terminal grid: number parsing for escape
 * parameters, the default tabstops, the bounded scrollback push, and the
 * transfer of rows from the viewport up into the scrollback. Also the two
 * single-line viewport scrolls, as functions on the three line buffers.
 */
module GridBuffers {
  import opened Wrappers
  import opened Rows

  /** The scrollback keeps at most this many rows above the viewport. */
  const SCROLL_BACK: nat := 10000
  /** Distance between two default tabstops. */
  const TABSTOP_WIDTH: nat := 8

  newtype byte = b: int | 0 <= b < 256

  /** The bytes '0' to '9'. */
  predicate IsDigitByte(b: byte) { 48 <= b <= 57 }

  predicate AllDigits(s: seq<byte>) { forall i | 0 <= i < |s| :: IsDigitByte(s[i]) }

  /** The value of a string of decimal digits, most significant first. */
  function DecimalValue(s: seq<byte>): nat
    requires AllDigits(s)
  {
    if s == [] then 0 else DecimalValue(s[..|s| - 1]) * 10 + ((s[|s| - 1] as int) - 48)
  }

  /** A prefix of a digit string is worth no more than the whole string. */
  lemma {:induction false} DecimalPrefixBound(s: seq<byte>, j: nat)
    requires AllDigits(s) && j <= |s|
    ensures DecimalValue(s[..j]) <= DecimalValue(s)
    decreases |s| - j
  {
    if j < |s| {
      var init := s[..|s| - 1];
      assert init[..j] == s[..j];
      DecimalPrefixBound(init, j);
    } else {
      assert s[..j] == s;
    }
  }

  /**
   * `parse_number`: the decimal value of a non-empty string of digits, as
   * long as it fits a byte; None for the empty string, for any other byte,
   * and on overflow.
   */
  method ParseNumber(input: seq<byte>) returns (r: Option<nat>)
    ensures r.Some? <==> input != [] && AllDigits(input) && DecimalValue(input) < 256
    ensures r.Some? ==> r.value == DecimalValue(input)
  {
    if input == [] {
      return None;
    }
    var num: nat := 0;
    var i := 0;
    while i < |input|
      invariant 0 <= i <= |input|
      invariant AllDigits(input[..i])
      invariant num == DecimalValue(input[..i]) && num < 256
    {
      var c := input[i];
      if !IsDigitByte(c) {
        return None;
      }
      assert input[..i + 1][..i] == input[..i];
      if num * 10 > 255 || num * 10 + ((c as int) - 48) > 255 {
        if AllDigits(input) {
          DecimalPrefixBound(input, i + 1);
        }
        return None;
      }
      num := num * 10 + ((c as int) - 48);
      i := i + 1;
    }
    assert input[..i] == input;
    return Some(num);
  }

  predicate StrictlyIncreasing(s: seq<nat>) { forall i, j | 0 <= i < j < |s| :: s[i] < s[j] }

  lemma NextMultiple(i: nat, t: nat)
    requires i % TABSTOP_WIDTH == 0 && t % TABSTOP_WIDTH == 0 && i < t
    ensures i + TABSTOP_WIDTH <= t
  {
  }

  /**
   * `create_horizontal_tabstops`: the tabstops of a fresh grid, in order,
   * are exactly the positive multiples of eight up to the width.
   */
  method CreateHorizontalTabstops(columns: nat) returns (stops: seq<nat>)
    ensures StrictlyIncreasing(stops)
    ensures forall t :: t in stops <==> 0 < t <= columns && t % TABSTOP_WIDTH == 0
  {
    var i := TABSTOP_WIDTH;
    stops := [];
    while i <= columns
      invariant TABSTOP_WIDTH <= i <= columns + TABSTOP_WIDTH
      invariant i % TABSTOP_WIDTH == 0
      invariant StrictlyIncreasing(stops)
      invariant forall k | 0 <= k < |stops| :: stops[k] < i
      invariant forall t :: t in stops <==> 0 < t < i && t % TABSTOP_WIDTH == 0
    {
      forall t: nat | t % TABSTOP_WIDTH == 0 && i < t
        ensures i + TABSTOP_WIDTH <= t
      {
        NextMultiple(i, t);
      }
      stops := stops + [i];
      i := i + TABSTOP_WIDTH;
    }
    forall t: nat | t % TABSTOP_WIDTH == 0 && t < i
      ensures t + TABSTOP_WIDTH <= i
    {
      NextMultiple(t, i);
    }
  }

  /**
   * `bounded_push`: appends to the scrollback, first dropping its front row
   * when it already holds `SCROLL_BACK` rows.
   */
  function BoundedPush<T>(deque: seq<T>, value: T): (r: seq<T>)
    ensures |r| == if |deque| >= SCROLL_BACK then |deque| else |deque| + 1
    ensures |deque| <= SCROLL_BACK ==> |r| <= SCROLL_BACK
    ensures r != [] && r[|r| - 1] == value
  {
    if |deque| >= SCROLL_BACK then deque[1..] + [value] else deque + [value]
  }

  /** Apart from the pushed value, what is left is the old deque less its front when it was full. */
  lemma BoundedPushDropsOnlyFront<T>(deque: seq<T>, value: T)
    ensures var r := BoundedPush(deque, value); r[..|r| - 1] == deque[|deque| + 1 - |r|..]
  {
  }

  /**
   * `get_top_non_canonical_rows`: removes the wrapped rows at the top of
   * the buffer, that is the longest prefix of non-canonical rows.
   */
  method GetTopNonCanonicalRows(rows: seq<Row>) returns (taken: seq<Row>, rest: seq<Row>)
    ensures taken + rest == rows
    ensures forall k | 0 <= k < |taken| :: !taken[k].isCanonical
    ensures rest == [] || rest[0].isCanonical
  {
    var indexOfLastNonCanonicalRow: Option<nat> := None;
    var i := 0;
    while i < |rows|
      invariant 0 <= i <= |rows|
      invariant indexOfLastNonCanonicalRow == if i == 0 then None else Some(i - 1)
      invariant forall k | 0 <= k < i :: !rows[k].isCanonical
    {
      if rows[i].isCanonical {
        break;
      }
      indexOfLastNonCanonicalRow := Some(i);
      i := i + 1;
    }
    match indexOfLastNonCanonicalRow {
      case Some(index) =>
        taken, rest := rows[..index + 1], rows[index + 1..];
      case None =>
        taken, rest := [], rows;
    }
  }

  /** Where the last canonical row of `rows` starts its wrapped rows (0 when there is none). */
  function WrapsStart(rows: seq<Row>): (i: nat)
    ensures i <= |rows| && (rows != [] ==> i < |rows|)
  {
    if rows == [] then 0
    else if rows[|rows| - 1].isCanonical then |rows| - 1
    else WrapsStart(rows[..|rows| - 1])
  }

  /**
   * `get_bottom_canonical_row_and_wraps`: removes the last canonical row
   * with the wrapped rows after it (all rows when none is canonical).
   */
  method GetBottomCanonicalRowAndWraps(rows: seq<Row>) returns (rest: seq<Row>, taken: seq<Row>)
    ensures rest + taken == rows
    ensures taken == [] <==> rows == []
    ensures taken != [] ==> taken[0].isCanonical || rest == []
    ensures forall k | 0 < k < |taken| :: !taken[k].isCanonical
    ensures |rest| == WrapsStart(rows)
  {
    var indexOfLastNonCanonicalRow: Option<nat> := None;
    var i := |rows|;
    while i > 0
      invariant 0 <= i <= |rows|
      invariant indexOfLastNonCanonicalRow == if i == |rows| then None else Some(i)
      invariant forall k | i <= k < |rows| :: !rows[k].isCanonical
    {
      i := i - 1;
      indexOfLastNonCanonicalRow := Some(i);
      if rows[i].isCanonical {
        break;
      }
    }
    match indexOfLastNonCanonicalRow {
      case Some(index) =>
        rest, taken := rows[..index], rows[index..];
      case None =>
        rest, taken := rows, [];
    }
    assert rest == rows[..i] && taken == rows[i..];
    SplitAtLastCanonical(rows, i);
  }

  /** Splitting before the last canonical row leaves it, then only wrapped rows, in the second part. */
  lemma SplitAtLastCanonical(rows: seq<Row>, i: nat)
    requires i <= |rows| && (rows != [] ==> i < |rows|)
    requires forall k | i < k < |rows| :: !rows[k].isCanonical
    requires 0 < i < |rows| ==> rows[i].isCanonical
    ensures rows[..i] + rows[i..] == rows
    ensures rows[i..] == [] <==> rows == []
    ensures rows[i..] != [] ==> rows[i..][0].isCanonical || i == 0
    ensures forall k | 0 < k < |rows[i..]| :: !rows[i..][k].isCanonical
    ensures i == WrapsStart(rows)
  {
    WrapsStartIsLastCanonical(rows, i);
  }

  /** `WrapsStart` is the only split point with a canonical row (or nothing) before wrapped rows. */
  lemma {:induction false} WrapsStartIsLastCanonical(rows: seq<Row>, i: nat)
    requires i <= |rows| && (rows != [] ==> i < |rows|)
    requires forall k | i < k < |rows| :: !rows[k].isCanonical
    requires 0 < i < |rows| ==> rows[i].isCanonical
    ensures WrapsStart(rows) == i
  {
    if rows != [] && !rows[|rows| - 1].isCanonical {
      var init := rows[..|rows| - 1];
      if init != [] {
        WrapsStartIsLastCanonical(init, i);
      }
    }
  }

  /**
   * One row moved up by `transfer_rows_up` without re-wrapping: the first
   * row of the viewport goes to the scrollback; a wrapped row is first
   * joined to the canonical row it continues and that row's other parts.
   */
  function StepUp(source: seq<Row>, destination: seq<Row>): (r: (seq<Row>, seq<Row>))
    requires source != []
    ensures r.0 == source[1..]
    ensures |r.1| <= |destination| + 1
    ensures |destination| <= SCROLL_BACK ==> |r.1| <= SCROLL_BACK
  {
    (source[1..], PushUp(destination, source[0]))
  }

  function PushUp(destination: seq<Row>, next: Row): (r: seq<Row>)
    ensures |r| <= |destination| + 1
    ensures |destination| <= SCROLL_BACK ==> |r| <= SCROLL_BACK
  {
    var start := if next.isCanonical then |destination| else WrapsStart(destination);
    BoundedPush(destination[..start], Carried(destination[start..], next))
  }

  /** The row `Row::from_rows` makes of the rows taken back from the scrollback followed by `next`. */
  function Carried(moved: seq<Row>, next: Row): Row
    decreases |moved|
  {
    if |moved| == 0 then next
    else Row(moved[0].columns + Carried(moved[1..], next).columns, moved[0].isCanonical)
  }

  /** The carried row holds the characters of the moved rows, then those of `next`. */
  lemma {:induction false} CarriedColumns(moved: seq<Row>, next: Row)
    ensures Carried(moved, next).columns == Flatten(moved) + next.columns
    decreases |moved|
  {
    if |moved| > 0 {
      CarriedColumns(moved[1..], next);
      FlattenFront(moved);
    }
  }

  /** `Carried` is `Row::from_rows` of the moved rows and `next`. */
  lemma CarriedIsJoined(moved: seq<Row>, next: Row)
    ensures Carried(moved, next) == Joined(moved + [next])
  {
    CarriedColumns(moved, next);
    FlattenSnoc(moved, next);
  }

  /** `transfer_rows_up` of `count` rows, with no width to re-wrap the moved rows to. */
  function TransferUp(source: seq<Row>, destination: seq<Row>, count: nat): (seq<Row>, seq<Row>)
    decreases count
  {
    if count == 0 || source == [] then (source, destination)
    else TransferUp(source[1..], PushUp(destination, source[0]), count - 1)
  }

  lemma TransferUpUnfolds(source: seq<Row>, destination: seq<Row>, count: nat)
    requires count > 0 && source != []
    ensures TransferUp(source, destination, count) == TransferUp(StepUp(source, destination).0, StepUp(source, destination).1, count - 1)
  {
  }

  /**
   * `transfer_rows_up` as the grid calls it (with no destination width):
   * moves `count` rows from the top of `source` to the bottom of the
   * scrollback `destination`.
   */
  method TransferRowsUp(source: seq<Row>, destination: seq<Row>, count: nat)
    returns (newSource: seq<Row>, newDestination: seq<Row>)
    ensures (newSource, newDestination) == TransferUp(source, destination, count)
  {
    newSource, newDestination := source, destination;
    var i := 0;
    while i < count
      invariant 0 <= i <= count
      invariant TransferUp(newSource, newDestination, count - i) == TransferUp(source, destination, count)
    {
      if newSource == [] {
        break;
      }
      ghost var step := StepUp(newSource, newDestination);
      ghost var oldDestination := newDestination;
      var nextLine := newSource[0];
      newSource := newSource[1..];
      var nextLines: seq<Row> := [];
      if !nextLine.isCanonical {
        var rest, bottomCanonicalRowAndWraps := GetBottomCanonicalRowAndWraps(newDestination);
        newDestination := rest;
        nextLines := nextLines + bottomCanonicalRowAndWraps;
        assert rest == oldDestination[..WrapsStart(oldDestination)];
        assert nextLines == oldDestination[WrapsStart(oldDestination)..];
      } else {
        assert newDestination == oldDestination[..|oldDestination|];
        assert nextLines == oldDestination[|oldDestination|..];
      }
      nextLines := nextLines + [nextLine];
      var joined := FromRows(nextLines);
      CarriedIsJoined(nextLines[..|nextLines| - 1], nextLine);
      assert nextLines[..|nextLines| - 1] + [nextLine] == nextLines;
      newDestination := BoundedPush(newDestination, joined);
      assert (newSource, newDestination) == step;
      assert TransferUp(step.0, step.1, count - (i + 1)) == TransferUp(source, destination, count);
      i := i + 1;
    }
  }

  /** `b` ends with `a`. */
  ghost predicate IsSuffix<T>(a: seq<T>, b: seq<T>)
  {
    |a| <= |b| && b[|b| - |a|..] == a
  }

  lemma SuffixTransitive<T>(a: seq<T>, b: seq<T>, c: seq<T>)
    requires IsSuffix(a, b) && IsSuffix(b, c)
    ensures IsSuffix(a, c)
  {
    assert c[|c| - |a|..] == c[|c| - |b|..][|b| - |a|..];
  }

  lemma {:induction false} FlattenFront(rows: seq<Row>)
    requires rows != []
    ensures Flatten(rows) == rows[0].columns + Flatten(rows[1..])
  {
    assert rows == [rows[0]] + rows[1..];
    FlattenAppend([rows[0]], rows[1..]);
    FlattenSnoc([], rows[0]);
  }

  lemma FlattenSnoc(rows: seq<Row>, row: Row)
    ensures Flatten(rows + [row]) == Flatten(rows) + row.columns
  {
    assert (rows + [row])[..|rows|] == rows;
  }

  lemma SuffixAppend<T>(a: seq<T>, b: seq<T>, t: seq<T>)
    requires IsSuffix(a, b)
    ensures IsSuffix(a + t, b + t)
  {
    assert (b + t)[|b + t| - |a + t|..] == b[|b| - |a|..] + t;
  }

  lemma SuffixOfAppend<T>(x: seq<T>, y: seq<T>)
    ensures IsSuffix(y, x + y)
  {
    assert (x + y)[|x|..] == y;
  }

  lemma Reassociate<T>(a: seq<T>, b: seq<T>, c: seq<T>, d: seq<T>)
    ensures (a + b) + (c + d) == (a + (b + c)) + d
  {
  }

  lemma Regroup<T>(a: seq<T>, b: seq<T>, c: seq<T>, d: seq<T>)
    ensures ((a + b) + c) + d == (a + (b + c)) + d
  {
  }

  lemma SuffixReflexive<T>(x: seq<T>)
    ensures IsSuffix(x, x)
  {
    assert x[|x| - |x|..] == x;
  }

  /** Pushing onto a full scrollback loses exactly the characters of its front row. */
  lemma PushFullDropsFront(kept: seq<Row>, row: Row)
    requires |kept| >= SCROLL_BACK
    ensures Flatten(kept) + row.columns == kept[0].columns + Flatten(BoundedPush(kept, row))
  {
    assert BoundedPush(kept, row) == kept[1..] + [row];
    FlattenSnoc(kept[1..], row);
    FlattenFront(kept);
  }

  /** A bounded push keeps the characters of the scrollback and the new row, less the dropped front row. */
  lemma PushKeepsCharacters(kept: seq<Row>, row: Row)
    ensures IsSuffix(Flatten(BoundedPush(kept, row)), Flatten(kept) + row.columns)
    ensures |kept| < SCROLL_BACK ==> Flatten(BoundedPush(kept, row)) == Flatten(kept) + row.columns
  {
    if |kept| >= SCROLL_BACK {
      PushFullDropsFront(kept, row);
      SuffixOfAppend(kept[0].columns, Flatten(BoundedPush(kept, row)));
    } else {
      assert BoundedPush(kept, row) == kept + [row];
      FlattenSnoc(kept, row);
      SuffixReflexive(Flatten(kept) + row.columns);
    }
  }

  /** The characters before a step: those the scrollback keeps, the carried row's, and the rest of the viewport's. */
  lemma StepUpSplitsCharacters(source: seq<Row>, destination: seq<Row>)
    requires source != []
    ensures var next := source[0];
      var start := if next.isCanonical then |destination| else WrapsStart(destination);
      var joined := Carried(destination[start..], next);
      && StepUp(source, destination).1 == BoundedPush(destination[..start], joined)
      && Flatten(destination) + Flatten(source) == (Flatten(destination[..start]) + joined.columns) + Flatten(source[1..])
  {
    var next := source[0];
    var start := if next.isCanonical then |destination| else WrapsStart(destination);
    assert destination == destination[..start] + destination[start..];
    FlattenAppend(destination[..start], destination[start..]);
    FlattenFront(source);
    CarriedColumns(destination[start..], next);
    Reassociate(Flatten(destination[..start]), Flatten(destination[start..]), next.columns, Flatten(source[1..]));
  }

  /**
   * One step of the transfer moves characters without changing their order:
   * the characters of scrollback and viewport together are the old ones,
   * less a prefix when the scrollback was full.
   */
  lemma StepUpKeepsCharacters(source: seq<Row>, destination: seq<Row>)
    requires source != []
    ensures var r := StepUp(source, destination);
      IsSuffix(Flatten(r.1) + Flatten(r.0), Flatten(destination) + Flatten(source))
    ensures var r := StepUp(source, destination);
      |destination| < SCROLL_BACK ==> Flatten(r.1) + Flatten(r.0) == Flatten(destination) + Flatten(source)
  {
    var next := source[0];
    var start := if next.isCanonical then |destination| else WrapsStart(destination);
    var kept := destination[..start];
    var joined := Carried(destination[start..], next);
    StepUpSplitsCharacters(source, destination);
    PushKeepsCharacters(kept, joined);
    SuffixAppend(Flatten(BoundedPush(kept, joined)), Flatten(kept) + joined.columns, Flatten(source[1..]));
  }

  /** `transfer_rows_up` removes exactly the first `count` rows of its source (or all of them). */
  lemma {:induction false} TransferUpTakesSourcePrefix(source: seq<Row>, destination: seq<Row>, count: nat)
    ensures var n := if count < |source| then count else |source|;
      TransferUp(source, destination, count).0 == source[n..]
    decreases count
  {
    if count > 0 && source != [] {
      var next := StepUp(source, destination);
      TransferUpUnfolds(source, destination, count);
      TransferUpTakesSourcePrefix(next.0, next.1, count - 1);
      var n := if count < |source| then count else |source|;
      assert source[1..][n - 1..] == source[n..];
    }
  }

  /** The transfer never grows the scrollback past `SCROLL_BACK` rows. */
  lemma {:induction false} TransferUpBounded(source: seq<Row>, destination: seq<Row>, count: nat)
    ensures |destination| <= SCROLL_BACK ==> |TransferUp(source, destination, count).1| <= SCROLL_BACK
    ensures |TransferUp(source, destination, count).1| <= |destination| + count
    decreases count
  {
    if count > 0 && source != [] {
      var next := StepUp(source, destination);
      TransferUpUnfolds(source, destination, count);
      TransferUpBounded(next.0, next.1, count - 1);
    }
  }

  /**
   * The transfer keeps the characters of scrollback and viewport in order,
   * losing at most a prefix of them (the front of a full scrollback).
   */
  lemma {:induction false} TransferUpLosesOnlyPrefix(source: seq<Row>, destination: seq<Row>, count: nat)
    ensures var r := TransferUp(source, destination, count);
      IsSuffix(Flatten(r.1) + Flatten(r.0), Flatten(destination) + Flatten(source))
    decreases count
  {
    var r := TransferUp(source, destination, count);
    var before := Flatten(destination) + Flatten(source);
    if count == 0 || source == [] {
      SuffixReflexive(before);
    } else {
      var next := StepUp(source, destination);
      TransferUpUnfolds(source, destination, count);
      assert r == TransferUp(next.0, next.1, count - 1);
      TransferUpLosesOnlyPrefix(next.0, next.1, count - 1);
      StepUpExtendsSuffix(source, destination, Flatten(r.1) + Flatten(r.0));
    }
  }

  /** A suffix of the characters after a step is a suffix of those before it. */
  lemma StepUpExtendsSuffix(source: seq<Row>, destination: seq<Row>, tail: seq<TerminalCharacter>)
    requires source != []
    requires var next := StepUp(source, destination); IsSuffix(tail, Flatten(next.1) + Flatten(next.0))
    ensures IsSuffix(tail, Flatten(destination) + Flatten(source))
  {
    var next := StepUp(source, destination);
    StepUpKeepsCharacters(source, destination);
    SuffixTransitive(tail, Flatten(next.1) + Flatten(next.0), Flatten(destination) + Flatten(source));
  }

  /** When the scrollback has room for every moved row, the transfer loses no character. */
  lemma {:induction false} TransferUpKeepsCharacters(source: seq<Row>, destination: seq<Row>, count: nat)
    requires |destination| + count <= SCROLL_BACK
    ensures var r := TransferUp(source, destination, count);
      Flatten(r.1) + Flatten(r.0) == Flatten(destination) + Flatten(source)
    decreases count
  {
    if count > 0 && source != [] {
      var next := StepUp(source, destination);
      StepUpKeepsCharacters(source, destination);
      TransferUpUnfolds(source, destination, count);
      TransferUpKeepsCharacters(next.0, next.1, count - 1);
    }
  }

  /** The scrollback, the viewport and the rows scrolled below it. */
  datatype Lines = Lines(above: seq<Row>, viewport: seq<Row>, below: seq<Row>)

  /** All rows, top to bottom. */
  function AllRows(b: Lines): seq<Row> { b.above + b.viewport + b.below }

  /**
   * `scroll_up_one_line`: with a full viewport and a non-empty scrollback,
   * the viewport's last row goes below it and the scrollback's last row
   * becomes its first. None where the source would pop an empty viewport.
   */
  function ScrollUp(b: Lines, height: nat): (r: Option<Lines>)
    ensures r.None? <==> b.above != [] && |b.viewport| == height == 0
  {
    if b.above != [] && |b.viewport| == height then
      if b.viewport == [] then None
      else Some(Lines(
        b.above[..|b.above| - 1],
        [b.above[|b.above| - 1]] + b.viewport[..|b.viewport| - 1],
        [b.viewport[|b.viewport| - 1]] + b.below))
    else Some(b)
  }

  /**
   * `scroll_down_one_line`: with a full viewport and rows below it, the
   * viewport's first row goes to the scrollback (joined to the scrollback's
   * last row when it is a wrapped row) and the first row below becomes the
   * viewport's last. None where the source would take a row from an empty
   * viewport or an empty scrollback.
   */
  function ScrollDown(b: Lines, height: nat): (r: Option<Lines>)
    ensures r.None? <==> (b.below != [] && |b.viewport| == height
      && (height == 0 || (!b.viewport[0].isCanonical && b.above == [])))
  {
    if b.below != [] && |b.viewport| == height then
      if b.viewport == [] then None
      else
        var up := b.viewport[0];
        if up.isCanonical then
          Some(Lines(BoundedPush(b.above, up), b.viewport[1..] + [b.below[0]], b.below[1..]))
        else if b.above == [] then None
        else
          var last := b.above[|b.above| - 1];
          var merged := Row(last.columns + up.columns, last.isCanonical);
          Some(Lines(BoundedPush(b.above[..|b.above| - 1], merged), b.viewport[1..] + [b.below[0]], b.below[1..]))
    else Some(b)
  }

  /**
   * Scrolling up keeps the viewport's length and the rows themselves, in
   * order; it changes nothing exactly when the scrollback is empty or the
   * viewport is not full.
   */
  lemma ScrollUpKeepsRows(b: Lines, height: nat)
    requires ScrollUp(b, height).Some?
    ensures var r := ScrollUp(b, height).value;
      |r.viewport| == |b.viewport| && AllRows(r) == AllRows(b)
      && |r.above| + |r.viewport| + |r.below| == |b.above| + |b.viewport| + |b.below|
    ensures ScrollUp(b, height).value == b <==> b.above == [] || |b.viewport| != height
  {
    var r := ScrollUp(b, height).value;
    if b.above != [] && |b.viewport| == height {
      assert b.above == r.above + [b.above[|b.above| - 1]];
      assert b.viewport == b.viewport[..|b.viewport| - 1] + [b.viewport[|b.viewport| - 1]];
      assert |r.below| == |b.below| + 1;
    }
  }

  /**
   * Scrolling down keeps the viewport's length and the characters of all
   * rows in order, less the front of a full scrollback.
   */
  lemma ScrollDownKeepsCharacters(b: Lines, height: nat)
    requires ScrollDown(b, height).Some?
    ensures var r := ScrollDown(b, height).value;
      |r.viewport| == |b.viewport| && IsSuffix(Flatten(AllRows(r)), Flatten(AllRows(b)))
    ensures var r := ScrollDown(b, height).value;
      |b.above| < SCROLL_BACK ==> Flatten(AllRows(r)) == Flatten(AllRows(b))
    ensures ScrollDown(b, height).value == b <==> b.below == [] || |b.viewport| != height
  {
    if b.below != [] && |b.viewport| == height {
      var up := b.viewport[0];
      var rest := b.viewport[1..] + [b.below[0]] + b.below[1..];
      if up.isCanonical {
        ScrollDownPushing(b, height);
      } else {
        ScrollDownMerging(b, height);
      }
    } else {
      SuffixReflexive(Flatten(AllRows(b)));
    }
  }

  /** The rows after the one that leaves a full viewport downwards. */
  function RowsAfterTop(b: Lines): seq<Row>
    requires b.viewport != [] && b.below != []
  {
    b.viewport[1..] + [b.below[0]] + b.below[1..]
  }

  lemma AllRowsAroundTop(b: Lines)
    requires b.viewport != [] && b.below != []
    ensures AllRows(b) == b.above + [b.viewport[0]] + RowsAfterTop(b)
    ensures Flatten(AllRows(b)) == Flatten(b.above) + b.viewport[0].columns + Flatten(RowsAfterTop(b))
  {
    assert AllRows(b) == b.above + [b.viewport[0]] + RowsAfterTop(b);
    FlattenAppend(b.above + [b.viewport[0]], RowsAfterTop(b));
    FlattenSnoc(b.above, b.viewport[0]);
  }

  /** Scrolling down past a canonical row pushes it, whole, onto the scrollback. */
  lemma ScrollDownPushing(b: Lines, height: nat)
    requires b.below != [] && |b.viewport| == height > 0 && b.viewport[0].isCanonical
    ensures var r := ScrollDown(b, height).value;
      IsSuffix(Flatten(AllRows(r)), Flatten(AllRows(b)))
      && (|b.above| < SCROLL_BACK ==> Flatten(AllRows(r)) == Flatten(AllRows(b)))
  {
    var up := b.viewport[0];
    var r := ScrollDown(b, height).value;
    assert AllRows(r) == BoundedPush(b.above, up) + RowsAfterTop(b);
    FlattenAppend(BoundedPush(b.above, up), RowsAfterTop(b));
    AllRowsAroundTop(b);
    PushKeepsCharacters(b.above, up);
    SuffixAppend(Flatten(BoundedPush(b.above, up)), Flatten(b.above) + up.columns, Flatten(RowsAfterTop(b)));
  }

  /** Scrolling down past a wrapped row joins it to the scrollback's last row. */
  lemma ScrollDownMerging(b: Lines, height: nat)
    requires b.below != [] && |b.viewport| == height > 0 && !b.viewport[0].isCanonical && b.above != []
    ensures var r := ScrollDown(b, height).value;
      IsSuffix(Flatten(AllRows(r)), Flatten(AllRows(b)))
      && (|b.above| < SCROLL_BACK ==> Flatten(AllRows(r)) == Flatten(AllRows(b)))
  {
    var up := b.viewport[0];
    var init := b.above[..|b.above| - 1];
    var last := b.above[|b.above| - 1];
    var merged := Row(last.columns + up.columns, last.isCanonical);
    var r := ScrollDown(b, height).value;
    assert AllRows(r) == BoundedPush(init, merged) + RowsAfterTop(b);
    FlattenAppend(BoundedPush(init, merged), RowsAfterTop(b));
    AllRowsAroundTop(b);
    assert Flatten(b.above) == Flatten(init) + last.columns by {
      assert b.above == init + [last];
      FlattenSnoc(init, last);
    }
    Regroup(Flatten(init), last.columns, up.columns, Flatten(RowsAfterTop(b)));
    assert Flatten(AllRows(b)) == (Flatten(init) + merged.columns) + Flatten(RowsAfterTop(b));
    PushKeepsCharacters(init, merged);
    SuffixAppend(Flatten(BoundedPush(init, merged)), Flatten(init) + merged.columns, Flatten(RowsAfterTop(b)));
  }

  /**
   * Scrolling up and then down again restores the buffers, as long as the
   * row that went into the viewport is a canonical one.
   */
  lemma ScrollUpThenDown(b: Lines, height: nat)
    requires b.above != [] && |b.viewport| == height > 0
    requires b.above[|b.above| - 1].isCanonical
    requires |b.above| <= SCROLL_BACK
    ensures ScrollUp(b, height).Some?
    ensures ScrollDown(ScrollUp(b, height).value, height) == Some(b)
  {
    var r := ScrollUp(b, height).value;
    assert r.viewport[1..] + [r.below[0]] == b.viewport;
    assert r.above + [b.above[|b.above| - 1]] == b.above;
  }

  /**
   * Scrolling down and then up again restores the buffers, as long as the
   * row that left the viewport was a canonical one and the scrollback had
   * room for it.
   */
  lemma ScrollDownThenUp(b: Lines, height: nat)
    requires b.below != [] && |b.viewport| == height > 0
    requires b.viewport[0].isCanonical
    requires |b.above| < SCROLL_BACK
    ensures ScrollDown(b, height).Some?
    ensures ScrollUp(ScrollDown(b, height).value, height) == Some(b)
  {
    var r := ScrollDown(b, height).value;
    assert r.above == b.above + [b.viewport[0]];
    assert r.viewport[..|r.viewport| - 1] == b.viewport[1..];
    assert [b.viewport[0]] + b.viewport[1..] == b.viewport;
    assert [b.below[0]] + b.below[1..] == b.below;
    assert [r.above[|r.above| - 1]] + r.viewport[..|r.viewport| - 1] == b.viewport;
  }
}
