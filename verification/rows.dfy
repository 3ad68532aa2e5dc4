/**
 * Rows of the terminal grid: a row is a vector of characters, each covering
 * a number of screen columns (its width), plus a flag telling whether the
 * row starts a logical line (canonical) or continues the one above (a wrap).
 */
module Rows {
  import opened Wrappers

  /** A character on the screen and the number of columns it covers. */
  datatype TerminalCharacter = TerminalCharacter(character: char, width: nat)

  /** The blank used for padding. */
  const EMPTY_CHARACTER: TerminalCharacter := TerminalCharacter(' ', 1)

  datatype Row = Row(columns: seq<TerminalCharacter>, isCanonical: bool)

  // ---------------------------------------------------------------------------
  // Width accounting
  // ---------------------------------------------------------------------------

  /** Screen columns covered by `cs`. */
  function TotalWidth(cs: seq<TerminalCharacter>): nat
  {
    if cs == [] then 0 else TotalWidth(cs[..|cs| - 1]) + cs[|cs| - 1].width
  }

  /** Columns a character covers beyond its first one. */
  function Excess(c: TerminalCharacter): nat
  {
    if c.width > 1 then c.width - 1 else 0
  }

  /** Columns the characters of `cs` cover beyond one each. */
  function ExcessWidth(cs: seq<TerminalCharacter>): nat
  {
    if cs == [] then 0 else ExcessWidth(cs[..|cs| - 1]) + Excess(cs[|cs| - 1])
  }

  lemma {:induction false} TotalWidthAppend(a: seq<TerminalCharacter>, b: seq<TerminalCharacter>)
    ensures TotalWidth(a + b) == TotalWidth(a) + TotalWidth(b)
    decreases |b|
  {
    if b == [] {
      assert a + b == a;
    } else {
      assert (a + b)[..|a + b| - 1] == a + b[..|b| - 1];
      assert (a + b)[|a + b| - 1] == b[|b| - 1];
      TotalWidthAppend(a, b[..|b| - 1]);
    }
  }

  /**
   * A row covers at most one column per character plus its excess, and
   * exactly that many when no character has width 0.
   */
  lemma {:induction false} WidthIsLengthPlusExcess(cs: seq<TerminalCharacter>)
    ensures TotalWidth(cs) <= |cs| + ExcessWidth(cs)
    ensures (forall i | 0 <= i < |cs| :: cs[i].width >= 1) ==> TotalWidth(cs) == |cs| + ExcessWidth(cs)
  {
    if cs != [] {
      var init := cs[..|cs| - 1];
      assert forall i | 0 <= i < |init| :: init[i] == cs[i];
      WidthIsLengthPlusExcess(init);
    }
  }

  /** The excess of a prefix grows with the prefix. */
  lemma {:induction false} ExcessPrefixMonotonic(cs: seq<TerminalCharacter>, i: nat, j: nat)
    requires i <= j <= |cs|
    ensures ExcessWidth(cs[..i]) <= ExcessWidth(cs[..j])
    decreases j - i
  {
    if i < j {
      assert cs[..j][..j - 1] == cs[..j - 1];
      ExcessPrefixMonotonic(cs, i, j - 1);
    }
  }

  /** `Row::width`: the sum of the character widths. */
  method Width(row: Row) returns (width: nat)
    ensures width == TotalWidth(row.columns)
  {
    width := 0;
    var i := 0;
    while i < |row.columns|
      invariant 0 <= i <= |row.columns|
      invariant width == TotalWidth(row.columns[..i])
    {
      assert row.columns[..i + 1][..i] == row.columns[..i];
      width := width + row.columns[i].width;
      i := i + 1;
    }
    assert row.columns[..i] == row.columns;
  }

  /** `Row::excess_width`: the sum of what each character covers beyond one column. */
  method ExcessWidthOf(row: Row) returns (acc: nat)
    ensures acc == ExcessWidth(row.columns)
  {
    acc := ExcessWidthUntil(row, |row.columns|);
    assert row.columns[..|row.columns|] == row.columns;
  }

  /** `Row::excess_width_until`: the excess of the first `x` characters. */
  method ExcessWidthUntil(row: Row, x: nat) returns (acc: nat)
    ensures acc == ExcessWidth(row.columns[..if x < |row.columns| then x else |row.columns|])
  {
    var n := if x < |row.columns| then x else |row.columns|;
    acc := 0;
    var i := 0;
    while i < n
      invariant 0 <= i <= n
      invariant acc == ExcessWidth(row.columns[..i])
    {
      assert row.columns[..i + 1][..i] == row.columns[..i];
      if row.columns[i].width > 1 {
        acc := acc + (row.columns[i].width - 1);
      }
      i := i + 1;
    }
  }

  // ---------------------------------------------------------------------------
  // Editing
  // ---------------------------------------------------------------------------

  /**
   * `Row::truncate`: cuts the row so that it fits in `x` screen columns,
   * counting the excess of the first `x` characters. The result is a prefix
   * of the row, never wider than `x`, and a row with no zero-width character
   * that already fits is left alone.
   */
  method Truncate(row: Row, x: nat) returns (r: Row)
    ensures r.isCanonical == row.isCanonical
    ensures r.columns <= row.columns
    ensures TotalWidth(r.columns) <= x
    ensures TotalWidth(row.columns) <= x && (forall i | 0 <= i < |row.columns| :: row.columns[i].width >= 1) ==> r == row
  {
    var widthOffset := ExcessWidthUntil(row, x);
    var position := if x >= widthOffset then x - widthOffset else 0;
    ghost var m := if x < |row.columns| then x else |row.columns|;
    WidthIsLengthPlusExcess(row.columns);
    if position < |row.columns| {
      r := Row(row.columns[..position], row.isCanonical);
      WidthIsLengthPlusExcess(row.columns[..position]);
      assert row.columns[..m][..position] == row.columns[..position];
      ExcessPrefixMonotonic(row.columns[..m], position, m);
      assert row.columns[..m][..m] == row.columns[..m];
      if m == |row.columns| {
        assert row.columns[..m] == row.columns;
      }
    } else {
      r := row;
      assert row.columns[..m] == row.columns;
    }
  }

  /**
   * `Row::insert_character_at`: puts `c` at index `x`, shifting what was at
   * `x` and after one place right; a row shorter than `x` is first padded
   * with blanks.
   */
  function InsertCharacterAt(row: Row, c: TerminalCharacter, x: nat): (r: Row)
    ensures r.isCanonical == row.isCanonical
    ensures |r.columns| == (if x <= |row.columns| then |row.columns| else x) + 1
    ensures r.columns[x] == c
    ensures forall i | 0 <= i < x && i < |row.columns| :: r.columns[i] == row.columns[i]
    ensures forall i | |row.columns| <= i < x :: r.columns[i] == EMPTY_CHARACTER
    ensures forall i | x < i < |r.columns| :: r.columns[i] == row.columns[i - 1]
  {
    if |row.columns| == x then Row(row.columns + [c], row.isCanonical)
    else if |row.columns| < x then Row(row.columns + seq(x - |row.columns|, _ => EMPTY_CHARACTER) + [c], row.isCanonical)
    else Row(row.columns[..x] + [c] + row.columns[x..], row.isCanonical)
  }

  /** `Row::delete_and_return_character`: removes the character at `x`, if there is one. */
  function DeleteCharacterAt(row: Row, x: nat): (r: (Row, Option<TerminalCharacter>))
    ensures x < |row.columns| <==> r.1.Some?
    ensures r.1.Some? ==> |r.0.columns| == |row.columns| - 1
    ensures r.1.Some? ==> r.1.value == row.columns[x] && r.0.columns[..x] + [r.1.value] + r.0.columns[x..] == row.columns
    ensures r.1.None? ==> r.0 == row
    ensures r.0.isCanonical == row.isCanonical
  {
    if x < |row.columns| then
      (Row(row.columns[..x] + row.columns[x + 1..], row.isCanonical), Some(row.columns[x]))
    else (row, None)
  }

  /** Deleting what was just inserted gives back the row, padded up to `x` with blanks. */
  lemma InsertThenDelete(row: Row, c: TerminalCharacter, x: nat)
    ensures DeleteCharacterAt(InsertCharacterAt(row, c, x), x) ==
      (if x <= |row.columns| then (row, Some(c))
       else (Row(row.columns + seq(x - |row.columns|, _ => EMPTY_CHARACTER), row.isCanonical), Some(c)))
  {
    var ins := InsertCharacterAt(row, c, x);
    var del := DeleteCharacterAt(ins, x);
    if x <= |row.columns| {
      assert del.0.columns == row.columns;
    } else {
      assert del.0.columns == row.columns + seq(x - |row.columns|, _ => EMPTY_CHARACTER);
    }
  }

  /**
   * `Row::drain_until`: removes the longest prefix of whole characters that
   * fits in `x` columns and returns it; the row keeps the rest.
   */
  method DrainUntil(row: Row, x: nat) returns (drained: seq<TerminalCharacter>, rest: Row)
    ensures drained + rest.columns == row.columns
    ensures TotalWidth(drained) <= x
    ensures rest.columns != [] ==> TotalWidth(drained) + rest.columns[0].width > x
    ensures rest.isCanonical == row.isCanonical
  {
    drained := [];
    var drainedLen := 0;
    var columns := row.columns;
    while columns != []
      invariant drained + columns == row.columns
      invariant drainedLen == TotalWidth(drained) <= x
      decreases |columns|
    {
      var nextLen := columns[0].width;
      if drainedLen + nextLen <= x {
        assert (drained + [columns[0]])[..|drained|] == drained;
        drained := drained + [columns[0]];
        columns := columns[1..];
        drainedLen := drainedLen + nextLen;
      } else {
        break;
      }
    }
    rest := Row(columns, row.isCanonical);
  }

  // ---------------------------------------------------------------------------
  // Splitting and joining
  // ---------------------------------------------------------------------------

  /** The characters of all rows, in order. */
  function Flatten(rows: seq<Row>): seq<TerminalCharacter>
  {
    if rows == [] then [] else Flatten(rows[..|rows| - 1]) + rows[|rows| - 1].columns
  }

  lemma {:induction false} FlattenAppend(a: seq<Row>, b: seq<Row>)
    ensures Flatten(a + b) == Flatten(a) + Flatten(b)
    decreases |b|
  {
    if b == [] {
      assert a + b == a;
    } else {
      assert (a + b)[..|a + b| - 1] == a + b[..|b| - 1];
      assert (a + b)[|a + b| - 1] == b[|b| - 1];
      FlattenAppend(a, b[..|b| - 1]);
    }
  }

  lemma {:induction false} FlattenIgnoresFlags(rows: seq<Row>, i: nat, b: bool)
    requires i < |rows|
    ensures Flatten(rows[i := rows[i].(isCanonical := b)]) == Flatten(rows)
    decreases |rows|
  {
    var rows' := rows[i := rows[i].(isCanonical := b)];
    if i < |rows| - 1 {
      assert rows'[..|rows'| - 1] == rows[..|rows| - 1][i := rows[i].(isCanonical := b)];
      FlattenIgnoresFlags(rows[..|rows| - 1], i, b);
    } else {
      assert rows'[..|rows'| - 1] == rows[..|rows| - 1];
    }
  }

  /** The row `Row::from_rows` builds: all characters, and the first row's flag. */
  function Joined(rows: seq<Row>): (r: Row)
    ensures r.columns == Flatten(rows)
  {
    if rows == [] then Row([], false) else Row(Flatten(rows), rows[0].isCanonical)
  }

  /** `Row::from_rows`: appends the characters of every row to the first one. */
  method FromRows(rows: seq<Row>) returns (r: Row)
    ensures r == Joined(rows)
  {
    if rows == [] {
      return Row([], false);
    }
    r := rows[0];
    var i := 1;
    assert rows[..1][..0] == [];
    while i < |rows|
      invariant 1 <= i <= |rows|
      invariant r == Row(Flatten(rows[..i]), rows[0].isCanonical)
    {
      assert rows[..i + 1][..i] == rows[..i];
      r := Row(r.columns + rows[i].columns, r.isCanonical);
      i := i + 1;
    }
    assert rows[..i] == rows;
  }

  /**
   * The shape of a list of wrapped rows cut at `maxRowLength`: each row fits
   * or holds a single character, only the first may be empty, and each row
   * was closed because the next character would not fit.
   */
  ghost predicate WellWrapped(parts: seq<Row>, maxRowLength: nat)
  {
    && (forall k | 0 <= k < |parts| :: TotalWidth(parts[k].columns) <= maxRowLength || |parts[k].columns| == 1)
    && (forall k | 0 < k < |parts| :: parts[k].columns != [])
    && (forall k, l | 0 <= k < l < |parts| && l == k + 1 :: TotalWidth(parts[k].columns) + parts[l].columns[0].width > maxRowLength)
  }

  lemma CloseWrappedRow(parts: seq<Row>, current: seq<TerminalCharacter>, maxRowLength: nat)
    requires WellWrapped(parts, maxRowLength)
    requires TotalWidth(current) <= maxRowLength || |current| == 1
    requires parts != [] ==> current != [] && TotalWidth(parts[|parts| - 1].columns) + current[0].width > maxRowLength
    ensures WellWrapped(parts + [Row(current, false)], maxRowLength)
  {
  }

  /** What holds between two characters while a row is being split. */
  ghost predicate Splitting(parts: seq<Row>, current: seq<TerminalCharacter>, maxRowLength: nat)
  {
    && (parts != [] ==> current != [])
    && (TotalWidth(current) <= maxRowLength || |current| == 1)
    && WellWrapped(parts, maxRowLength)
    && (parts != [] ==> TotalWidth(parts[|parts| - 1].columns) + current[0].width > maxRowLength)
    && (forall k | 0 <= k < |parts| :: !parts[k].isCanonical)
  }

  /** One character of the split: close the open row if `c` would overflow it, then add `c`. */
  function WrapStep(state: (seq<Row>, seq<TerminalCharacter>), c: TerminalCharacter, maxRowLength: nat): (seq<Row>, seq<TerminalCharacter>)
  {
    if TotalWidth(state.1) + c.width > maxRowLength then (state.0 + [Row(state.1, false)], [c])
    else (state.0, state.1 + [c])
  }

  /** The closed rows and the open row after splitting `cs`, character by character. */
  function Wrap(cs: seq<TerminalCharacter>, maxRowLength: nat): (seq<Row>, seq<TerminalCharacter>)
  {
    if cs == [] then ([], []) else WrapStep(Wrap(cs[..|cs| - 1], maxRowLength), cs[|cs| - 1], maxRowLength)
  }

  lemma SplitStep(parts: seq<Row>, current: seq<TerminalCharacter>, c: TerminalCharacter, maxRowLength: nat)
    requires Splitting(parts, current, maxRowLength)
    ensures var next := WrapStep((parts, current), c, maxRowLength); Splitting(next.0, next.1, maxRowLength)
  {
    if TotalWidth(current) + c.width > maxRowLength {
      assert WrapStep((parts, current), c, maxRowLength) == (parts + [Row(current, false)], [c]);
      SplitStepClosing(parts, current, c, maxRowLength);
    } else {
      assert WrapStep((parts, current), c, maxRowLength) == (parts, current + [c]);
      SplitStepExtending(parts, current, c, maxRowLength);
    }
  }

  lemma SplitStepClosing(parts: seq<Row>, current: seq<TerminalCharacter>, c: TerminalCharacter, maxRowLength: nat)
    requires Splitting(parts, current, maxRowLength)
    requires TotalWidth(current) + c.width > maxRowLength
    ensures Splitting(parts + [Row(current, false)], [c], maxRowLength)
  {
    var ps := parts + [Row(current, false)];
    CloseWrappedRow(parts, current, maxRowLength);
    assert TotalWidth([c]) == c.width by { assert [c][..0] == []; }
    assert forall k | 0 <= k < |ps| :: !ps[k].isCanonical by {
      forall k | 0 <= k < |ps| ensures !ps[k].isCanonical {
        if k < |parts| { assert ps[k] == parts[k]; }
      }
    }
  }

  lemma SplitStepExtending(parts: seq<Row>, current: seq<TerminalCharacter>, c: TerminalCharacter, maxRowLength: nat)
    requires Splitting(parts, current, maxRowLength)
    requires TotalWidth(current) + c.width <= maxRowLength
    ensures Splitting(parts, current + [c], maxRowLength)
  {
    var cur := current + [c];
    assert TotalWidth(cur) == TotalWidth(current) + c.width by { assert cur[..|current|] == current; }
    assert parts != [] ==> cur[0] == current[0];
  }

  lemma {:induction false} WrapIsSplitting(cs: seq<TerminalCharacter>, maxRowLength: nat)
    ensures Splitting(Wrap(cs, maxRowLength).0, Wrap(cs, maxRowLength).1, maxRowLength)
  {
    if cs != [] {
      var init, c := cs[..|cs| - 1], cs[|cs| - 1];
      var w := Wrap(init, maxRowLength);
      assert Wrap(cs, maxRowLength) == WrapStep(w, c, maxRowLength);
      WrapIsSplitting(init, maxRowLength);
      SplitStep(w.0, w.1, c, maxRowLength);
    }
  }

  /** Splitting neither loses nor reorders characters. */
  lemma {:induction false} WrapKeepsCharacters(cs: seq<TerminalCharacter>, maxRowLength: nat)
    ensures Flatten(Wrap(cs, maxRowLength).0) + Wrap(cs, maxRowLength).1 == cs
  {
    if cs != [] {
      var init, c := cs[..|cs| - 1], cs[|cs| - 1];
      assert init + [c] == cs;
      var w := Wrap(init, maxRowLength);
      assert Wrap(cs, maxRowLength) == WrapStep(w, c, maxRowLength);
      WrapKeepsCharacters(init, maxRowLength);
      if TotalWidth(w.1) + c.width > maxRowLength {
        FlattenAppend(w.0, [Row(w.1, false)]);
        assert Flatten([Row(w.1, false)]) == w.1;
      }
    }
  }

  lemma MarkingKeepsWrapping(parts: seq<Row>, marked: seq<Row>, maxRowLength: nat)
    requires parts != [] && WellWrapped(parts, maxRowLength)
    requires forall k | 0 <= k < |parts| :: !parts[k].isCanonical
    requires marked == parts[0 := parts[0].(isCanonical := true)]
    ensures WellWrapped(marked, maxRowLength)
    ensures forall k | 0 <= k < |marked| :: marked[k].isCanonical == (k == 0)
  {
    assert forall k | 0 <= k < |parts| :: marked[k].columns == parts[k].columns;
  }

  /** The rows after the open one is closed at the end of the row. */
  function Closed(cs: seq<TerminalCharacter>, maxRowLength: nat): seq<Row>
  {
    var w := Wrap(cs, maxRowLength);
    if w.1 != [] then w.0 + [Row(w.1, false)] else w.0
  }

  /** The rows `split_to_rows_of_length` returns: the open row closed, and the first one marked. */
  function SplitRows(row: Row, maxRowLength: nat): seq<Row>
  {
    var parts := Closed(row.columns, maxRowLength);
    if parts != [] && row.isCanonical then parts[0 := parts[0].(isCanonical := true)] else parts
  }

  lemma ClosedKeepsCharacters(cs: seq<TerminalCharacter>, maxRowLength: nat)
    ensures Flatten(Closed(cs, maxRowLength)) == cs
    ensures cs == [] <==> Closed(cs, maxRowLength) == []
  {
    var w := Wrap(cs, maxRowLength);
    WrapKeepsCharacters(cs, maxRowLength);
    WrapIsSplitting(cs, maxRowLength);
    if w.1 != [] {
      FlattenAppend(w.0, [Row(w.1, false)]);
      assert Flatten([Row(w.1, false)]) == w.1;
    }
  }

  lemma ClosedIsWrapped(cs: seq<TerminalCharacter>, maxRowLength: nat)
    ensures WellWrapped(Closed(cs, maxRowLength), maxRowLength)
    ensures forall k | 0 <= k < |Closed(cs, maxRowLength)| :: !Closed(cs, maxRowLength)[k].isCanonical
  {
    var w := Wrap(cs, maxRowLength);
    WrapIsSplitting(cs, maxRowLength);
    if w.1 != [] {
      CloseWrappedRow(w.0, w.1, maxRowLength);
      var closed := w.0 + [Row(w.1, false)];
      assert forall k | 0 <= k < |closed| :: !closed[k].isCanonical by {
        forall k | 0 <= k < |closed| ensures !closed[k].isCanonical {
          if k < |w.0| { assert closed[k] == w.0[k]; }
        }
      }
    }
  }

  lemma SplitRowsKeepCharacters(row: Row, maxRowLength: nat)
    ensures Flatten(SplitRows(row, maxRowLength)) == row.columns
    ensures row.columns == [] <==> SplitRows(row, maxRowLength) == []
  {
    var closed := Closed(row.columns, maxRowLength);
    ClosedKeepsCharacters(row.columns, maxRowLength);
    if closed != [] && row.isCanonical {
      FlattenIgnoresFlags(closed, 0, true);
    }
  }

  lemma SplitRowsAreWrapped(row: Row, maxRowLength: nat)
    ensures WellWrapped(SplitRows(row, maxRowLength), maxRowLength)
    ensures forall i | 0 <= i < |SplitRows(row, maxRowLength)| ::
      SplitRows(row, maxRowLength)[i].isCanonical == (i == 0 && row.isCanonical)
  {
    var closed := Closed(row.columns, maxRowLength);
    ClosedIsWrapped(row.columns, maxRowLength);
    if closed != [] && row.isCanonical {
      var marked := closed[0 := closed[0].(isCanonical := true)];
      assert SplitRows(row, maxRowLength) == marked;
      MarkingKeepsWrapping(closed, marked, maxRowLength);
    }
  }

  /**
   * `Row::split_to_rows_of_length`: cuts the row into wrapped rows of at most
   * `maxRowLength` columns. A character wider than that gets a row of its
   * own; when it is the very first one, an empty row comes before it. Only
   * the first part keeps the row's canonical flag.
   */
  method SplitToRowsOfLength(row: Row, maxRowLength: nat) returns (parts: seq<Row>)
    ensures Flatten(parts) == row.columns
    ensures row.columns == [] <==> parts == []
    ensures WellWrapped(parts, maxRowLength)
    ensures forall i | 0 <= i < |parts| :: parts[i].isCanonical == (i == 0 && row.isCanonical)
  {
    var currentPart;
    parts, currentPart := WrapColumns(row.columns, maxRowLength);
    if currentPart != [] {
      parts := parts + [Row(currentPart, false)];
    }
    assert parts == Closed(row.columns, maxRowLength);
    if parts != [] && row.isCanonical {
      parts := parts[0 := parts[0].(isCanonical := true)];
    }
    assert parts == SplitRows(row, maxRowLength);
    SplitRowsKeepCharacters(row, maxRowLength);
    SplitRowsAreWrapped(row, maxRowLength);
  }

  /** The loop of `split_to_rows_of_length` over the row's characters: the closed rows and the open one. */
  method WrapColumns(columns: seq<TerminalCharacter>, maxRowLength: nat) returns (parts: seq<Row>, currentPart: seq<TerminalCharacter>)
    ensures (parts, currentPart) == Wrap(columns, maxRowLength)
  {
    parts := [];
    currentPart := [];
    var currentPartLen := 0;
    var i := 0;
    while i < |columns|
      invariant 0 <= i <= |columns|
      invariant currentPartLen == TotalWidth(currentPart)
      invariant (parts, currentPart) == Wrap(columns[..i], maxRowLength)
    {
      var character := columns[i];
      assert columns[..i + 1][..i] == columns[..i];
      assert (currentPart + [character])[..|currentPart|] == currentPart;
      if currentPartLen + character.width > maxRowLength {
        parts := parts + [Row(currentPart, false)];
        currentPart := [];
        currentPartLen := 0;
      }
      currentPart := currentPart + [character];
      currentPartLen := currentPartLen + character.width;
      i := i + 1;
    }
    assert columns[..i] == columns;
  }

  /**
   * A row that was split and is joined back with `Row::from_rows` is the
   * row it was: same characters, same canonical flag.
   */
  lemma SplitThenJoin(row: Row, parts: seq<Row>)
    requires row.columns != []
    requires Flatten(parts) == row.columns
    requires parts != [] && parts[0].isCanonical == row.isCanonical
    ensures Joined(parts) == row
  {
  }

  /** When no character is wider than the limit, no wrapped row is either. */
  lemma SplitPartsFit(parts: seq<Row>, maxRowLength: nat)
    requires forall i | 0 <= i < |parts| :: TotalWidth(parts[i].columns) <= maxRowLength || |parts[i].columns| == 1
    requires forall i, j | 0 <= i < |parts| && 0 <= j < |parts[i].columns| :: parts[i].columns[j].width <= maxRowLength
    ensures forall i | 0 <= i < |parts| :: TotalWidth(parts[i].columns) <= maxRowLength
  {
    forall i | 0 <= i < |parts|
      ensures TotalWidth(parts[i].columns) <= maxRowLength
    {
      if |parts[i].columns| == 1 {
        assert parts[i].columns[..0] == [];
      }
    }
  }
}
