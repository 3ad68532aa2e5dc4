# A verified model of zellij's terminal grid, tabs and screen

This project models the core of zellij, a terminal multiplexer. The model
is written in Dafny and its properties are proved. It covers four parts:

- **The terminal grid** (`zellij-server/src/panes/grid.rs`). This is the
  character buffer behind one terminal pane:
  - the rows of characters, and the canonical flag that separates a real
    line from a line that only wraps;
  - the scrollback above the viewport, capped at `SCROLL_BACK` rows, and the
    lines below it;
  - the cursor and the saved cursor;
  - the horizontal tab stops, every `TABSTOP_WIDTH` columns;
  - the scroll region and the operations on it.
- **The tab** (`zellij-server/src/tab.rs`). This is a set of panes laid out
  in one rectangle:
  - pane geometry: the splits with a one-cell gap, adjacency, overlaps and
    the minimum sizes;
  - the search for the neighbours whose aligned borders can take over the
    space of a closed pane;
  - the fullscreen toggle, focus cycling, splitting and closing panes.
- **The screen** (`zellij-server/src/screen.rs`). This is the ordered
  collection of tabs:
  - each tab has a key (its `index`) and a place in the tab bar (its
    `position`);
  - operations create a tab, switch to the next or previous tab, go to a
    position, close the active tab, rename it, and change the input mode.
- **Shared helpers** (`zellij-utils/src/shared.rs`): `adjust_to_size`, which
  fits a text into a rows×columns box, and `version_number`, which turns a
  semantic version into one comparable number.

The model follows the Rust code at the lines each row of the table below
cites.

## How the model is organised

| module | file | models |
|---|---|---|
| `Wrappers` | wrappers.dfy | `Option` |
| `Shared` | shared.dfy | `adjust_to_size`, `version_number`, `str::lines`, `str::split`, `String::truncate` |
| `Rows` | rows.dfy | `TerminalCharacter` and `Row` (a value type, grid.rs:1583-1826) |
| `GridBuffers` | grid_buffers.dfy | the free functions of grid.rs: `parse_number`, `bounded_push`, the tab-stop table, moving rows between the viewport and the scrollback, scrolling one line |
| `GridTabstops` | grid_tabstops.dfy | the tab-stop list as a sorted set |
| `GridRegions` | grid_regions.dfy | rotating, deleting and inserting lines inside a scroll region |
| `Grids` | grid.dfy | class `Grid`, whose methods update the buffers in place |
| `Panes` | panes.dfy | `PositionAndSize` and the `Pane` geometry of tab.rs:30-205 |
| `PaneMaps` | pane_map.dfy | the tab's `BTreeMap<PaneId, Pane>` as a sequence sorted by id |
| `Focus` | focus.dfy | focus cycling, in id order and in reading order |
| `TabLayouts` | tab_layout.dfy | a tab's panes, its active pane and its fullscreen state as a value, with the close, split and fullscreen algorithms |
| `Tabs` | tab.dfy | class `Tab` |
| `TabEntries` | tab_entries.dfy | the (index, position) pairs of the tab bar, and the tab-name editing rule |
| `Screens` | screen.dfy | class `Screen` |

Rust's `BTreeMap` and `BTreeSet` are modelled as sequences kept strictly
sorted by key. Several source loops depend on that iteration order, so a
plain map would lose information. A `&mut self` method of `Row` returns
the new row, because a `Row` is never shared between owners. The objects
whose fields the source updates in place (`Grid`, `Tab` and `Screen`) are
classes. Their methods state their whole new state in terms of functions
of the old state, and lemmas prove the properties of those functions.

## Model

| member | source | states |
|---|---|---|
| Shared.Spaces | zellij-utils/src/shared.rs:36-40 | the padding string has exactly n characters, all spaces |
| Shared.IndexOf | zellij-utils/src/shared.rs:112 | the first occurrence of the separator, or the length when it is absent; no earlier character matches |
| Shared.Split | zellij-utils/src/shared.rs:112 | `str::split` gives at least one part, and no part contains the separator |
| Shared.SplitJoin | zellij-utils/src/shared.rs:112 | joining the parts of a split with the separator gives back the original string |
| Shared.StripCr | zellij-utils/src/shared.rs:29 | a line loses at most one trailing carriage return |
| Shared.Lines | zellij-utils/src/shared.rs:29 | `str::lines` gives no lines exactly for the empty text, and no line holds a line feed |
| Shared.LinesJoin | zellij-utils/src/shared.rs:29 | for text without carriage returns or a trailing line feed, joining the lines with "\n" gives back the text |
| Shared.Utf8Len | zellij-utils/src/shared.rs:32-35 | a character takes 1 to 4 bytes in UTF-8, and 1 exactly when it is ASCII |
| Shared.ByteLen | zellij-utils/src/shared.rs:32-35 | the UTF-8 length of a string is at least its character count |
| Shared.Truncate | zellij-utils/src/shared.rs:32-35 | `String::truncate(n)` keeps a prefix that is min(n, byte length) bytes long; the panic (None) can happen only when n is below the byte length |
| Shared.TruncateAscii | zellij-utils/src/shared.rs:32-35 | on ASCII text, truncating to n bytes keeps the first min(n, length) characters |
| Shared.AdjustLine | zellij-utils/src/shared.rs:30-39 | a line no wider than `columns` is kept and padded with exactly `columns - width` spaces; a wider line that can be cut becomes a prefix of itself |
| Shared.AdjustLines | zellij-utils/src/shared.rs:28-44 | the result has exactly `rows` lines: the adjusted input lines first, then lines of `columns` spaces; it fails only where one line's truncation would panic |
| Shared.AdjustToSizeShape | zellij-utils/src/shared.rs:28-44 | `adjust_to_size` yields `rows` lines joined with "\n\r", each either an adjusted input line or a blank filler line |
| Shared.AdjustLineAsciiWidth | zellij-utils/src/shared.rs:28-44 | on ASCII text without escape codes every output line is exactly `columns` characters wide |
| Shared.AdjustToSizePanicsOnMultiByteLine | zellij-utils/src/shared.rs:32-35 | the line "éé" in a one-column box makes the byte truncation cut inside a character (see Findings) |
| Shared.AdjustLineByChars | zellij-utils/src/shared.rs:30-39 | with truncation by characters, a long line becomes a prefix of `columns` characters and a short line is padded as before |
| Shared.AdjustLinesByChars | zellij-utils/src/shared.rs:28-44 | the corrected `adjust_to_size` always yields exactly `rows` lines |
| Shared.AdjustByCharsFits | zellij-utils/src/shared.rs:28-44 | with truncation by characters, every line of any text comes out exactly `columns` characters wide |
| Shared.ParseUsize | zellij-utils/src/shared.rs:114 | a parsed component is below the usize limit, and the empty string does not parse |
| Shared.Pow100 | zellij-utils/src/shared.rs:115 | every power of 100 is positive |
| Shared.ScaledIsProduct | zellij-utils/src/shared.rs:115 | the weight of component i is `100^i` times its value |
| Shared.LastIndexOf | zellij-utils/src/shared.rs:106-108 | `rfind('-')` finds the last hyphen, with none after it; None means there is no hyphen |
| Shared.WeightedFrom | zellij-utils/src/shared.rs:113-116 | the loop's sum over the remaining components equals the weighted head plus the rest |
| Shared.VersionNumber | zellij-utils/src/shared.rs:105-119 | the loop computes the sum over the components of `100^i` times each component, counting from the last component |
| Shared.SplitExample | zellij-utils/src/shared.rs:112 | "0.12.1" splits into "0", "12" and "1" |
| Shared.ComponentExamples | zellij-utils/src/shared.rs:114 | the components "0", "1" and "12" parse to 0, 1 and 12 |
| Shared.VersionExample | zellij-utils/src/shared.rs:102-119 | version "0.12.1" becomes 1201 |
| Shared.WeightedExample | zellij-utils/src/shared.rs:113-116 | the components ["0", "12", "1"] weigh 1201 |
| Shared.NoTag | zellij-utils/src/shared.rs:106-108 | a version without a hyphen is left as it is |
| Shared.VersionIgnoresTag | zellij-utils/src/shared.rs:105-112 | a pre-release tag after the last hyphen does not change the number |
| Shared.UnparsableComponentIsZero | zellij-utils/src/shared.rs:114 | a component that does not parse counts as 0 |
| Shared.WeightedBound | zellij-utils/src/shared.rs:113-116 | with components below 100, the number stays below `100^(number of components)` |
| Shared.ScaledBelowNextWeight | zellij-utils/src/shared.rs:115 | one component below 100 at weight i stays below the next weight |
| Shared.ScaledGap | zellij-utils/src/shared.rs:115 | a larger component at the same weight adds at least one whole weight |
| Shared.VersionMonotonic | zellij-utils/src/shared.rs:102-119 | with components below 100, the first differing component decides the order of the numbers (the comment's promise) |
| Shared.FirstComponentDecides | zellij-utils/src/shared.rs:102-119 | a higher major version gives a higher number, whatever follows |
| Shared.WeightedFront | zellij-utils/src/shared.rs:113-116 | the first component carries the highest weight |
| Shared.TailBelowWeight | zellij-utils/src/shared.rs:113-116 | all the lower components together weigh less than one unit of the first |
| Rows.TotalWidthAppend | zellij-server/src/panes/grid.rs:1635-1641 | the display width of two joined runs is the sum of their widths |
| Rows.WidthIsLengthPlusExcess | zellij-server/src/panes/grid.rs:1635-1659 | a row's width is at most its length plus its excess width, and equal when no character is zero-width |
| Rows.ExcessPrefixMonotonic | zellij-server/src/panes/grid.rs:1651-1659 | the excess width of a longer prefix is at least that of a shorter one |
| Rows.Width | zellij-server/src/panes/grid.rs:1635-1641 | the loop sums the display widths of the row's characters |
| Rows.ExcessWidthOf | zellij-server/src/panes/grid.rs:1642-1650 | the loop sums the width beyond 1 of each wide character |
| Rows.ExcessWidthUntil | zellij-server/src/panes/grid.rs:1651-1659 | the loop sums the excess width of the characters before column x |
| Rows.Truncate | zellij-server/src/panes/grid.rs:1708-1714 | the result is a prefix of the row no wider than x, and the row is unchanged when it already fits |
| Rows.InsertCharacterAt | zellij-server/src/panes/grid.rs:1679-1690 | the character lands at x; the row is first padded with empty characters up to x; the characters before and after are kept in order |
| Rows.DeleteCharacterAt | zellij-server/src/panes/grid.rs:1794-1800 | a character is removed and returned exactly when x is inside the row, and putting it back rebuilds the row |
| Rows.InsertThenDelete | zellij-server/src/panes/grid.rs:1679-1800 | deleting at x right after inserting at x returns the inserted character and the original (padded) row |
| Rows.DrainUntil | zellij-server/src/panes/grid.rs:1745-1761 | the drained characters and the rest rebuild the row; the drained part fits in x columns and is the longest prefix that does |
| Rows.FlattenAppend | zellij-server/src/panes/grid.rs:1616-1626 | the characters of two row lists joined are the characters of each in turn |
| Rows.FlattenIgnoresFlags | zellij-server/src/panes/grid.rs:1616-1626 | a row's canonical flag does not change the characters it holds |
| Rows.Joined | zellij-server/src/panes/grid.rs:1616-1626 | a joined row holds the characters of all its parts in order |
| Rows.FromRows | zellij-server/src/panes/grid.rs:1616-1626 | the loop concatenates the parts and takes the first part's canonical flag |
| Rows.CloseWrappedRow | zellij-server/src/panes/grid.rs:1801-1821 | closing the current part keeps every part full: no part could take the next part's first character |
| Rows.SplitStep | zellij-server/src/panes/grid.rs:1801-1821 | each loop step keeps the parts well wrapped |
| Rows.SplitStepClosing | zellij-server/src/panes/grid.rs:1801-1821 | when the next character overflows, the current part is closed and a new part starts |
| Rows.SplitStepExtending | zellij-server/src/panes/grid.rs:1801-1821 | when the next character fits, it extends the current part |
| Rows.WrapIsSplitting | zellij-server/src/panes/grid.rs:1801-1821 | the loop's state is well wrapped after any number of characters |
| Rows.WrapKeepsCharacters | zellij-server/src/panes/grid.rs:1801-1821 | the parts and the last partial part together hold exactly the row's characters |
| Rows.MarkingKeepsWrapping | zellij-server/src/panes/grid.rs:1801-1821 | marking the first part canonical keeps the wrapping |
| Rows.ClosedKeepsCharacters | zellij-server/src/panes/grid.rs:1801-1821 | the closed parts hold exactly the characters, and there are none exactly for an empty row |
| Rows.ClosedIsWrapped | zellij-server/src/panes/grid.rs:1801-1821 | the closed parts are well wrapped and none is canonical |
| Rows.SplitRowsKeepCharacters | zellij-server/src/panes/grid.rs:1801-1821 | splitting keeps every character in order; an empty row gives no parts |
| Rows.SplitRowsAreWrapped | zellij-server/src/panes/grid.rs:1801-1821 | every part fits the width (or is a single wide character), and only the first part keeps the row's canonical flag |
| Rows.SplitToRowsOfLength | zellij-server/src/panes/grid.rs:1801-1821 | the method's parts hold the row's characters, are well wrapped, and only the first may be canonical |
| Rows.WrapColumns | zellij-server/src/panes/grid.rs:1801-1821 | the loop computes the wrapping function |
| Rows.SplitThenJoin | zellij-server/src/panes/grid.rs:1616-1821 | joining the parts of a split row gives the row back |
| Rows.SplitPartsFit | zellij-server/src/panes/grid.rs:1801-1821 | when no character is wider than the limit, every part fits the limit |
| GridBuffers.DecimalPrefixBound | zellij-server/src/panes/grid.rs:25-42 | the value of a digit prefix never exceeds the value of the whole |
| GridBuffers.ParseNumber | zellij-server/src/panes/grid.rs:25-42 | a byte string parses exactly when it is non-empty, all digits and below 256, and then to its decimal value |
| GridBuffers.NextMultiple | zellij-server/src/panes/grid.rs:181-192 | tab stops that are multiples of the tab width are at least one tab width apart |
| GridBuffers.CreateHorizontalTabstops | zellij-server/src/panes/grid.rs:181-192 | the stops are increasing and are exactly the positive multiples of `TABSTOP_WIDTH` up to the width |
| GridBuffers.BoundedPush | zellij-server/src/panes/grid.rs:174-179 | pushing grows the scrollback by one until it holds `SCROLL_BACK` rows, never beyond, and the pushed row is last |
| GridBuffers.BoundedPushDropsOnlyFront | zellij-server/src/panes/grid.rs:174-179 | a full scrollback loses only its oldest row |
| GridBuffers.GetTopNonCanonicalRows | zellij-server/src/panes/grid.rs:44-59 | the taken rows and the rest rebuild the input; the taken rows are all wrapped rows, and the rest starts with a canonical row (only `transfer_rows_down` calls it, which is not modelled) |
| GridBuffers.WrapsStart | zellij-server/src/panes/grid.rs:61-75 | the last line's start lies within the rows, and before their end when there are any |
| GridBuffers.GetBottomCanonicalRowAndWraps | zellij-server/src/panes/grid.rs:61-75 | the rest and the taken rows rebuild the input; the taken rows are the last canonical row and the wrapped rows after it |
| GridBuffers.SplitAtLastCanonical | zellij-server/src/panes/grid.rs:61-75 | the split at the last canonical row rebuilds the rows, and its tail is empty only for no rows |
| GridBuffers.WrapsStartIsLastCanonical | zellij-server/src/panes/grid.rs:61-75 | any split point that satisfies the last-line conditions is the one the function computes |
| GridBuffers.StepUp | zellij-server/src/panes/grid.rs:128-172 | one step moves the first source row out, and the destination grows by at most one row and stays within `SCROLL_BACK` |
| GridBuffers.PushUp | zellij-server/src/panes/grid.rs:128-172 | merging a row into the destination adds at most one row and respects the scrollback limit |
| GridBuffers.CarriedColumns | zellij-server/src/panes/grid.rs:128-172 | a row that carries a wrapped line holds the wrapped rows' characters followed by its own |
| GridBuffers.CarriedIsJoined | zellij-server/src/panes/grid.rs:128-172 | carrying is joining the wrapped rows with the next row |
| GridBuffers.TransferRowsUp | zellij-server/src/panes/grid.rs:128-172 | the loop computes the transfer function |
| GridBuffers.SuffixTransitive | zellij-server/src/panes/grid.rs:174-179 | a suffix of a suffix is a suffix: losses at the front accumulate only at the front |
| GridBuffers.FlattenFront | zellij-server/src/panes/grid.rs:128-172 | the characters of a row list are its first row's followed by the rest's |
| GridBuffers.FlattenSnoc | zellij-server/src/panes/grid.rs:128-172 | appending a row appends its characters |
| GridBuffers.SuffixAppend | zellij-server/src/panes/grid.rs:174-179 | appending the same text keeps a suffix a suffix |
| GridBuffers.SuffixOfAppend | zellij-server/src/panes/grid.rs:174-179 | a text is a suffix of anything followed by it |
| GridBuffers.PushFullDropsFront | zellij-server/src/panes/grid.rs:174-179 | pushing into a full scrollback loses exactly the oldest row's characters |
| GridBuffers.PushKeepsCharacters | zellij-server/src/panes/grid.rs:174-179 | a push loses only characters at the front, and none while there is room |
| GridBuffers.StepUpSplitsCharacters | zellij-server/src/panes/grid.rs:128-172 | one step merges the next row with the wrapped rows at the end of the destination |
| GridBuffers.StepUpKeepsCharacters | zellij-server/src/panes/grid.rs:128-172 | one step loses at most the oldest scrollback characters, and none while there is room |
| GridBuffers.TransferUpTakesSourcePrefix | zellij-server/src/panes/grid.rs:128-172 | a transfer removes the first min(count, length) source rows |
| GridBuffers.TransferUpBounded | zellij-server/src/panes/grid.rs:128-172 | a transfer keeps the scrollback within `SCROLL_BACK` rows and grows it by at most count rows |
| GridBuffers.TransferUpLosesOnlyPrefix | zellij-server/src/panes/grid.rs:128-172 | across any transfer, the scrollback and viewport text together lose characters only at the front |
| GridBuffers.StepUpExtendsSuffix | zellij-server/src/panes/grid.rs:128-172 | a suffix of the text after one step is a suffix of the text before it |
| GridBuffers.TransferUpKeepsCharacters | zellij-server/src/panes/grid.rs:128-172 | when the scrollback has room, a transfer loses no character |
| GridBuffers.ScrollUp | zellij-server/src/panes/grid.rs:363-370 | scrolling up is undefined exactly where the source would pop from an empty viewport |
| GridBuffers.ScrollDown | zellij-server/src/panes/grid.rs:371-384 | scrolling down is None exactly where the source panics: `remove(0)` on an empty viewport (height 0), or `pop_back().unwrap()` on an empty scrollback when the top viewport row is a wrapped row |
| GridBuffers.ScrollUpKeepsRows | zellij-server/src/panes/grid.rs:363-370 | scrolling up keeps the viewport height and every row in the same order, and changes nothing when there is no scrollback |
| GridBuffers.ScrollDownKeepsCharacters | zellij-server/src/panes/grid.rs:371-384 | scrolling down keeps the viewport height and loses at most the oldest scrollback characters |
| GridBuffers.AllRowsAroundTop | zellij-server/src/panes/grid.rs:371-384 | the rows are the scrollback, the top viewport row and everything after it |
| GridBuffers.ScrollDownPushing | zellij-server/src/panes/grid.rs:371-384 | scrolling down past a canonical top row pushes it into the scrollback and keeps the text |
| GridBuffers.ScrollDownMerging | zellij-server/src/panes/grid.rs:371-384 | scrolling down past a wrapped top row merges it with the scrollback's last line and keeps the text |
| GridBuffers.ScrollUpThenDown | zellij-server/src/panes/grid.rs:363-384 | scrolling down undoes scrolling up when the scrollback ends on a canonical row |
| GridBuffers.ScrollDownThenUp | zellij-server/src/panes/grid.rs:363-384 | scrolling up undoes scrolling down when the top row is canonical and the scrollback has room |
| GridTabstops.NextTabstop | zellij-server/src/panes/grid.rs:256-275 | the next stop is the smallest stop right of x; there is none exactly when no stop lies right of x |
| GridTabstops.PreviousTabstop | zellij-server/src/panes/grid.rs:276-292 | the previous stop is the largest stop left of x; there is none exactly when no stop lies left of x |
| GridTabstops.TailIncreasing | zellij-server/src/panes/grid.rs:256-292 | the stops after the first are increasing and all greater than it |
| GridTabstops.InsertTabstop | zellij-server/src/panes/grid.rs:296-298 | `BTreeSet::insert` keeps the stops sorted and adds exactly the new stop |
| GridTabstops.RemoveTabstop | zellij-server/src/panes/grid.rs:299-301 | `BTreeSet::remove` keeps the stops sorted and removes exactly that stop |
| GridTabstops.PrependIncreasing | zellij-server/src/panes/grid.rs:296-298 | a smaller stop in front keeps the list increasing |
| GridTabstops.SameMembersSameList | zellij-server/src/panes/grid.rs:296-301 | two sorted stop lists with the same members are equal, so the set model is faithful |
| GridTabstops.EmptyTogether | zellij-server/src/panes/grid.rs:296-301 | lists with the same members are empty together |
| GridTabstops.ClearUndoesSet | zellij-server/src/panes/grid.rs:296-301 | clearing a stop that was just set restores the old stops |
| GridTabstops.SetIsIdempotent | zellij-server/src/panes/grid.rs:296-298 | setting the same stop twice is setting it once |
| GridTabstops.PreviousTabstopAt | zellij-server/src/panes/grid.rs:276-292 | the previous stop is the one just before the first stop not left of x |
| GridTabstops.NextThenPrevious | zellij-server/src/panes/grid.rs:256-292 | from a stop, going to the next stop and back returns to it |
| GridTabstops.DefaultNextTabstop | zellij-server/src/panes/grid.rs:181-275 | with the default stops, the next stop is the next multiple of `TABSTOP_WIDTH`, if it is within the width |
| GridTabstops.NextMultipleAfter | zellij-server/src/panes/grid.rs:181-192 | a multiple of the tab width right of x is at least the next multiple |
| GridRegions.RemoveAt | zellij-server/src/panes/grid.rs:563-576 | `Vec::remove` shortens the rows by one |
| GridRegions.InsertAt | zellij-server/src/panes/grid.rs:563-576 | `Vec::insert` lengthens the rows by one |
| GridRegions.RemoveAtShifts | zellij-server/src/panes/grid.rs:563-576 | rows before the removed row stay, and rows after it move up by one |
| GridRegions.InsertAtShifts | zellij-server/src/panes/grid.rs:563-576 | the inserted row lands at its place; rows before it stay and rows after it move down by one |
| GridRegions.SameOutsideTransitive | zellij-server/src/panes/grid.rs:563-590 | keeping the rows outside a region is preserved over several steps |
| GridRegions.RemoveInsertWithin | zellij-server/src/panes/grid.rs:563-590 | removing and inserting a row inside the region leaves every row outside it in place |
| GridRegions.RotateUpKeepsOutside | zellij-server/src/panes/grid.rs:563-576 | while the region is not a single last row, rotating it up leaves the rows outside it alone and puts a blank row at its top |
| GridRegions.RotateUpShrinksLastRowRegion | zellij-server/src/panes/grid.rs:563-576 | a one-row region on the last viewport row makes one rotation lose a row (see Findings) |
| GridRegions.RotateUpCorrectedKeepsOutside | zellij-server/src/panes/grid.rs:563-576 | with the corrected guard, every rotation keeps the rows outside the region and puts a blank row at its top |
| GridRegions.RotateDownStep | zellij-server/src/panes/grid.rs:577-590 | rotating down keeps the number of rows |
| GridRegions.RotateDown | zellij-server/src/panes/grid.rs:577-590 | the rotations are None exactly when the first step's `remove(top)` or `insert(bottom, …)` is out of bounds, and otherwise keep the number of rows |
| GridRegions.RotateDownKeepsOutside | zellij-server/src/panes/grid.rs:577-590 | with the region inside the viewport, rotating down never panics, leaves the rows outside the region alone and puts a blank row at its bottom |
| GridRegions.RotateDownPanicsOnDefaultBottom | zellij-server/src/panes/grid.rs:577-590 | with the default bottom (the screen height) and a full viewport of two rows or more, the first rotation panics |
| GridRegions.RotateDownCorrectedKeepsOutside | zellij-server/src/panes/grid.rs:577-641 | the corrected rotation keeps every row outside the region, its bottom clamped to the last row, and leaves that row blank |
| GridRegions.RotateDownCorrectedAgrees | zellij-server/src/panes/grid.rs:577-590 | inside the viewport, the corrected rotation gives the source's rows |
| GridRegions.DeleteLineStep | zellij-server/src/panes/grid.rs:876-901 | deleting a line in the region keeps the number of rows |
| GridRegions.DeleteLines | zellij-server/src/panes/grid.rs:876-901 | deleting any number of lines keeps the number of rows |
| GridRegions.DeleteLinesKeepsOutside | zellij-server/src/panes/grid.rs:876-901 | deleting lines leaves the rows outside the cursor-to-bottom range alone and fills the bottom with the pad row |
| GridRegions.AddEmptyLineStep | zellij-server/src/panes/grid.rs:902-925 | adding an empty line removes the bottom row (if it exists) and inserts one row |
| GridRegions.AddEmptyLinesKeepsOutside | zellij-server/src/panes/grid.rs:902-925 | adding empty lines leaves the rows outside the range alone and puts the pad row at the cursor line |
| GridRegions.RemoveUndoesInsert | zellij-server/src/panes/grid.rs:876-925 | removing a row just inserted at the same place restores the rows |
| GridRegions.DeleteUndoesAddEmpty | zellij-server/src/panes/grid.rs:876-925 | deleting a line right after adding an empty line at the same place restores the rows when the bottom row was blank |
| GridRegions.ScrollRegionStep | zellij-server/src/panes/grid.rs:598-641 | a line feed at the region's bottom keeps the number of rows |
| GridRegions.ScrollRegionStepKeepsOutside | zellij-server/src/panes/grid.rs:598-641 | a line feed at the region's bottom keeps the rows outside the region and opens a blank bottom row |
| GridRegions.RotateDownIsNewLineAtBottom | zellij-server/src/panes/grid.rs:577-641 | rotating the region down is the same row operation as a line feed at its bottom |
| Grids.ScrollUpByKeepsRows | zellij-server/src/panes/grid.rs:547-551 | moving the viewport up by count lines keeps its height and every row in order |
| Grids.ScrollDownByKeepsCharacters | zellij-server/src/panes/grid.rs:552-556 | moving the viewport down keeps its height and loses at most the oldest characters |
| Grids.ScrollDownTakesOneBelow | zellij-server/src/panes/grid.rs:371-384 | scrolling down takes exactly one line from below the viewport |
| Grids.ResetLeavesNothingBelow | zellij-server/src/panes/grid.rs:557-562 | resetting the viewport brings every line from below back into view |
| Grids.PaddedTo | zellij-server/src/panes/grid.rs:761-766 | a padded row keeps its characters and flag, and reaches the position with empty characters |
| Grids.LinesPaddedUntil | zellij-server/src/panes/grid.rs:767-772 | the viewport keeps its rows and gains blank rows until the position exists |
| Grids.NewCanonicalLine | zellij-server/src/panes/grid.rs:598-641 | a new line never grows the scrollback past `SCROLL_BACK` |
| Grids.NewCanonicalLines | zellij-server/src/panes/grid.rs:827-848 | many new lines never grow the scrollback past `SCROLL_BACK` |
| Grids.NewLineAtBottomShifts | zellij-server/src/panes/grid.rs:598-641 | at the bottom of the screen, a new line shifts the viewport up by one row and appends an empty canonical row |
| Grids.NewLineAtBottomStays | zellij-server/src/panes/grid.rs:598-641 | at the bottom of the screen, a new line keeps the cursor row and the viewport height |
| Grids.NewLineAtBottomKeepsText | zellij-server/src/panes/grid.rs:598-641 | a new line at the bottom loses at most the oldest scrollback characters |
| Grids.NewLineAtBottomSteps | zellij-server/src/panes/grid.rs:598-641 | a new line at the bottom is one step of moving rows into the scrollback |
| Grids.LineFeedKeepsText | zellij-server/src/panes/grid.rs:598-641 | moving the top row into the scrollback loses characters only at the front |
| Grids.FlattenEmptyRow | zellij-server/src/panes/grid.rs:598-641 | an empty row adds no characters |
| Grids.NewLinesAtBottomStay | zellij-server/src/panes/grid.rs:827-848 | any number of new lines at the bottom keep the cursor row and the viewport height |
| Grids.CursorDownStaysOnScreen | zellij-server/src/panes/grid.rs:827-848 | moving down lands on min(y + count, height - 1) and keeps the viewport height |
| Grids.CursorDownWithinScreen | zellij-server/src/panes/grid.rs:827-848 | moving down within the screen only moves the cursor |
| Grids.CursorDownPastBottom | zellij-server/src/panes/grid.rs:827-848 | moving down past the bottom leaves the cursor on the last row with a full viewport |
| Grids.ReverseIndex | zellij-server/src/panes/grid.rs:808-826 | one reverse index moves the cursor up, or at the region's top inserts a blank row and keeps the rows outside the region |
| Grids.UpWithScrollingOvershoots | zellij-server/src/panes/grid.rs:808-826 | two reverse line feeds from row 3 land on row 0 (see Findings) |
| Grids.UpWithScrollingByOne | zellij-server/src/panes/grid.rs:808-826 | moving up one line per iteration moves the cursor up exactly count lines |
| Grids.Grid.constructor | zellij-server/src/panes/grid.rs:232-255 | a new grid has one empty canonical row, no scrollback, the default tab stops, the cursor at the origin and no scroll region |
| Grids.Grid.PadCurrentLineUntil | zellij-server/src/panes/grid.rs:761-766 | only the cursor's row changes, and it is padded to the position |
| Grids.Grid.PadLinesUntil | zellij-server/src/panes/grid.rs:767-772 | only the viewport changes, and it gains blank rows until the position exists |
| Grids.Grid.AdvanceToNextTabstop | zellij-server/src/panes/grid.rs:256-275 | the cursor goes to the next tab stop, or to the last column when there is none, and the row is padded up to it |
| Grids.Grid.FindNextTabstop | zellij-server/src/panes/grid.rs:257-263 | the loop finds the first tab stop past the column, which lies past it and before every later stop, or None when every stop is at or before it |
| Grids.Grid.MoveToPreviousTabstop | zellij-server/src/panes/grid.rs:276-292 | the cursor goes to the previous tab stop, or to column 0 when there is none |
| Grids.Grid.SetHorizontalTabstop | zellij-server/src/panes/grid.rs:296-298 | the cursor column becomes a tab stop and nothing else changes |
| Grids.Grid.ClearTabstop | zellij-server/src/panes/grid.rs:299-301 | the position stops being a tab stop and nothing else changes |
| Grids.Grid.ClearAllTabstops | zellij-server/src/panes/grid.rs:302-304 | no tab stops remain and nothing else changes |
| Grids.Grid.SaveCursorPosition | zellij-server/src/panes/grid.rs:305-307 | the cursor is saved and nothing else changes |
| Grids.Grid.RestoreCursorPosition | zellij-server/src/panes/grid.rs:308-312 | the saved cursor comes back if there is one; otherwise nothing changes |
| Grids.Grid.ScrollUpOneLine | zellij-server/src/panes/grid.rs:363-370 | the buffers scroll up one line as the scrolling function says, keeping the cursor and the modes |
| Grids.Grid.ScrollDownOneLine | zellij-server/src/panes/grid.rs:371-384 | the buffers scroll down one line as the scrolling function says, keeping the cursor and the modes |
| Grids.Grid.MoveViewportUp | zellij-server/src/panes/grid.rs:547-551 | the buffers scroll up count lines |
| Grids.Grid.MoveViewportDown | zellij-server/src/panes/grid.rs:552-556 | the buffers scroll down count lines |
| Grids.Grid.ResetViewport | zellij-server/src/panes/grid.rs:557-562 | the buffers scroll down until nothing is left below a full viewport |
| Grids.Grid.CursorCoordinates | zellij-server/src/panes/grid.rs:540-546 | the cursor's coordinates are reported exactly when it is visible |
| Grids.Grid.HideCursor | zellij-server/src/panes/grid.rs:860-862 | the cursor becomes hidden and reports no coordinates |
| Grids.Grid.ShowCursor | zellij-server/src/panes/grid.rs:863-865 | the cursor becomes visible and reports its coordinates |
| Grids.Grid.MoveCursorToBeginningOfLine | zellij-server/src/panes/grid.rs:642-644 | the cursor goes to column 0 |
| Grids.Grid.MoveCursorForwardUntilEdge | zellij-server/src/panes/grid.rs:718-721 | the cursor moves right by count, stopping at the width |
| Grids.Grid.MoveCursorBack | zellij-server/src/panes/grid.rs:849-859 | the cursor moves left by count, never past column 0, starting from the last column when it is parked past the edge |
| Grids.Grid.MoveCursorUp | zellij-server/src/panes/grid.rs:794-807 | the cursor moves up by count, never above the scroll region's top when it starts inside the region |
| Grids.Grid.MoveCursorTo | zellij-server/src/panes/grid.rs:773-793 | the cursor goes to (x, y), clamped to the screen or the region, with y relative to the region's top in origin mode |
| Grids.Grid.MoveCursorToColumn | zellij-server/src/panes/grid.rs:926-929 | the cursor goes to the column, and its row is padded so that the column exists |
| Grids.Grid.MoveCursorToLine | zellij-server/src/panes/grid.rs:930-934 | the cursor goes to the line, clamped to the screen, and the line exists and is long enough |
| Grids.Grid.AddCanonicalLine | zellij-server/src/panes/grid.rs:598-641 | the page changes as the line-feed function says, the scrollback stays bounded, and only the cursor's row moves |
| Grids.Grid.MoveCursorDown | zellij-server/src/panes/grid.rs:827-848 | the page changes as the cursor-down function says |
| Grids.Grid.MoveCursorDownAddingLines | zellij-server/src/panes/grid.rs:834-847 | outside the region the cursor stops at the last line, one canonical line is added per line it would pass, and the lines are padded up to the cursor |
| Grids.Grid.MoveCursorUpWithScrolling | zellij-server/src/panes/grid.rs:808-826 | the viewport and the cursor row change as the reverse-index loop as written says |
| Grids.Grid.RotateScrollRegionUp | zellij-server/src/panes/grid.rs:563-576 | with a scroll region, its rows rotate up count times as written; without one, nothing changes |
| Grids.Grid.RotateScrollRegionDown | zellij-server/src/panes/grid.rs:577-590 | with a scroll region, its rows rotate down count times; without one, nothing changes |
| Grids.Grid.DeleteLinesInScrollRegion | zellij-server/src/panes/grid.rs:876-901 | inside the region, count lines are deleted at the cursor and pad rows enter at the bottom; outside it nothing changes |
| Grids.Grid.AddEmptyLinesInScrollRegion | zellij-server/src/panes/grid.rs:902-925 | inside the region, count pad rows are inserted at the cursor and rows leave at the bottom; outside it nothing changes |
| Grids.Grid.FillViewport | zellij-server/src/panes/grid.rs:591-597 | the viewport becomes `height` rows, each full of the given character |
| Grids.Grid.SetScrollRegion | zellij-server/src/panes/grid.rs:866-869 | the region becomes (top, bottom), with the height as the default bottom |
| Grids.Grid.ClearScrollRegion | zellij-server/src/panes/grid.rs:870-872 | no scroll region remains |
| Grids.Grid.SetScrollRegionToViewportSize | zellij-server/src/panes/grid.rs:873-875 | the region becomes the whole screen |
| Panes.IdOrder | zellij-server/src/tab.rs:67 | the derived order on pane ids is a strict total order, which the id-sorted map relies on |
| Panes.NewTerminalPane | zellij-server/src/tab.rs:231-277 | a new terminal pane has the given id and rectangle, is selectable and has no size limits |
| Panes.ChangePosAndSize | zellij-server/src/tab.rs:181-189 | a pane takes the new rectangle and keeps its id, selectability and limits |
| Panes.SplitVerticallyWithGap | zellij-server/src/tab.rs:35-47 | the two halves and the one-column gap fill the width exactly, and the first half is the same or one wider |
| Panes.SplitHorizontallyWithGap | zellij-server/src/tab.rs:49-61 | the two halves and the one-row gap fill the height exactly, and the first half is the same or one taller |
| Panes.SplitHalvesKeepMinimum | zellij-server/src/tab.rs:30-61 | a pane at least twice the minimum size plus one splits into halves of at least the minimum size |
| Panes.AdjacencyIsMutual | zellij-server/src/tab.rs:139-156 | a is directly right of b exactly when b is directly left of a, and likewise below and above |
| Panes.NotAdjacentToItself | zellij-server/src/tab.rs:145-156 | no pane is its own neighbour |
| Panes.HorizontalOverlapIsInterval | zellij-server/src/tab.rs:157-163 | two panes overlap horizontally exactly when their row intervals meet (counting a shared border) |
| Panes.VerticalOverlapIsInterval | zellij-server/src/tab.rs:168-176 | two panes overlap vertically exactly when their column intervals meet (counting a shared border) |
| Panes.GetHorizontalOverlapWith | zellij-server/src/tab.rs:164-167 | the overlap is no taller than either pane, and both panes cover every row in it |
| Panes.GetVerticalOverlapWith | zellij-server/src/tab.rs:177-180 | the overlap is no wider than either pane, and both panes cover every column in it |
| Panes.OverlapIsSymmetric | zellij-server/src/tab.rs:164-180 | the overlap of a with b equals the overlap of b with a |
| Panes.ReduceKeepsMinimum | zellij-server/src/tab.rs:200-205 | a pane can shrink by n exactly when it keeps the minimum size, and then it can shrink by less |
| Panes.IncreaseStaysWithinMaximum | zellij-server/src/tab.rs:190-199 | a pane can grow by n exactly when it stays within its maximum, if it has one, and then it can grow by less |
| Panes.Grow | zellij-server/src/tab.rs:1263-1306 | growing toward a side widens or heightens the pane by count and keeps its opposite edge |
| Panes.GrowCoversClosedPane | zellij-server/src/tab.rs:1263-1306 | a neighbour grown by the closed pane's size plus the border reaches the closed pane's far edge |
| PaneMaps.IncreasingIsDistinct | zellij-server/src/tab.rs:2108-2110 | sorted pane ids are distinct |
| PaneMaps.Ids | zellij-server/src/tab.rs:2108-2110 | the id list has one id per pane, in map order |
| PaneMaps.IdsIncreasingAreIncreasing | zellij-server/src/tab.rs:2108-2110 | the panes are sorted by id exactly when their id list is increasing |
| PaneMaps.IndexOf | zellij-server/src/tab.rs:582-588 | a map lookup finds the first pane with the id, and fails exactly when the id is absent |
| PaneMaps.IndexOfKey | zellij-server/src/tab.rs:582-588 | in the id-sorted map, each pane is found at its own place |
| PaneMaps.Lookup | zellij-server/src/tab.rs:582-588 | looking up a present id yields a pane of the map with that id |
| PaneMaps.LookupKey | zellij-server/src/tab.rs:582-588 | looking up a pane's id yields that pane |
| PaneMaps.SameMembersSameIds | zellij-server/src/tab.rs:2108-2110 | two sorted id lists with the same members are equal |
| PaneMaps.RemovePane | zellij-server/src/tab.rs:2150 | `BTreeMap::remove` keeps the map sorted and removes exactly the pane with that id |
| PaneMaps.NoPaneUnderMissingKey | zellij-server/src/tab.rs:2129-2133 | no pane carries an id that is not a key |
| PaneMaps.RemoveAtKeepsOthers | zellij-server/src/tab.rs:2150 | removing one place keeps every other pane and the order |
| PaneMaps.RemoveAtKeepsPanes | zellij-server/src/tab.rs:2150 | removing one place keeps the map sorted and holds exactly the panes with another id |
| PaneMaps.RemoveAtSorted | zellij-server/src/tab.rs:2150 | removing one place keeps the map sorted and shifts the later panes one place left |
| PaneMaps.AppendKeepsIncreasing | zellij-server/src/tab.rs:798-800 | a pane whose id follows every id of a sorted map can be appended and the map stays sorted |
| PaneMaps.PrependKeepsIncreasing | zellij-server/src/tab.rs:468-524 | a pane whose id precedes every id of a sorted map can be put in front and the map stays sorted |
| PaneMaps.InsertReplacesHead | zellij-server/src/tab.rs:468-524 | inserting the id of the first pane replaces that pane |
| PaneMaps.InsertBeforeHead | zellij-server/src/tab.rs:468-524 | inserting an id below every key puts the pane first |
| PaneMaps.InsertAfterHead | zellij-server/src/tab.rs:468-524 | inserting an id above the first key keeps the first pane and inserts into the rest |
| PaneMaps.IdsMembership | zellij-server/src/tab.rs:2108-2110 | an id is listed exactly when some pane carries it |
| PaneMaps.InsertPane | zellij-server/src/tab.rs:468-524 | `BTreeMap::insert` keeps the map sorted, adds or replaces exactly the pane with that id, and grows the map only for a new id |
| PaneMaps.SelectablePanes | zellij-server/src/tab.rs:798-800 | the selectable panes are exactly the map's selectable panes, still sorted |
| PaneMaps.SelectableIds | zellij-server/src/tab.rs:798-800 | the selectable ids are exactly the ids of selectable panes, in increasing order |
| PaneMaps.SelectableIdsAreSelectable | zellij-server/src/tab.rs:798-808 | a present id is selectable exactly when it is among the selectable ids |
| Focus.FirstIndex | zellij-server/src/tab.rs:1785-1805 | `position` finds the first place of an id |
| Focus.FirstIndexOfDistinct | zellij-server/src/tab.rs:1785-1805 | among distinct ids, each id's first place is its only place |
| Focus.NextInCycle | zellij-server/src/tab.rs:1785-1805 | the next id in the cycle is one of the ids |
| Focus.PreviousInCycle | zellij-server/src/tab.rs:1834-1861 | the previous id in the cycle is one of the ids |
| Focus.PreviousUndoesNext | zellij-server/src/tab.rs:1806-1861 | going to the previous pane after the next pane returns to the starting pane |
| Focus.NextUndoesPrevious | zellij-server/src/tab.rs:1806-1861 | going to the next pane after the previous pane returns to the starting pane |
| Focus.NextInCycleIsSuccessor | zellij-server/src/tab.rs:1785-1805 | in id order, the next pane is the smallest larger id, wrapping round to the smallest id |
| Focus.InsertByPosition | zellij-server/src/tab.rs:1806-1833 | inserting into the reading order adds exactly that pane |
| Focus.InsertKeepsSorted | zellij-server/src/tab.rs:1806-1833 | inserting keeps the panes in reading order (by row, then column) |
| Focus.InsertKeepsDistinct | zellij-server/src/tab.rs:1806-1833 | inserting a new id keeps the ids distinct |
| Focus.SortByPosition | zellij-server/src/tab.rs:1806-1833 | sorting by (y, x) is a permutation in reading order |
| Focus.FocusOrder | zellij-server/src/tab.rs:1806-1833 | the focus order lists exactly the selectable ids, each once |
| Focus.FocusOrderIsReadingOrder | zellij-server/src/tab.rs:1806-1833 | the focus order is the selectable panes sorted into reading order |
| Focus.FocusPreviousUndoesNext | zellij-server/src/tab.rs:1806-1861 | focusing the next pane lands on a selectable pane, and focusing the previous pane undoes it (and the other way round) |
| TabLayouts.ToggleFullscreen | zellij-server/src/tab.rs:658-706 | the toggle keeps the panes and the active pane, and leaving fullscreen shows every pane again |
| TabLayouts.FullscreenHidesOthers | zellij-server/src/tab.rs:658-706 | entering fullscreen hides exactly the panes other than the active one |
| TabLayouts.FullscreenTwiceRestores | zellij-server/src/tab.rs:658-706 | entering and leaving fullscreen restores the layout |
| TabLayouts.FullscreenOff | zellij-server/src/tab.rs:2135-2137 | leaving fullscreen before closing keeps the panes and the active pane, and changes nothing when not fullscreen |
| TabLayouts.NeighbourPanes | zellij-server/src/tab.rs:815-873 | the neighbours are exactly the panes directly on that side, in id order |
| TabLayouts.Neighbours | zellij-server/src/tab.rs:815-873 | the neighbour ids are exactly those of panes directly on that side, increasing, and empty exactly when there is none |
| TabLayouts.NeighbourGroup | zellij-server/src/tab.rs:815-873 | the search yields the neighbours, and None exactly when there are none |
| TabLayouts.NeighboursStep | zellij-server/src/tab.rs:815-831 | the loop's neighbour list grows by one pane exactly when that pane is adjacent |
| TabLayouts.NothingLeftOfFirstColumn | zellij-server/src/tab.rs:815-831 | a pane in column 0 has no neighbour to its left |
| TabLayouts.GroupBorders | zellij-server/src/tab.rs:1988-2003 | the border set holds every edge of every pane of the group |
| TabLayouts.KeepBetween | zellij-server/src/tab.rs:1329-1352 | the filter keeps exactly the group's panes between the closing pane's borders, in order |
| TabLayouts.AligningGroup | zellij-server/src/tab.rs:2004-2096 | every pane of an aligning group is an adjacent pane between the borders, listed in id order |
| TabLayouts.NeighboursAreKeys | zellij-server/src/tab.rs:815-873 | every neighbour id is a key of the map, and its pane is adjacent |
| TabLayouts.TryAbsorb | zellij-server/src/tab.rs:2141-2156 | a group that is offered can take the closed pane's space on that side |
| TabLayouts.FirstAbsorbing | zellij-server/src/tab.rs:2141-2204 | the chosen side is the first side in the list whose group can grow, and None means no side can |
| TabLayouts.Absorbing | zellij-server/src/tab.rs:2141-2204 | the chosen group can take the closed pane's space |
| TabLayouts.AbsorbingIsFirstQualifying | zellij-server/src/tab.rs:2141-2204 | the sides are tried in the order left, right, above, below |
| TabLayouts.GrowMembers | zellij-server/src/tab.rs:2146-2149 | the group's panes grow toward the side and the others are unchanged |
| TabLayouts.GrowStepReady | zellij-server/src/tab.rs:2146-2149 | before step j of the grow loop, the pane to grow is still at its place, unchanged, and growing it gives the next step's map |
| TabLayouts.GrownLookup | zellij-server/src/tab.rs:2146-2149 | after the loop each group member is its old pane grown by the amount |
| TabLayouts.GrowMembersStep | zellij-server/src/tab.rs:2146-2149 | each loop step keeps the growth precondition for the panes still to grow |
| TabLayouts.GroupCanShift | zellij-server/src/tab.rs:2162-2165 | neighbours on the right or below have room to move their far edge by the closed pane's size |
| TabLayouts.NextActivePane | zellij-server/src/tab.rs:809-814 | the next active pane is a selectable pane of the group, and None exactly when none is selectable |
| TabLayouts.NextActivePaneIsLast | zellij-server/src/tab.rs:809-814 | the next active pane is the last selectable one in the group |
| TabLayouts.ClosingPaneNotInGroup | zellij-server/src/tab.rs:2141-2204 | the closing pane is never its own neighbour |
| TabLayouts.AbsorbInto | zellij-server/src/tab.rs:2141-2204 | absorbing removes exactly the closed pane, keeps the map sorted and keeps the whole group |
| TabLayouts.AbsorbIntoInSteps | zellij-server/src/tab.rs:2141-2156 | absorbing is the grow loop followed by the removal of the closed pane |
| TabLayouts.AbsorbLookup | zellij-server/src/tab.rs:2146-2150 | after absorbing, each group member is its old pane grown by the closed pane's size plus the border |
| TabLayouts.AbsorbGrowsMember | zellij-server/src/tab.rs:2141-2204 | each group member grows by the closed pane's size and its far edge reaches the closed pane's far edge |
| TabLayouts.AbsorbKeepsOther | zellij-server/src/tab.rs:2141-2204 | a pane outside the group after absorbing was already in the map |
| TabLayouts.LookupAfterRemove | zellij-server/src/tab.rs:2150 | removing one id leaves every other pane findable and unchanged |
| TabLayouts.AbsorbIntoFillsGap | zellij-server/src/tab.rs:2141-2204 | the group grows by the closed pane's size plus the border and the other panes are untouched |
| TabLayouts.CloseLayoutPane | zellij-server/src/tab.rs:2134-2209 | closing a pane removes exactly that id, keeps the layout valid and leaves fullscreen |
| TabLayouts.CloseHandsSpaceToGroup | zellij-server/src/tab.rs:2134-2209 | when a group can absorb the pane, it grows, and focus moves to the group's next active pane if the closed pane had it |
| TabLayouts.CloseLeavesGap | zellij-server/src/tab.rs:2134-2209 | when no group can absorb the pane, it is only removed and fullscreen ends |
| TabLayouts.CloseMissingPane | zellij-server/src/tab.rs:2134-2138 | closing an absent id only leaves fullscreen |
| TabLayouts.CloseAll | zellij-server/src/tab.rs:2097-2107 | closing a list of ids removes exactly those ids |
| TabLayouts.CloseAllStep | zellij-server/src/tab.rs:2097-2107 | closing one more id of the list closes it in the layout left by the earlier ones |
| TabLayouts.CloseDownToMax | zellij-server/src/tab.rs:2097-2107 | closing down to the maximum keeps the layout valid |
| TabLayouts.CloseDownKeepsFirstPanes | zellij-server/src/tab.rs:2097-2107 | closing down to max m keeps exactly the first m - 1 panes, making room for the new one |
| TabLayouts.PrefixIsWhatSuffixLeaves | zellij-server/src/tab.rs:2100 | with distinct ids, removing the skipped tail leaves exactly the prefix |
| TabLayouts.SplitPane | zellij-server/src/tab.rs:468-524 | a split keeps the map sorted and adds exactly the new id |
| TabLayouts.SplitPaneSharesSpace | zellij-server/src/tab.rs:468-581 | the active pane keeps the first half, the new selectable pane takes the second half, and the two plus a gap fill the old rectangle |
| TabLayouts.SplitPaneLookups | zellij-server/src/tab.rs:468-524 | after a split the old pane holds the first half and the new terminal pane the second |
| TabLayouts.SplitPaneKeepsOthers | zellij-server/src/tab.rs:468-524 | a split keeps every other pane as it was |
| TabLayouts.Split | zellij-server/src/tab.rs:468-524 | a split keeps the layout valid and not fullscreen |
| TabLayouts.SplitRefusesSmallPane | zellij-server/src/tab.rs:488-493 | a pane smaller than twice the minimum plus one is not split and nothing changes |
| TabLayouts.SplitSharesActivePane | zellij-server/src/tab.rs:468-524 | a large enough active pane is split into halves and focus moves to the new pane |
| Tabs.Tab.constructor | zellij-server/src/tab.rs:231-277 | a new tab holds the one terminal pane at the full size, active, with no fullscreen and no sync |
| Tabs.Tab.GetActivePane | zellij-server/src/tab.rs:582-588 | the active pane is the map's pane for the active id, or None when there is none |
| Tabs.Tab.GetPaneIds | zellij-server/src/tab.rs:2108-2110 | the pane ids, in increasing order |
| Tabs.Tab.PaneIdsDirectly | zellij-server/src/tab.rs:815-873 | the loop returns the neighbour group on the given side, or None when there is no neighbour |
| Tabs.Tab.ToggleFullscreenIsActive | zellij-server/src/tab.rs:707-709 | the fullscreen flag flips and nothing else changes |
| Tabs.Tab.ToggleSyncPanesIsActive | zellij-server/src/tab.rs:718-720 | the sync flag flips and nothing else changes |
| Tabs.Tab.ToggleActivePaneFullscreen | zellij-server/src/tab.rs:658-706 | the layout changes as the fullscreen toggle says |
| Tabs.Tab.MoveFocus | zellij-server/src/tab.rs:1785-1805 | focus moves to the next selectable id, unless fullscreen or nothing is selectable |
| Tabs.Tab.FocusNextPane | zellij-server/src/tab.rs:1806-1833 | focus moves to the next pane in reading order |
| Tabs.Tab.FocusPreviousPane | zellij-server/src/tab.rs:1834-1861 | focus moves to the previous pane in reading order |
| Tabs.Tab.IncreasePane | zellij-server/src/tab.rs:1263-1306 | exactly that pane grows toward the side |
| Tabs.Tab.ClosePaneWithoutRerender | zellij-server/src/tab.rs:2134-2209 | the layout changes as closing the pane says |
| Tabs.Tab.RemoveClosedPane | zellij-server/src/tab.rs:2138-2208 | without fullscreen, the removal and the neighbours' growth produce the closed layout |
| Tabs.Tab.AbsorbClosedPane | zellij-server/src/tab.rs:2146-2153 | the group grows over the closed pane, the pane leaves the map, and a focus it held passes to the group's next active pane |
| Tabs.Tab.GrowGroup | zellij-server/src/tab.rs:2146-2149 | the loop grows exactly the group's panes |
| Tabs.Tab.ClosePane | zellij-server/src/tab.rs:2129-2133 | a present pane is closed; an absent one changes nothing |
| Tabs.Tab.CloseFocusedPane | zellij-server/src/tab.rs:2210-2217 | the active pane is closed when there is one |
| Tabs.Tab.CloseDownToMaxTerminals | zellij-server/src/tab.rs:2097-2107 | panes beyond max - 1 are closed one by one |
| Tabs.Tab.SplitActivePane | zellij-server/src/tab.rs:468-581 | the tab closes down to the maximum, leaves fullscreen, then splits the active pane |
| Tabs.Tab.SplitOpenTab | zellij-server/src/tab.rs:472-524 | outside fullscreen, the split gives the layout the split function says |
| Tabs.Tab.HorizontalSplit | zellij-server/src/tab.rs:468-524 | a horizontal split of the active pane |
| Tabs.Tab.VerticalSplit | zellij-server/src/tab.rs:525-581 | a vertical split of the active pane |
| TabEntries.FindIndex | zellij-server/src/screen.rs:314-319 | `BTreeMap::get` finds a tab with that key, and fails exactly when no tab has it |
| TabEntries.KeyIsFound | zellij-server/src/screen.rs:314-319 | every key of the tab map is found |
| TabEntries.FindIndexOfKey | zellij-server/src/screen.rs:314-319 | in the key-sorted map, each tab is found at its own place |
| TabEntries.FindPosition | zellij-server/src/screen.rs:208-214 | the loop finds the first tab at that position, and fails exactly when no tab is there |
| TabEntries.FindPositionOfTab | zellij-server/src/screen.rs:208-214 | when the positions are 0..n-1, each tab is found at its own position |
| TabEntries.NextPosition | zellij-server/src/screen.rs:206 | the next position is one more, wrapping from the last to 0 |
| TabEntries.PreviousPosition | zellij-server/src/screen.rs:222-226 | the previous position is one less, wrapping from 0 to the last |
| TabEntries.PreviousUndoesNextPosition | zellij-server/src/screen.rs:204-236 | stepping back undoes stepping forward in the tab bar |
| TabEntries.SwitchTo | zellij-server/src/screen.rs:238-249 | a tab at the position becomes active; otherwise the active tab stays |
| TabEntries.SwitchPreviousUndoesNext | zellij-server/src/screen.rs:204-236 | the next tab sits at the next position, and switching back returns to the starting tab |
| TabEntries.SwitchPreviousMoves | zellij-server/src/screen.rs:220-236 | with more than one tab, switching back always changes the active tab |
| TabEntries.GoToReachesPosition | zellij-server/src/screen.rs:238-249 | going to tab k (1-based) of n activates the tab at position k - 1 |
| TabEntries.NewIndex | zellij-server/src/screen.rs:195-201 | a new key exceeds every existing key: it is 0 for no tabs and the last key plus one otherwise |
| TabEntries.NewTabKeepsBar | zellij-server/src/screen.rs:169-190 | adding a tab keeps the keys increasing and the positions 0..n-1 |
| TabEntries.CloseEntries | zellij-server/src/screen.rs:253-283 | closing removes the tab, and each later tab moves one position back |
| TabEntries.ShiftAll | zellij-server/src/screen.rs:276-280 | the renumbering keeps every tab, in order, and moves back exactly the tabs past the closed position |
| TabEntries.ShiftKeepsIndices | zellij-server/src/screen.rs:276-280 | renumbering positions keeps the keys increasing |
| TabEntries.ClosePositionsDistinct | zellij-server/src/screen.rs:276-280 | after closing, no two tabs share a position |
| TabEntries.ClosePositionsCovered | zellij-server/src/screen.rs:276-280 | after closing, every position 0..n-2 holds a tab |
| TabEntries.CloseKeysKept | zellij-server/src/screen.rs:258 | every key other than the closed tab's survives the close |
| TabEntries.CloseKeysFromBefore | zellij-server/src/screen.rs:258 | closing introduces no key that was not there before, and drops the closed tab's key |
| TabEntries.RemoveKeepsIndicesIncreasing | zellij-server/src/screen.rs:258 | removing a tab keeps the keys increasing |
| TabEntries.CloseKeepsIndicesIncreasing | zellij-server/src/screen.rs:253-283 | closing keeps the keys increasing |
| TabEntries.CloseKeepsContiguous | zellij-server/src/screen.rs:276-280 | closing keeps the positions exactly 0..n-2 |
| TabEntries.CloseLosesOnlyItsKey | zellij-server/src/screen.rs:253-283 | closing removes exactly the closed tab's key |
| TabEntries.CloseUndoesNewTab | zellij-server/src/screen.rs:169-283 | closing a tab just added restores the tab bar |
| TabEntries.CloseHandsFocusToPrevious | zellij-server/src/screen.rs:253-258 | with several tabs, closing the active tab activates the previous tab, which survives the removal |
| TabEntries.EditName | zellij-server/src/screen.rs:371-387 | input 0 clears the name; DEL or backspace drops the last character; any other input is appended |
| TabEntries.BackspaceUndoesTyping | zellij-server/src/screen.rs:371-387 | typing a character and then deleting it restores the name |
| Screens.EntriesOf | zellij-server/src/screen.rs:126-142 | the tab bar lists each tab's key and position, in map order |
| Screens.Screen.constructor | zellij-server/src/screen.rs:146-165 | a new screen has no tabs and no active tab |
| Screens.Screen.GetNewTabIndex | zellij-server/src/screen.rs:195-201 | the screen's new key is the tab bar's new key |
| Screens.Screen.GetActiveTab | zellij-server/src/screen.rs:314-319 | the active tab is the one under the active key |
| Screens.Screen.FindTab | zellij-server/src/screen.rs:314-319 | the backward loop finds the tab with that key |
| Screens.Screen.FindTabAtPosition | zellij-server/src/screen.rs:208-214 | the loop finds the first tab at that position |
| Screens.Screen.NewTab | zellij-server/src/screen.rs:169-190 | a fresh tab with the new key is added at the last position and becomes active; the positions stay 0..n-1 |
| Screens.Screen.SwitchTabNext | zellij-server/src/screen.rs:204-217 | the tab at the next position becomes active |
| Screens.Screen.SwitchTabPrev | zellij-server/src/screen.rs:220-236 | the tab at the previous position becomes active |
| Screens.Screen.GoToTab | zellij-server/src/screen.rs:238-249 | the tab at position k - 1, if any, becomes active |
| Screens.Screen.CloseTab | zellij-server/src/screen.rs:253-283 | the active tab is removed and its panes returned; later tabs move back one position; the previous tab becomes active, or none when no tab is left |
| Screens.Screen.RemoveTab | zellij-server/src/screen.rs:258-282 | the tab with the key is removed and the later tabs are renumbered |
| Screens.Screen.ShiftTabsAfter | zellij-server/src/screen.rs:276-280 | each tab after the closed position moves one position back |
| Screens.Screen.DropTabAt | zellij-server/src/screen.rs:258-282 | the tab at place k leaves the map, the bar becomes the closed bar, and the active key is cleared exactly when no tab is left |
| Screens.Screen.RenumberAfterClose | zellij-server/src/screen.rs:267-281 | with no tab left the active key is cleared; otherwise every later tab moves one position back |
| Screens.EntriesAfterRemove | zellij-server/src/screen.rs:258 | removing a tab from the map removes its entry from the tab bar at the same place |
| Screens.Screen.UpdateActiveTabName | zellij-server/src/screen.rs:371-387 | the active tab's name is edited as the naming rule says, and nothing else changes |
| Screens.Screen.ChangeMode | zellij-server/src/screen.rs:388-394 | the screen and every tab take the new mode, and the colours its palette |
| Screens.Screen.ToggleActiveSyncTab | zellij-server/src/screen.rs:655-661 | the active tab's sync flag flips, and nothing else changes |

## Left out

- Terminal emulation: the `Perform` implementation of grid.rs (the escape-sequence parser) is not modelled; the grid operations it calls are.
- Grid.change_size, transfer_rows_down and as_character_lines: resizing re-wraps every line against a new width and was not modelled.
- Grid character output: add_character, add_character_at_cursor_position, insert_character_at_cursor_position, the replace_*/clear_*/erase_* functions, add_newline, reset_terminal_state, the charset, the cursor shape and mark_for_rerender are not modelled; the row primitives they use (insert, delete, truncate, drain) are.
- Row.add_character_at, replace_character_at, replace_and_pad_*, position_accounting_for_widechars, append and replace_beginning_with are not modelled.
- GridBuffers.TransferRowsUp: models only `max_dst_width` None, which is what every caller in grid.rs passes; the re-wrap branch is never reached from the grid.
- Shared.VersionNumber: integers are unbounded, so the usize overflow of `pow` and of the multiplication for huge components is not modelled.
- Shared.ParseUsize: follows `usize::from_str`, including its optional leading '+'.
- Shared.AdjustToSize: `ansi_len` (stripping ANSI escapes with the strip-ansi-escapes crate) is a parameter of the model, not an implementation.
- set_permissions, _hex_to_rgb, default_palette and _detect_theme in shared.rs: file permissions, colour constants and floating-point theme detection are outside the model.
- terminal_pane.rs is not part of this model: its increase/reduce primitives appear only through their geometric effect (Panes.Grow), and TerminalPane::new as Panes.NewTerminalPane.
- Tab: new_pane, apply_layout, the resize_* family, move_focus_left/right/up/down, set_pane_selectable, write_to_*, scroll delegation to panes, render and the OS API are not modelled.
- Tabs.Tab.ToggleActivePaneFullscreen: the size override of the fullscreen pane (override_size_and_position) and the resizing of the other panes are not modelled, only which panes are shown.
- Grids.Grid.RotateScrollRegionDown: requires that no step panics, that is `GridRegions.RotateDown` is Some; `remove(top)` and `insert(bottom, …)` out of bounds panic (grid.rs:581-584), as the Findings table records.
- Grids.Grid.MoveCursorUpWithScrolling: requires the loop's `insert` at the region top to stay within the viewport (grid.rs:819) and a height above 0 (`height - 1`); the source panics otherwise.
- Grids.Grid.DeleteLinesInScrollRegion: requires the cursor's row to exist when a line is deleted, because `remove(cursor.y)` panics otherwise (grid.rs:890).
- Grids.Grid.AddEmptyLinesInScrollRegion: requires the cursor's row to be at most the viewport length after the removal, because `insert(cursor.y, …)` panics otherwise (grid.rs:920-921).
- Grids.Grid.PadCurrentLineUntil: requires the cursor's row to exist, because `get_mut(cursor.y).unwrap()` panics otherwise (grid.rs:761).
- Grids.Grid.AdvanceToNextTabstop: requires the cursor's row to exist, for the `get_mut(cursor.y).unwrap()` of the padding (grid.rs:761).
- Grids.Grid.MoveCursorToColumn: requires the cursor's row to exist, for the `get_mut(cursor.y).unwrap()` of the padding (grid.rs:761).
- Grids.Grid.ScrollUpOneLine: requires `GridBuffers.ScrollUp` to be Some; the source panics popping an empty viewport at height 0.
- Grids.Grid.ScrollDownOneLine: requires `GridBuffers.ScrollDown` to be Some; the source panics on `remove(0)` of an empty viewport or `lines_above.pop_back().unwrap()` of an empty scrollback (grid.rs:377).
- Grids.Grid.MoveViewportUp: requires every step's `GridBuffers.ScrollUp` to be Some, for the same panic.
- Grids.Grid.MoveViewportDown: requires every step's `GridBuffers.ScrollDown` to be Some, for the same panics.
- Grids.Grid.ResetViewport: requires every step's `GridBuffers.ScrollDown` to be Some, for the same panics.
- Grids.Grid.MoveCursorTo: requires a width above 0, and a height above 0 without a region, because `width - 1` and `height - 1` underflow.
- Grids.Grid.MoveCursorToLine: requires a height above 0, because `height - 1` underflows.
- Grids.Grid.MoveCursorBack: requires a width above 0 when the cursor is parked at the width, because `width - 1` underflows.
- Grids.Grid.AddCanonicalLine: requires a height above 0 outside the region's bottom, because `height - 1` underflows.
- Grids.Grid.MoveCursorDown: requires a height above 0 outside the region, because `height - 1` underflows.
- Grids.Grid.MoveCursorDownAddingLines: requires a height above 0, because `height - 1` underflows.
- Grids.Grid.SetScrollRegionToViewportSize: requires a height above 0, because `height - 1` underflows.
- Tabs.Tab.MoveFocus: requires (CanCycleFocus) that with selectable panes and no fullscreen the active pane is selectable, because `get_active_pane_id().unwrap()` and the position lookup panic otherwise (tab.rs:1792).
- Tabs.Tab.FocusNextPane: requires CanCycleFocus, for the same unwraps (tab.rs:1813).
- Tabs.Tab.FocusPreviousPane: requires CanCycleFocus, for the same unwraps (tab.rs:1841).
- Tabs.Tab.ToggleActivePaneFullscreen: requires (CanToggleFullscreen) that the active pane exists when entering fullscreen with other panes, because `get_mut(&active_pane_id).unwrap()` panics otherwise.
- Tabs.Tab.IncreasePane: requires the pane to exist, because `get_mut(id).unwrap()` panics otherwise, and, for a pane right of or below the closed one, a position of at least the amount, because `increase_width_left` and `increase_height_up` move the position back and the usize would underflow.
- Tabs.Tab.SplitActivePane: requires (CanSplitActive) that a tab with panes has its active pane among them after closing down, because `get_active_pane_id().unwrap()` and `get_mut(..).unwrap()` panic otherwise (tab.rs:486-487, 543-544).
- Tabs.Tab.HorizontalSplit: requires CanSplitActive, for the same unwraps (tab.rs:486-487).
- Tabs.Tab.VerticalSplit: requires CanSplitActive, for the same unwraps (tab.rs:543-544).
- Screens.Screen.SwitchTabNext: requires an active tab, because `get_active_tab().unwrap()` panics otherwise (screen.rs:205).
- Screens.Screen.SwitchTabPrev: requires an active tab, because `get_active_tab().unwrap()` panics otherwise (screen.rs:221).
- Screens.Screen.GoToTab: also requires an active tab, because `get_active_tab().unwrap()` panics otherwise (screen.rs:240).
- Screens.Screen.CloseTab: requires an active tab, because `active_tab_index.unwrap()` and `remove(..).unwrap()` panic otherwise (screen.rs:254, 258).
- Screens.Screen.UpdateActiveTabName: requires an active tab, because `get_active_tab_mut().unwrap()` panics otherwise (screen.rs:373).
- Screens.Screen.ToggleActiveSyncTab: requires an active tab, because `get_active_tab_mut().unwrap()` panics otherwise (screen.rs:658).
- Tabs.Tab.CloseDownToMaxTerminals: requires a maximum other than 0, because `max_panes - 1` underflows and panics for 0.
- Screens.Screen.GoToTab: requires a tab number of at least 1, because `tab_index -= 1` underflows and panics for 0.
- Screen: render (which closes the active tab when it has no active pane), update_tabs, set_force_render, resize_to_screen, apply_layout and screen_thread_main's message loop are not modelled.
- Screens.Screen.CloseTab: the pty message is modelled as the returned pane list, and the render request to the server (gated by the session state) is left out.
- Screens.Screen.UpdateActiveTabName: the input is already a string; the UTF-8 decoding of the raw bytes is left out.
- Messages on the thread bus, the PTY, and process exit are I/O and are left out everywhere.

## Findings

| source | as written | input that shows it | evidently intended | confidence | as-written member | corrected member |
|---|---|---|---|---|---|---|
| zellij-utils/src/shared.rs:32-35 | `String::truncate(columns)` cuts at a byte count but the width test counts characters | the line "éé" with `columns` 1: two characters exceed one column, and byte 1 falls inside "é", so `truncate` panics | cut the line to `columns` characters | not executed | Shared.AdjustToSizePanicsOnMultiByteLine | Shared.AdjustByCharsFits |
| zellij-server/src/panes/grid.rs:563-576 | `rotate_scroll_region_up` inserts the blank row only when `top < len` after the removal | a one-row scroll region on the last viewport row: the row is removed and nothing is inserted, so the viewport shrinks by one row | insert whenever `top <= len`, keeping the viewport height | not executed | GridRegions.RotateUpShrinksLastRowRegion | GridRegions.RotateUpCorrectedKeepsOutside |
| zellij-server/src/panes/grid.rs:577-590 | `rotate_scroll_region_down` removes the region's top row and then inserts at the region's bottom, with no check against the viewport's length | a full viewport of 24 rows, `ESC[1;0r` (which sets the bottom to the height, 24) and then `ESC[S`: after `remove(0)` the vector has 23 rows and `insert(24, …)` panics; a top at or past the end (`ESC[30;40r`) makes `remove(top)` panic | leave a region that starts past the viewport alone, and put the blank row at the end when the bottom lies past it, as `add_canonical_line`'s region branch does | not executed | GridRegions.RotateDownPanicsOnDefaultBottom | GridRegions.RotateDownCorrectedKeepsOutside |
| zellij-server/src/panes/grid.rs:808-826 | the loop runs `count` times and calls `move_cursor_up(count)` each time | count 2 from row 3 with the region top at 0: the cursor ends on row 0, three rows up instead of two | move up one line per iteration | not executed | Grids.UpWithScrollingOvershoots | Grids.UpWithScrollingByOne |
