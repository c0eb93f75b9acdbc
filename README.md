# Themed table grid engine

A model of the in-memory state machine behind the `Table` widget of
`themed_table.py`. That widget is a Tk frame that draws a grid of `Text`
widgets. Each widget is reduced here to the string it holds. What remains
is a grid engine with these parts:

- **Layout.** The table has `rows` and `cols`. It has one cell per coordinate
  that is not a merge member (`cells`). `merged_cells` maps a merge origin to
  its `(span_rows, span_cols)`. `create_grid` rebuilds the cells from these,
  all of them empty.
- **Point access.** `get_cell` raises `IndexError` out of bounds and
  redirects a merge member to its origin. `set_cell` resolves its targets
  and writes them, re-evaluating formula cells. `get_values` and
  `set_values` work on the whole grid as a list of rows.
- **Structural edits.** `merge_cells`, `unmerge_cells` and `split_cell`
  change the spans. `insert_row`, `insert_column`, `delete_row` and
  `delete_column` re-key the merge origins along the sorted cell keys.
  `move_row` and `move_column` swap two lines. `refresh_grid` keeps the text
  and the selection across a rebuild.
- **Selection.** `selected_cells` is governed by a single or multiple
  selection mode. `select_cell`, `deselect_cell`, `clear_selection` and
  `select_range` are the later definitions in the class (lines 954-986), the
  ones Python keeps. `update_selection` redirects a member to its origin and
  makes it the only selected cell.
- **Snapshot undo and redo.** `save_state` pushes onto an `undo_stack`
  bounded at 100 entries. `undo` and `redo` move snapshots between the two
  stacks through `_restore_state`.
- **Formulas.** This covers the A1 reference table, `_parse_range`,
  `_get_cell_value`, and the SUM and AVG branches of `_calculate_formula`.
  It also covers the evaluation cascade `process_cell_edit` →
  `_evaluate_cell` → `_update_dependencies`, and `recalculate_all`.

## Layout of the model

- `dict.dfy` (`Dict`): a Python `dict` as an insertion-ordered list of
  entries. `merged_cells` and `formulas` are iterated in that order, and the
  outcome depends on it.
- `geometry.dfy` (`Geometry`): coordinates, `is_merged_cell`,
  `get_merged_span`, the member-to-origin redirection, the keys
  `create_grid` produces, and Python's `sorted()` on coordinates.
- `shift.dfy` (`Shift`): the insert, delete and swap passes over
  `merged_cells`, exactly as the in-place pop/re-insert loops perform them.
  Corrected passes are proved next to them.
- `edits.dfy` (`Edits`): the merge rectangle, the split span, the least
  selected line, the row-height bookkeeping, and the re-keying loops written
  as methods proved against the `Shift` passes.
- `selection.dfy` (`Selection`): select, select-range, update-selection and
  re-selection as functions of the selection they start from.
- `references.dfy` (`References`): A1 references and the reference table.
- `formula.dfy` (`Formula`): the value model, the text operations the
  evaluator uses, range parsing, the SUM/AVG aggregation, and the
  evaluation cascade with its frame lemmas.
- `undo.dfy` (`Undo`): snapshots, the bounded push, and how content is put
  back.
- `table.dfy` (`Table`): the class `Table.Table`. Its fields are updated in
  place by methods that follow the source's statements, and each method is
  proved against the functions of the modules above.

The class invariant `Valid()` has these parts:

- `merged_cells` and `formulas` never hold a key twice;
- every snapshot's merge dictionary is duplicate-free too;
- the two stacks together never hold more than 100 snapshots. `redo` pushes
  onto `undo_stack` without checking the bound, but the undo stack still
  never grows past 100;
- the set iteration order `order` lists every set exactly once.

## Model

| member | source | states |
|---|---|---|
| Geometry.IsMergedCell | themed_table.py:606-611 | true exactly when some stored block covers the coordinate and the coordinate is not that block's origin |
| Geometry.GetMergedSpan | themed_table.py:613-615 | the stored span of an origin, (1, 1) for any other coordinate |
| Geometry.FirstCovering | themed_table.py:847-850 | the index of the first block in insertion order that covers the coordinate, or none when no block does |
| Geometry.Redirect | themed_table.py:846-850 | a non-member stays put; a member goes to the origin of a block that covers it |
| Geometry.GridKeys | themed_table.py:390-393 | the coordinates that get a cell are exactly the in-bounds ones that are not merge members |
| Geometry.SortedCoords | themed_table.py:1129 | `sorted()` of the cell keys: strictly ordered by (row, col), same elements, same size |
| Geometry.SortedUnique | themed_table.py:1129 | two strictly sorted listings of the same coordinates are equal, so the sorted order is unique |
| Geometry.RangeCoordsMembers | themed_table.py:984-986 | the nested range loops visit exactly the coordinates of the rectangle |
| Geometry.RangeCoordsSorted | themed_table.py:984-986 | the nested range loops visit the rectangle in row-major order, strictly increasing as `sorted()` orders coordinates |
| Geometry.RangeCoordsSnoc | themed_table.py:984-986 | the rectangle with one more row is the old one followed by that row |
| Dict.Set | themed_table.py:631 | assigning a key: it maps to the value, the other keys keep theirs, an existing key keeps its position and a new one is appended |
| Dict.Remove | themed_table.py:670 | `del`: the key is gone and every other entry keeps its value |
| Dict.Move | themed_table.py:1134-1135 | `d[to] = d.pop(from)`: `to` gets `from`'s value, `from` is gone, the others are unchanged |
| Dict.GetOr | themed_table.py:1845 | `dict.get(key, default)` |
| Dict.WithoutKeys | themed_table.py:625-628 | dropping a set of keys leaves exactly the other keys |
| Edits.Block | themed_table.py:625-626 | the rectangle a merge clears is exactly the coordinates the block covers |
| Edits.SplitSpan | themed_table.py:1432-1439 | each requested axis whose span exceeds 1 drops to 1; the other axis is unchanged |
| Edits.SplitSpanShrinks | themed_table.py:1432-1443 | a split never grows a span, and changes it exactly when a requested axis spans more than one line |
| Edits.LinesOf | themed_table.py:1165 | the set of selected rows (or columns): every selected line is in it and nothing else |
| Edits.Smallest | themed_table.py:1122 | `min` over the selected lines: a member no larger than any other |
| Edits.Largest | themed_table.py:1193 | the first line `sorted(..., reverse=True)` yields: a member no smaller than any other |
| Edits.Descending | themed_table.py:1193 | `sorted(..., reverse=True)`: the same lines in strictly decreasing order |
| Edits.DeleteHeightsFromTop | themed_table.py:1193-1194 | deleting heights from the bottom up fails exactly when the largest line is outside the list |
| Edits.DropHeights | themed_table.py:1193-1194 | the height-deletion loop computes `DeleteHeights`: the remaining count, or the IndexError |
| Edits.ShiftForInsert | themed_table.py:1129-1137 | the insert loop leaves `merged_cells` equal to the insert pass over the sorted keys |
| Edits.ShiftForDelete | themed_table.py:1171-1182 | the delete loop leaves `merged_cells` equal to the delete pass over the sorted keys |
| Edits.DeleteAt | themed_table.py:1172-1182 | one iteration of the delete loop keeps its invariant: the seen deleted lines and the rest of the pass agree |
| Edits.SwapAt | themed_table.py:1308-1321 | one position of a move swaps the two texts and moves at most one origin to the other line |
| Edits.SwapLoop | themed_table.py:1307-1321 | the swap loop computes the swap pass over every position of the line |
| Edits.LineCoords | themed_table.py:1325-1326 | the coordinates of the target line, in loop order |
| Shift.InsertPassPreserves | themed_table.py:1129-1137 | the insert loop keeps `merged_cells` duplicate-free, invents no span and never adds an origin |
| Shift.InsertPassWithoutCascade | themed_table.py:1129-1137 | when no moved origin lands on a key still to be visited, every visited origin at or past the insert line moves one line on, keeping its span |
| Shift.InsertCascadeExample | themed_table.py:1133-1135 | a 1x2 block at row 1 with a row inserted at 1 ends at row 3 as written, but at row 2 under the corrected shift |
| Shift.ShiftedInsert | themed_table.py:1129-1137 | the corrected insert: every origin at or past the insert line moves by one, in place in the dictionary |
| Shift.ShiftedInsertCorrect | themed_table.py:1118-1140 | the corrected insert keeps the dictionary duplicate-free, its keys are the shifted origins, and each keeps its span |
| Shift.DeletePassPreserves | themed_table.py:1171-1182 | the delete loop keeps `merged_cells` duplicate-free, invents no span and never adds an origin |
| Shift.DeleteDestAt | themed_table.py:1171-1182 | the delete loop sends a key on a surviving line to its target and leaves a key on a deleted line where it is |
| Shift.DeletePassWithoutCollision | themed_table.py:1171-1182 | when no two origins are sent to the same coordinate, the delete loop leaves exactly the origins of surviving lines at their targets and every other origin in place, each with its span |
| Shift.DeleteRowTarget | themed_table.py:1176 | a surviving key in row r goes to r minus the deleted rows above it that hold some key |
| Shift.DeleteRowRemap | themed_table.py:1176 | when every deleted row above holds a key, a surviving row r goes to r minus the number of deleted rows above it |
| Shift.DeleteColTarget | themed_table.py:1262 | a surviving key in column c goes to c minus the deleted columns left of it seen so far in row-major order |
| Shift.SwapPassContents | themed_table.py:1307-1315 | after the swap loop each cell holds the text of its counterpart on the other line when both lines have a cell there, and its own text otherwise |
| Shift.SwapPassOrigins | themed_table.py:1317-1321 | when no position holds an origin on both lines, every origin at a swapped position moves to the other line with its span |
| Shift.SwapLosesBlockExample | themed_table.py:1318-1321 | two 1x2 blocks in rows 0 and 1 swapped: as written one block is lost, the corrected swap keeps both |
| Shift.SwappedOrigins | themed_table.py:1317-1321 | the corrected swap: every origin at a swapped position is re-keyed to the other line in place |
| Shift.SwappedOriginsCorrect | themed_table.py:1306-1321 | the corrected swap keeps the dictionary duplicate-free, its keys are the swapped origins, and each keeps its span |
| Shift.ExampleKeys | themed_table.py:1129 | the sorted cell keys of a 3x2 grid with a 1x2 block at row 1 |
| Selection.ListingExists | themed_table.py:1344 | every selection has a listing (the sorted one), so `list(selected_cells)` is modelled by a choice among listings |
| Selection.SelectEachMultiple | themed_table.py:960-972 | in multiple mode, selecting a sequence of coordinates adds exactly the in-bounds ones that have a cell |
| Selection.SelectEachSingle | themed_table.py:960-972 | in single mode, selecting a sequence leaves exactly the last in-bounds coordinate selected when it has a cell, nothing when it has none, and the selection untouched when no coordinate is in bounds |
| Selection.SelectRangeMultiple | themed_table.py:981-986 | in multiple mode, `select_range` selects exactly the in-bounds cells of the rectangle between the two corners, in either order |
| Selection.SelectRangeSingle | themed_table.py:981-986 | in single mode, `select_range` selects exactly the rectangle's bottom-right in-bounds corner when it has a cell, and nothing when it has none or the rectangle misses the grid |
| Selection.UpdateSelection | themed_table.py:279-297 | the redirected coordinate becomes the only selected cell when it is in bounds; otherwise the selection stays |
| Selection.Reselected | themed_table.py:1353-1357 | re-selection after a rebuild keeps only listed coordinates that still have an in-bounds cell: all of them in multiple mode; in single mode exactly the last such coordinate of the listing, or none |
| Selection.ReselectStep | themed_table.py:1355-1357 | one iteration of the re-selection loop selects the listed coordinate if it has a cell, and skips it otherwise |
| References.ColumnLetter | themed_table.py:1736 | `chr(65 + col)` |
| References.DigitsValueOfNatToString | themed_table.py:1737 | the decimal text of a row number reads back as that number |
| References.RefShape | themed_table.py:1737 | a reference is the column letter followed by the decimal 1-based row number |
| References.RefInjective | themed_table.py:1736-1737 | two coordinates with the same reference are the same coordinate |
| References.GetCellReference | themed_table.py:1925-1929 | the A1 reference for an in-bounds coordinate, and "" exactly when out of bounds |
| References.BuildReferences | themed_table.py:1731-1737 | the row-major loop maps every reference of the grid, and only those, back to its coordinate |
| References.FillRow | themed_table.py:1735-1737 | the inner loop adds exactly the references of one row, each mapped back to its coordinate |
| References.ReferenceRoundTrip | themed_table.py:1731-1737 | for an in-bounds coordinate, the reference table maps `get_cell_reference(row, col)` back to (row, col) |
| Formula.Add | themed_table.py:1784 | Python `+` on numbers: the exact sum, an int unless a float is involved |
| Formula.PySumIsTotal | themed_table.py:1784 | `sum(values)` is the total of the values, and an int exactly when none is a float |
| Formula.StripLeftSuffix | themed_table.py:1772 | `lstrip()` leaves a suffix that starts with no white space |
| Formula.StripRightPrefix | themed_table.py:1772 | `rstrip()` leaves a prefix that ends with no white space |
| Formula.UpperChars | themed_table.py:1772 | the ASCII upper-casing that stands for `upper()` maps each character on its own and keeps the length |
| Formula.Split | themed_table.py:1756 | `split(':')` gives one piece exactly when there is no separator |
| Formula.SplitFirst | themed_table.py:1756 | the text before the first separator is the first piece, and the rest splits on its own |
| Formula.ParseRange | themed_table.py:1753-1763 | a single reference gives its coordinate; a range gives exactly the rectangle between its corners; an unknown corner reads as (0, 0); more than one ':' is the unpacking error |
| Formula.TextValue | themed_table.py:1746-1750 | empty text is 0, text that `float()` accepts is that float, any other text is returned unchanged |
| Formula.GetCellValue | themed_table.py:1739-1751 | an unknown reference is 0; a computed value wins; otherwise the cell's text value; no cell is 0 |
| Formula.NumbersInMembers | themed_table.py:1779-1783 | the values SUM and AVG aggregate are exactly the numeric values of the range's cells |
| Formula.EmptyAggregates | themed_table.py:1784-1796 | with no numeric value in the range, SUM and AVG are both 0, never a division |
| Formula.Aggregates | themed_table.py:1784-1796 | SUM is the total of the numeric values; AVG is that total over their count |
| Formula.CalculateFormula | themed_table.py:1767-1772 | a formula is evaluated as its text after '=' stripped and upper-cased |
| Formula.Calculate | themed_table.py:1767-1768 | text that does not start with '=' is its own value |
| Formula.ExpressionSum | themed_table.py:1775-1784 | `SUM(range)` evaluates to the sum over the parsed range |
| Formula.ExpressionAvg | themed_table.py:1787-1796 | `AVG(range)` evaluates to the average over the parsed range |
| Formula.ExampleSum | themed_table.py:1775-1784 | with A1 = "2", A2 = "x" and A3 empty, `=SUM(A1:A3)` is 2.0 |
| Formula.ExampleAvg | themed_table.py:1787-1796 | for the same cells `=AVG(A1:A3)` is 1.0: the empty cell counts as 0 and the text is skipped |
| Formula.EvalCell | themed_table.py:1842-1843 | outside spreadsheet mode evaluation changes nothing |
| Formula.EvalCellKeeps | themed_table.py:1840-1851 | evaluation keeps the cell keys, changes only formula cells and their computed values, keeps displayed values equal to `str()` of computed ones, and a KeyError names a formula cell without a widget |
| Formula.UpdateDepsKeeps | themed_table.py:1725-1729 | the dependency update keeps the same frame |
| Formula.RecalcAllKeeps | themed_table.py:1920-1923 | recalculating every formula keeps the same frame |
| Formula.RecalculateAll | themed_table.py:1920-1923 | `recalculate_all` keeps the frame of every evaluation |
| Formula.NoDependentsNoUpdate | themed_table.py:1725-1729 | when no formula mentions the changed cell's reference, the dependency update changes nothing |
| Formula.EvaluateIsolated | themed_table.py:1845-1851 | a formula cell no formula refers to gets its computed value stored and `str()` of it displayed, and nothing else changes |
| Formula.EvalCellNoWidget | themed_table.py:1849 | evaluating a formula cell that has no widget raises KeyError for that cell |
| Formula.SelfReferenceFails | themed_table.py:1840-1851 | a formula that mentions its own reference never finishes normally: it raises, at the latest when the depth runs out |
| Formula.ProcessEdit | themed_table.py:1826-1838 | an edit without a widget raises KeyError; a '=' text in spreadsheet mode becomes the cell's formula; any other text removes the formula and the computed value; other formulas and the cell keys are kept |
| Formula.ProcessEditText | themed_table.py:1833-1838 | a plain-text edit drops the cell's formula and computed value, then runs the dependency update |
| Formula.EditFormulaShowsValue | themed_table.py:1830-1832 | entering a formula that nothing depends on and that does not mention itself shows and stores its computed value |
| Formula.SubstringDependency | themed_table.py:1728 | "A1" occurs in "=A10+1", so editing A1 re-evaluates a formula that only reads A10 |
| Formula.SubstringSelfReference | themed_table.py:1728 | a cell A1 holding "=A10+1" never finishes evaluating without an exception, because the substring test finds "A1" in its own formula |
| Formula.TokenReferenceExact | themed_table.py:1728 | under the whole-token test, one cell's reference occurs in another's exactly when they are the same cell |
| Formula.TokenDependency | themed_table.py:1728 | under the whole-token test, "=A10+1" depends on A10 and not on A1 |
| Undo.Push | themed_table.py:1514-1524 | the new snapshot is on top; a full stack drops its oldest entry first, so the bound of 100 is kept |
| Undo.PushAllSize | themed_table.py:1514-1524 | after a run of pushes the stack holds the old and new entries up to the bound of 100, with the last pushed on top |
| Undo.PushKeepsRecent | themed_table.py:1514-1524 | every entry except the evicted oldest one survives a push |
| Undo.RestoreContent | themed_table.py:1541-1544 | only keys the table currently has are restored; the others keep their text |
| Undo.RestoreContentSameKeys | themed_table.py:1541-1544 | when the current and saved keys agree, restoring gives back the saved contents |
| Undo.RefreshKeepsContent | themed_table.py:1342-1351 | refreshing a grid whose keys are those of its layout keeps every cell's text |
| Undo.RestoreLosesDeletedRow | themed_table.py:1536-1551 | undoing a row deletion restores the dimensions but not the deleted row's text, since the rebuild never runs; the rebuilt restore gives it back |
| Undo.RestoreRebuilt | themed_table.py:1549-1551 | the intended restore rebuilds the grid of the saved layout |
| Undo.RestoreRebuiltRoundTrip | themed_table.py:1534-1551 | the rebuilt restore gives back exactly the saved contents |
| Table.CellInfo | themed_table.py:852-869 | `get_cell`'s dictionary: the text ("" without a cell), the merge flag and span for an origin that has a cell, and the selection flag |
| Table.WriteTargets | themed_table.py:898-912 | a member's write goes to its origin; with `expand_merged` on an origin, to the cells of its block; otherwise to the coordinate itself |
| Table.WriteAll | themed_table.py:914-926 | the write loop keeps the cell keys and can raise only in spreadsheet mode |
| Table.WriteAllPlain | themed_table.py:914-926 | with no formula target the loop only writes the value into the targets that have a cell |
| Table.ReadAfterWrite | themed_table.py:893-927 | after a plain write, reading the redirected cell gives the written value and every other cell is unchanged |
| Table.ValuesOf | themed_table.py:785-798 | `get_values`: `rows` lists of `cols` texts, "" where there is no cell |
| Table.Populated | themed_table.py:805-812 | `set_values` keeps the cell keys |
| Table.ValuesRoundTrip | themed_table.py:785-812 | after `set_values`, `get_values` returns the data's text wherever the data and a cell exist, and the old text elsewhere |
| Table.InsertAt | themed_table.py:1122-1125 | the least selected line, plus one for "below" / "right" |
| Table.ShiftedSelectionExact | themed_table.py:1147-1151 | a coordinate is selected after an insert exactly when its pre-insert position was, and the selection keeps its size |
| Table.Table.constructor | themed_table.py:13-89 | an empty grid of the given size, no merges, no selection, single mode, empty histories and formulas, and the reference table in spreadsheet mode |
| Table.Table.ResizeGrid | themed_table.py:1615-1668 | a zero size keeps the old value; the grid is rebuilt empty for the new size |
| Table.Table.CreateGrid | themed_table.py:376-442 | the cells are exactly the non-member in-bounds coordinates, all empty, one height per row |
| Table.Table.SetSelectionMode | themed_table.py:947-952 | "single" and "multiple" set the mode; anything else raises ValueError and changes nothing |
| Table.Table.ClearSelection | themed_table.py:954-958 | the selection becomes empty and nothing else changes |
| Table.Table.SelectCell | themed_table.py:960-972 | out of bounds nothing happens; in single mode the selection is cleared first; a coordinate with a cell is added |
| Table.Table.DeselectCell | themed_table.py:974-979 | a coordinate with a cell leaves the selection |
| Table.Table.SelectRange | themed_table.py:981-986 | the selection is the range function, starting from an empty selection |
| Table.Table.SelectRow | themed_table.py:985-986 | the inner loop of `select_range` selects one row of the rectangle |
| Table.Table.SelectNextRow | themed_table.py:984-986 | the outer loop of `select_range`: the selection covers one more row of the rectangle |
| Table.Table.FindOrigin | themed_table.py:280-283 | the loop over `merged_cells` finds the origin `Redirect` names |
| Table.Table.UpdateSelection | themed_table.py:271-297 | the selection becomes the function `UpdateSelection` of the old one; nothing else changes |
| Table.Table.Reselect | themed_table.py:1354-1357 | the selection after the loop is the re-selection of the listing |
| Table.Table.PutBack | themed_table.py:1349-1351 | saved text is put back into the keys that still have a cell |
| Table.Table.RefreshGrid | themed_table.py:1340-1357 | the grid is rebuilt with every surviving cell's text kept, and the old selection re-selected in its listing order |
| Table.Table.GetCell | themed_table.py:841-869 | out of bounds is IndexError; otherwise the cell data of the coordinate, redirected to its origin unless `raw` |
| Table.Table.SetCell | themed_table.py:893-927 | out of bounds returns False and changes nothing; otherwise the write loop over the resolved targets, returning True exactly when some target has a cell |
| Table.Table.ResolveTargets | themed_table.py:898-912 | the targets are those `WriteTargets` names |
| Table.Table.WriteLoop | themed_table.py:914-926 | the cells and computed values become the write loop's result; `modified` says whether any target had a cell |
| Table.Table.WriteOne | themed_table.py:916-925 | one target is written and, when it holds a formula in spreadsheet mode, re-evaluated |
| Table.Table.GetValues | themed_table.py:785-798 | the data is `ValuesOf` the cells |
| Table.Table.SetValues | themed_table.py:805-812 | one undo entry is pushed and the cells become `Populated` with the data |
| Table.Table.WriteData | themed_table.py:808-812 | the nested loop writes the data into the cells as `Populated` says |
| Table.Table.WriteRow | themed_table.py:809-812 | the inner loop writes the row's texts into the cells that exist |
| Table.Table.SaveState | themed_table.py:1512-1525 | the current snapshot is pushed within the bound and the redo stack is emptied; the table is unchanged |
| Table.Table.RestoreState | themed_table.py:1534-1557 | the dimensions and merges become the snapshot's, text is restored only into current keys, and the saved selection is re-selected |
| Table.Table.Undo | themed_table.py:1559-1578 | an empty undo stack changes nothing; otherwise the current snapshot goes onto the redo stack and the popped snapshot is restored |
| Table.Table.Redo | themed_table.py:1580-1599 | the mirror image of undo, pushing onto the undo stack without the bound |
| Table.Table.EvaluateCell | themed_table.py:1840-1851 | the cells, computed values and raised exception are those of the evaluation function |
| Table.Table.ShowFormula | themed_table.py:1845-1851 | evaluating a cell that has a formula stores and shows its value, then updates its dependents |
| Table.Table.UpdateDependencies | themed_table.py:1725-1729 | the loop re-evaluates every formula that mentions the changed cell's reference, as the function does |
| Table.Table.RecalculateAll | themed_table.py:1920-1923 | evaluates every formula in insertion order, as the function does |
| Table.Table.ProcessCellEdit | themed_table.py:1826-1838 | formulas, cells and computed values become those `ProcessEdit` gives |
| Table.Table.EditFormula | themed_table.py:1830-1832 | the formula branch of `process_cell_edit` |
| Table.Table.EditText | themed_table.py:1833-1838 | the plain-text branch of `process_cell_edit` |
| Table.Table.DropFormula | themed_table.py:1834-1837 | the cell's formula and computed value are removed, and nothing else changes |
| Table.Table.InitCellReferences | themed_table.py:1731-1737 | the reference table maps every reference of the grid back to its coordinate |
| Table.Table.EnableSpreadsheetMode | themed_table.py:1853-1867 | enabling builds the reference table and recalculates every formula: the cells and computed values are the recalculation's, put into the refreshed grid, or its exception escapes with the selection and heights untouched; disabling clears formulas and computed values and refreshes the grid with its text; text of cells without a formula is kept either way |
| Table.Table.MergeCells | themed_table.py:617-645 | the "Merge cells at (r,c)" snapshot is pushed first; an area past the grid raises ValueError and changes nothing else; otherwise the old origins inside the rectangle are unmerged once each, in sorted (row-major) order, each pushing an "Unmerge cells at (r,c)" entry above the merge entry, the stack keeps at most 100 entries, the new block replaces those origins, and the grid is rebuilt empty |
| Table.Table.ClearBlock | themed_table.py:625-628 | the merges lose exactly the old origins inside the rectangle; the list of unmerged origins holds each of them once, in sorted (row-major) order; the undo stack gains one "Unmerge cells at (r,c)" entry per origin, in that order, and the redo stack stays empty |
| Table.Table.ClearBlockRow | themed_table.py:626-628 | one row of the loop: the origins of that row not cleared by earlier rows are removed and listed once each, left to right, each pushing its "Unmerge cells at (r,c)" entry in that order |
| Table.Table.UnmergeIfOrigin | themed_table.py:627-628 | a coordinate that is still an origin is removed from the merges, and exactly one entry is pushed: the snapshot of the table just before, described "Unmerge cells at (r,c)"; any other coordinate changes nothing |
| Table.BlockUnmergedInOrder | themed_table.py:625-628 | a sorted list of exactly the origins inside the rectangle equals the walk of the two nested loops over the rectangle, row by row, keeping the coordinates that are origins; so the order the clearing contracts state is the loops' order |
| Table.BlockOriginsUnmerged | themed_table.py:625-628 | that walk meets each origin inside the rectangle exactly once |
| Table.OriginsInMembers | themed_table.py:625-628 | the walk keeps exactly the listed coordinates that are origins, and keeps a sorted listing sorted |
| Table.Table.SettleMerge | themed_table.py:636-645 | the selection moves to a cell of the rebuilt grid and the refresh keeps the empty grid |
| Table.Table.UnmergeCells | themed_table.py:666-673 | one undo entry; the block is removed; the grid is rebuilt, the origin selected and the grid refreshed |
| Table.Table.SplitCell | themed_table.py:1409-1470 | returns False with the layout unchanged unless the coordinate is an origin whose requested axes span more than one line; otherwise only those axes drop to 1 (the entry goes when both do), the origin keeps its text and is selected |
| Table.Table.Reshape | themed_table.py:1445-1469 | the span is replaced, the grid rebuilt, the origin's text put back and the origin selected |
| Table.Table.Respan | themed_table.py:1451-1462 | the entry is removed and re-stored with the new span unless that is 1x1; the grid is rebuilt empty |
| Table.Table.InsertLine | themed_table.py:1111-1243 | one undo entry; nothing else without a selection; otherwise the merge origins follow the insert pass, the line count grows by one, the grid is rebuilt empty, and the shifted selection is re-selected |
| Table.Table.InsertSelected | themed_table.py:1122-1157 | the part of the insert after the selection check |
| Table.Table.GrowAt | themed_table.py:1127-1143 | the re-keying loop, the grown dimension and the rebuilt grid |
| Table.Table.InsertHeight | themed_table.py:1155 | one more row height |
| Table.Table.SelectShifted | themed_table.py:1146-1152 | the selection is shifted past the insert line and then updated to its first element |
| Table.Table.FinishInsert | themed_table.py:1146-1157 | the selection update, the height insert and the refresh that end an insert |
| Table.Table.DeleteLine | themed_table.py:1159-1191 | one undo entry; nothing else without a selection; otherwise the origins follow the delete pass, the line count drops by the number of selected lines, the grid is rebuilt empty and the selection cleared |
| Table.Table.DropLines | themed_table.py:1165-1191 | the part of a deletion after the selection check |
| Table.Table.DeleteRow | themed_table.py:1159-1196 | `DeleteLine` on rows, then the row heights of the deleted rows are dropped from the bottom up; a height list that is too short raises IndexError |
| Table.Table.DropRowHeights | themed_table.py:1193-1196 | the heights loop and the refresh: the count `DeleteHeights` gives, or IndexError |
| Table.Table.DeleteColumn | themed_table.py:1245-1281 | `DeleteLine` on columns, then always NameError for `rows_to_delete`, after the state has changed |
| Table.Table.SelectLine | themed_table.py:1325-1326 | selects each coordinate of a line in turn |
| Table.Table.MoveLine | themed_table.py:1283-1328 | one undo entry; the move goes ahead only when exactly one line is selected and its neighbour is inside the grid; then the swap pass runs and the target line is selected |
| Table.Table.SwapLines | themed_table.py:1306-1328 | the swap loop and the new selection of the target line |
| Table.Table.MoveRow | themed_table.py:1283-1332 | `MoveLine` on rows, then the two row heights are swapped (IndexError when a line is outside the heights list) and the grid refreshed |
| Table.Table.MoveColumn | themed_table.py:1359-1406 | `MoveLine` on columns, then the grid is refreshed |

## Left out

- Everything Tk is left out: canvas drawing, rectangles, colours, themes, fonts, headers, focus and scrolling. A widget is the string it holds. `get_cell`'s `bg_color` is not modelled.
- `_truncate_text` (lines 543-566) is left out, because its limit `max_chars` comes from the widget's pixel width and the font. For a text longer than that limit it rewrites the widget to the full text followed by the elided truncated text, and `get("1.0", "end-1c")` then returns both.
- Table.Table.UpdateSelection: `update_selection` truncates every previously selected cell other than the target (lines 273-276). The contract's unchanged `cells` holds only when those texts fit their widgets.
- Table.Table.MoveRow: the new selection of the target row is truncated by `update_selection` (lines 1325-1328) before the refresh stores the texts. The stated `cells` holds only when every text of that row, except the one in column 0, fits its widget.
- Table.Table.MoveColumn: the same as `MoveRow` for the target column, except the text in row 0 (lines 1401-1404).
- Table.Table.SwapLines: it ends with `update_selection` on the target line (lines 1327 and 1404). The stated `cells` holds only when the texts that call truncates fit their widgets.
- Table.Table.MoveLine: the same limitation as `SwapLines`, which it runs.
- Formula.Upper: only 'a' to 'z' are upper-cased. Python's `str.upper()` is Unicode-wide and can change the length ('ß' becomes "SS"). A formula such as `=ſum(A1:A1)` takes the SUM branch in Python, but here it goes to the arithmetic branch. Unicode case tables are outside the model.
- Pixel geometry is left out: `cell_width`, `cell_height`, `_update_canvas_size`, `configure_scroll`, `auto_scroll_to_selection`. `row_heights` is kept only as its length (`heights`), because the length decides whether `delete_row` and `move_row` raise IndexError.
- The event handlers are left out: click, drag, ctrl- and shift-click, keyboard navigation, `on_key`, `on_resize` and `_setup_event_bindings`. The same goes for the `messagebox` warnings and the clipboard helpers inside `__init__`. They are UI, and the warnings return without changing anything.
- The earlier definitions of `select_cell`, `select_range`, `clear_selection` and `get_selected_cell` (lines 676-729) are left out. Python replaces them with the later definitions, which are the ones modelled.
- Convenience wrappers over modelled operations are left out: `merge_selected`, `split_selected`, `get_selected_values`, `get_selected_cell_value`, `set_selected_cell_value`, `resize_selected`, `set_row_height`, `auto_fit_row` and `load_dataframe`.
- The pandas and NumPy forms `get_values` returns are left out. The model returns the list of rows they are built from.
- The general arithmetic branch of `_calculate_formula` is left out: the substitution loop (lines 1801-1808), `compile` and `eval`. It is the field `arith` of the `Runtime` parameter the table holds, which receives the expression and the value of every reference of the grid, because the loop tests each reference against the text as substituted so far, where a quoted string value can bring in a reference the formula did not name. `float()` parsing of cell text and `str()` of a float are left out too. They are the fields `parseFloat` and `showFloat` of the same parameter. The message of the ValueError that a range with two ':' raises is the field `unpackError`.
- Python's recursion limit is left out. Evaluation carries a depth (`maxDepth`), and running out of it is the RecursionError the unguarded cascade ends in. The formula functions and lemmas hold for every depth.
- Python's set iteration order is the constant `order` of the table. The model requires only that it lists every set once, so `next(iter(...))` and `list(selected_cells)` are not tied to CPython's hash order.
- Floats are exact reals in the model. Rounding in SUM and AVG is not modelled.
- References.ColumnLetter: the contract covers only columns whose letter `chr(65 + col)` lies below the surrogate block (fewer than 55231 columns). Beyond that Python produces characters Dafny's `char` cannot hold.
- Table.Table.MergeCells: on success the contract states only that every selected coordinate has a cell. It does not say which origin `update_selection` picks, since `next(iter(...))` is an arbitrary choice.
- Table.Table.SettleMerge: the same limitation as `MergeCells`: the selection after a merge is stated only as lying within the rebuilt grid.
- Table.Table.ClearBlock: each pushed entry is stated by its description and its place in the stack. The whole snapshot, including the merges still present when that unmerge runs, is stated only per coordinate, by `UnmergeIfOrigin`. `ClearBlockRow` and `MergeCells` state the same as `ClearBlock`.
- `set_cell` returns no value when the evaluation it triggers raises. `Table.Table.SetCell` states `modified` only when no exception escapes.

## Findings

The table class follows the code as written. Each finding below shows the
as-written behaviour on a concrete input. It also gives the intended
behaviour as a separate definition with its property proved.

| source | as written | input that shows it | evidently intended | confidence | as-written member | corrected member |
|---|---|---|---|---|---|---|
| themed_table.py:1133-1135 | `insert_row` pops an origin and re-inserts it one row down while still walking the old sorted keys. A moved origin is visited again when it lands on a key not yet visited, and moves again. | 3x2 grid, 1x2 block at (1, 0), a row inserted at 1: the block ends at (3, 0) | every origin at or past the insert line moves down by exactly one | not executed | Shift.InsertCascadeExample | Shift.ShiftedInsertCorrect |
| themed_table.py:1318-1321 | `move_row` re-keys a swapped origin with `merged_cells[new] = merged_cells.pop(old)`. This overwrites an origin already stored on the other line. | 1x2 blocks at (0, 0) and (1, 0), row 0 moved down: only the block at (1, 0) remains | the two origins trade lines and both blocks survive | not executed | Shift.SwapLosesBlockExample | Shift.SwappedOriginsCorrect |
| themed_table.py:1536-1551 | `_restore_state` assigns the saved dimensions before comparing them, so the grid is never rebuilt. Text is restored only into keys that already exist. | 2x1 table with "a", "b"; delete row 1; undo: the table has 2 rows but no cell (1, 0), and "b" is lost | the grid is rebuilt for the saved layout and all saved text comes back | not executed | Undo.RestoreLosesDeletedRow | Undo.RestoreRebuiltRoundTrip |
| themed_table.py:1728 | `_update_dependencies` tests whether the reference is a substring of the formula text. | editing A1 re-evaluates "=A10+1"; when A1 itself holds "=A10+1", evaluating it re-enters A1 until the recursion limit (Formula.SubstringSelfReference) | a formula depends on a cell only when it names that cell as a whole reference | not executed | Formula.SubstringDependency | Formula.TokenReferenceExact |

Where the code and its documentation disagree, the model follows the code.
Three examples:

- `insert_row` and `delete_row` discard every cell's text. `create_grid` rebuilds empty cells after the shifted copy is built.
- `delete_row` leaves the spans of deleted origins in `merged_cells`.
- `delete_column` always ends in a NameError after it has already changed the table.
