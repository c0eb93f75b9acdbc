/**
 * Snapshots for undo and redo: what `save_state` records, the bounded push
 * onto `undo_stack`, and how `_restore_state` puts cell contents back.
 */
module Undo {
  import opened Dict
  import opened Geometry

  /** One entry of `undo_stack` or `redo_stack`; `selection` is `list(selected_cells)`. */
  datatype Snapshot = Snapshot(
    cells: map<Coord, string>,
    merged: Merges,
    dims: (int, int),
    selection: seq<Coord>,
    description: string)

  /** `max_undo_steps`. */
  const MaxUndoSteps: nat := 100

  /**
   * The push of `save_state`: when the stack is full the oldest entry is
   * dropped first, so the stack never grows past the bound.
   */
  function Push(stack: seq<Snapshot>, s: Snapshot): (r: seq<Snapshot>)
    ensures |stack| <= MaxUndoSteps ==> |r| <= MaxUndoSteps
    ensures r != [] && r[|r| - 1] == s
    ensures |stack| < MaxUndoSteps ==> r == stack + [s]
    ensures |stack| >= MaxUndoSteps ==> r == stack[1..] + [s]
  {
    if |stack| >= MaxUndoSteps then stack[1..] + [s] else stack + [s]
  }

  /** Pushing onto a stack below the bound keeps every entry; on a full one, all but the oldest. */
  lemma PushKeepsRecent(stack: seq<Snapshot>, s: Snapshot, i: int)
    requires |stack| <= MaxUndoSteps
    requires 0 <= i < |stack| && (|stack| < MaxUndoSteps || i > 0)
    ensures stack[i] in Push(stack, s)
  {
    if |stack| >= MaxUndoSteps {
      assert stack[i] == Push(stack, s)[i - 1];
    } else {
      assert stack[i] == Push(stack, s)[i];
    }
  }

  /** `save_state` pushing each of `entries` in turn. */
  function PushAll(stack: seq<Snapshot>, entries: seq<Snapshot>): seq<Snapshot>
    decreases |entries|
  {
    if entries == [] then stack else PushAll(Push(stack, entries[0]), entries[1..])
  }

  /** Pushing `a + b` is pushing `a`, then `b`. */
  lemma {:induction false} PushAllAppend(stack: seq<Snapshot>, a: seq<Snapshot>, b: seq<Snapshot>)
    ensures PushAll(stack, a + b) == PushAll(PushAll(stack, a), b)
    decreases |a|
  {
    if a == [] {
      assert a + b == b;
    } else {
      assert (a + b)[1..] == a[1..] + b;
      PushAllAppend(Push(stack, a[0]), a[1..], b);
    }
  }

  /**
   * After a run of pushes the stack holds the old entries and the new ones
   * up to the bound of 100, and the last entry pushed is on top: the one the
   * next `undo` restores.
   */
  lemma {:induction false} PushAllSize(stack: seq<Snapshot>, entries: seq<Snapshot>)
    requires |stack| <= MaxUndoSteps
    ensures |PushAll(stack, entries)| ==
      if |stack| + |entries| <= MaxUndoSteps then |stack| + |entries| else MaxUndoSteps
    ensures entries != [] ==> PushAll(stack, entries)[|PushAll(stack, entries)| - 1] == entries[|entries| - 1]
    decreases |entries|
  {
    if entries != [] {
      PushAllSize(Push(stack, entries[0]), entries[1..]);
    }
  }

  /**
   * The content loop of `_restore_state`: every cell the table has now takes
   * the snapshot's text when the snapshot recorded it; no cell is created
   * or removed.
   */
  function RestoreContent(current: map<Coord, string>, saved: map<Coord, string>): (r: map<Coord, string>)
    ensures r.Keys == current.Keys
    ensures forall k | k in current && k in saved :: r[k] == saved[k]
    ensures forall k | k in current && k !in saved :: r[k] == current[k]
  {
    map k | k in current :: if k in saved then saved[k] else current[k]
  }

  /** Putting back a capture of the same cells gives exactly that capture: the undo-then-redo round trip. */
  lemma RestoreContentSameKeys(current: map<Coord, string>, saved: map<Coord, string>)
    requires current.Keys == saved.Keys
    ensures RestoreContent(current, saved) == saved
  {
  }

  /**
   * `refresh_grid` keeps every cell's text when the cells already match the
   * grid the dimensions and merges describe.
   */
  lemma RefreshKeepsContent(content: map<Coord, string>, rows: int, cols: int, merged: Merges)
    requires content.Keys == GridKeys(rows, cols, merged)
    ensures RestoreContent(EmptyGrid(rows, cols, merged), content) == content
  {
  }

  /**
   * What restoring is evidently meant to produce: the grid the snapshot's
   * dimensions and merges describe, each cell holding the snapshot's text.
   */
  function RestoreRebuilt(s: Snapshot): (r: map<Coord, string>)
    ensures r.Keys == GridKeys(s.dims.0, s.dims.1, s.merged)
  {
    map k | k in GridKeys(s.dims.0, s.dims.1, s.merged) :: if k in s.cells then s.cells[k] else ""
  }

  /** A snapshot of a table whose cells match its grid is restored exactly by the corrected rule. */
  lemma RestoreRebuiltRoundTrip(s: Snapshot)
    requires s.cells.Keys == GridKeys(s.dims.0, s.dims.1, s.merged)
    ensures RestoreRebuilt(s) == s.cells
  {
  }

  /**
   * Undo after deleting the second row of a two-row, one-column table: the
   * snapshot holds both rows, but only the surviving cell exists, so the
   * restored table has two rows and a single cell; the deleted row's text is gone.
   */
  lemma RestoreLosesDeletedRow()
    ensures var saved := Snapshot(map[(0, 0) := "a", (1, 0) := "b"], [], (2, 1), [], "Delete row");
      var asWritten := RestoreContent(map[(0, 0) := ""], saved.cells);
      asWritten == map[(0, 0) := "a"] && (1, 0) !in asWritten &&
      RestoreRebuilt(saved) == saved.cells
  {
    var saved := Snapshot(map[(0, 0) := "a", (1, 0) := "b"], [], (2, 1), [], "Delete row");
    assert GridKeys(2, 1, []) == {(0, 0), (1, 0)} by {
      forall p | p in GridKeys(2, 1, []) ensures p in {(0, 0), (1, 0)} {
        assert 0 <= p.0 < 2 && p.1 == 0;
      }
      assert !IsMergedCell([], (0, 0)) && !IsMergedCell([], (1, 0));
    }
    RestoreRebuiltRoundTrip(saved);
  }
}
